/** Escaping by passes of replacement: the JSON and the property-list writers. */
module Escapes {
  import opened Strings

  function JsonChar(c: char): string {
    if c == '\\' then "\\\\" else if c == '"' then "\\\"" else [c]
  }

  function XmlChar(c: char): string {
    if c == '&' then "&amp;" else if c == '<' then "&lt;" else if c == '>' then "&gt;" else [c]
  }

  /** Every character at once, none looked at twice. */
  function JsonEscaped(s: string): string {
    if s == "" then "" else JsonChar(s[0]) + JsonEscaped(s[1..])
  }

  function XmlEscaped(s: string): string {
    if s == "" then "" else XmlChar(s[0]) + XmlEscaped(s[1..])
  }

  lemma {:induction false} SubstitutedConcat(a: string, b: string, c: char, r: string)
    ensures Substituted(a + b, c, r) == Substituted(a, c, r) + Substituted(b, c, r)
    decreases |a|
  {
    if a == "" {
      assert a + b == b;
    } else {
      assert (a + b)[1..] == a[1..] + b;
      SubstitutedConcat(a[1..], b, c, r);
    }
  }

  lemma SubstitutedOne(x: char, c: char, r: string)
    ensures Substituted([x], c, r) == if x == c then r else [x]
  {
  }

  lemma {:induction false} SubstitutedNone(s: string, c: char, r: string)
    requires c !in s
    ensures Substituted(s, c, r) == s
  {
    if s != "" {
      SubstitutedNone(s[1..], c, r);
    }
  }

  /** Backslashes first, then quotes: the quotes' new backslashes are not escaped again. */
  lemma {:induction false} JsonPasses(s: string)
    ensures Substituted(Substituted(s, '\\', "\\\\"), '"', "\\\"") == JsonEscaped(s)
  {
    if s != "" {
      var c := s[0];
      var first := if c == '\\' then "\\\\" else [c];
      SubstitutedConcat(first, Substituted(s[1..], '\\', "\\\\"), '"', "\\\"");
      SubstitutedOne(c, '"', "\\\"");
      SubstitutedNone("\\\\", '"', "\\\"");
      JsonPasses(s[1..]);
    }
  }

  lemma XmlOne(c: char)
    ensures Substituted(Substituted(Substituted([c], '&', "&amp;"), '<', "&lt;"), '>', "&gt;") == XmlChar(c)
  {
    SubstitutedOne(c, '&', "&amp;");
    SubstitutedOne(c, '<', "&lt;");
    SubstitutedOne(c, '>', "&gt;");
    SubstitutedNone("&amp;", '<', "&lt;");
    SubstitutedNone("&amp;", '>', "&gt;");
    SubstitutedNone("&lt;", '>', "&gt;");
  }

  /** Ampersands first: those of "&lt;" and "&gt;" are not escaped again. */
  lemma {:induction false} XmlPasses(s: string)
    ensures Substituted(Substituted(Substituted(s, '&', "&amp;"), '<', "&lt;"), '>', "&gt;") == XmlEscaped(s)
  {
    if s != "" {
      XmlPasses(s[1..]);
      hide Substituted;
      var one, two := Substituted([s[0]], '&', "&amp;"), Substituted(s[1..], '&', "&amp;");
      assert s == [s[0]] + s[1..];
      SubstitutedConcat([s[0]], s[1..], '&', "&amp;");
      SubstitutedConcat(one, two, '<', "&lt;");
      SubstitutedConcat(Substituted(one, '<', "&lt;"), Substituted(two, '<', "&lt;"), '>', "&gt;");
      XmlOne(s[0]);
    }
  }

  /** The escaping in _wi_json_string_for_string. */
  method EscapeJson(value: string) returns (escaped: string)
    requires CString(value)
    ensures escaped == JsonEscaped(value)
  {
    var copy := new MutableString(value);
    copy.ReplaceString("\\", "\\\\");
    copy.ReplaceString("\"", "\\\"");
    ReplacedChar(value, '\\', "\\\\");
    ReplacedChar(Substituted(value, '\\', "\\\\"), '"', "\\\"");
    JsonPasses(value);
    escaped := copy.chars;
  }

  /** _wi_plist_xml_string_for_string. */
  method EscapeXml(value: string) returns (escaped: string)
    requires CString(value)
    ensures escaped == XmlEscaped(value)
  {
    var copy := new MutableString(value);
    copy.ReplaceString("&", "&amp;");
    copy.ReplaceString("<", "&lt;");
    copy.ReplaceString(">", "&gt;");
    var s := Substituted(value, '&', "&amp;");
    ReplacedChar(value, '&', "&amp;");
    ReplacedChar(s, '<', "&lt;");
    ReplacedChar(Substituted(s, '<', "&lt;"), '>', "&gt;");
    XmlPasses(value);
    escaped := copy.chars;
  }

  /** The predefined entities of XML 1.0, section 4.6, resolved. */
  function XmlResolved(s: string): string {
    if s == "" then ""
    else if "&amp;" <= s then "&" + XmlResolved(s[5..])
    else if "&lt;" <= s then "<" + XmlResolved(s[4..])
    else if "&gt;" <= s then ">" + XmlResolved(s[4..])
    else [s[0]] + XmlResolved(s[1..])
  }

  /** Escaped text holds no markup, and resolving its entities gives the text back. */
  lemma {:induction false} XmlRoundTrip(s: string)
    ensures XmlResolved(XmlEscaped(s)) == s
    ensures '<' !in XmlEscaped(s) && '>' !in XmlEscaped(s)
  {
    if s != "" {
      XmlRoundTrip(s[1..]);
      var tail := XmlEscaped(s[1..]);
      var e := XmlEscaped(s);
      if s[0] == '&' {
        assert "&amp;" <= e && e[5..] == tail;
      } else if s[0] == '<' {
        assert e[1] == 'l' && "&lt;" <= e && e[4..] == tail;
      } else if s[0] == '>' {
        assert e[1] == 'g' && "&gt;" <= e && e[4..] == tail;
      } else {
        assert e[0] == s[0] && e[1..] == tail;
      }
    }
  }
}
