/** wi-url.c: printing a URL from its parts, and taking one apart again by narrowing the text. */
module Url {
  import opened Basics
  import opened Numerals
  import opened Strings

  const UINT32_MAX: int := 0xFFFF_FFFF

  datatype Parts = Parts(scheme: Option<string>, user: Option<string>, password: Option<string>,
                         host: Option<string>, port: nat, path: Option<string>)

  const NO_PARTS := Parts(None, None, None, None, 0, None)

  /** A part as "%#@" prints it: nothing where there is none. */
  function Show(part: Option<string>): string {
    match part
    case None => ""
    case Some(s) => s
  }

  // ----- the printer, part by part -----

  function Authority(p: Parts): string {
    UserInfo(p) + HostPort(p)
  }

  function UserInfo(p: Parts): string {
    if Show(p.user) == "" then ""
    else p.user.value + (if Show(p.password) == "" then "" else ":" + p.password.value) + "@"
  }

  function HostPort(p: Parts): string {
    (if ':' in Show(p.host) then "[" + p.host.value + "]" else Show(p.host))
    + if p.port > 0 then ":" + Decimal(p.port) else ""
  }

  function Printed(p: Parts): string {
    Show(p.scheme) + "://" + Authority(p) + if p.path == None then "/" else p.path.value
  }

  // ----- the parser, part by part -----

  function Scheme(s: string): (Option<string>, string) {
    var i := Index(s, "://");
    if i == NOT_FOUND then (None, s) else (Some(s[..i]), s[i + 3..])
  }

  function Path(s: string): (Option<string>, string) {
    var i := Index(s, "/");
    if i == NOT_FOUND then (None, s) else (Some(s[i..]), s[..i])
  }

  function User(s: string): (Option<string>, Option<string>, string) {
    var i := Index(s, "@");
    if i == NOT_FOUND then (None, None, s)
    else
      var info := s[..i];
      var j := Index(info, ":");
      if j != NOT_FOUND && j != |info| - 1 then (Some(info[..j]), Some(info[j + 1..]), s[i + 1..])
      else (Some(info), None, s[i + 1..])
  }

  function Host(s: string): (string, nat) {
    if s != "" && s[0] == '[' then
      var i := Index(s, "]");
      if i == NOT_FOUND then (s, 0)
      else
        assert i > 0;
        var rest := s[i + 1..];
        (s[1..i], if |rest| > 1 && rest[0] == ':' then Unsigned(rest[1..], UINT32_MAX) else 0)
    else
      var i := Index(s, ":");
      if i == NOT_FOUND || i + 1 >= |s| || ':' in s[i + 1..] then (s, 0)
      else (s[..i], Unsigned(s[i + 1..], UINT32_MAX))
  }

  function Parsed(s: string): Parts {
    var (scheme, rest) := Scheme(s);
    if scheme.Some? && rest == "" then NO_PARTS.(scheme := scheme)
    else
      var (path, authority) := Path(rest);
      var (user, password, hostport) := User(authority);
      var (host, port) := Host(hostport);
      Parts(scheme, user, password, Some(host), port, path)
  }

  /** wi_string_range_of_string, of a text that is not empty. */
  method Find(s: string, text: string) returns (location: int)
    requires CString(s) && CString(text) && text != ""
    ensures location == Index(s, text)
  {
    location := StrNStr(s, text, |s|);
    assert Prefix(s, |s|) == s;
    FirstUnique(s, text, location, Index(s, text));
  }

  class Url {
    var scheme: Option<string>
    var user: Option<string>
    var password: Option<string>
    var host: Option<string>
    var port: nat
    var path: Option<string>
    var text: string

    function Fields(): Parts
      reads this
    {
      Parts(scheme, user, password, host, port, path)
    }

    /** wi_url_alloc. */
    constructor ()
      ensures Fields() == NO_PARTS
    {
      scheme, user, password, host, port, path := None, None, None, None, 0, None;
      text := "";
    }

    /** _wi_url_regenerate_string. */
    method RegenerateString()
      modifies this`text
      ensures text == Printed(Fields())
    {
      hide UserInfo, HostPort;
      text := Show(scheme) + "://";
      AppendUserInfo();
      AppendHostPort();
      var end := if path.Some? then path.value else "/";
      Associate(Show(scheme) + "://", UserInfo(Fields()), HostPort(Fields()));
      text := text + end;
    }

    method AppendUserInfo()
      modifies this`text
      ensures text == old(text) + UserInfo(Fields())
    {
      if user.Some? && |user.value| > 0 {
        var info := user.value;
        if password.Some? && |password.value| > 0 {
          info := info + (":" + password.value);
        }
        Associate(text, info, "@");
        text := text + info + "@";
      }
    }

    method AppendHostPort()
      modifies this`text
      ensures text == old(text) + HostPort(Fields())
    {
      hide Decimal;
      var name := if host.Some? && ':' in host.value then "[" + host.value + "]" else Show(host);
      var number := if port > 0 then ":" + Decimal(port) else "";
      Associate(text, name, number);
      text := text + name + number;
    }

    /** The user and the password, if there are any; what is left follows the at sign. */
    method ReadUser(s: string) returns (rest: string)
      requires CString(s) && user == None && password == None
      modifies this`user, this`password
      ensures (user, password, rest) == User(s) && CString(rest)
    {
      hide Index;
      rest := s;
      var location := Find(s, "@");
      if location != NOT_FOUND {
        var userpassword := s[..location];
        rest := s[location + 1..];
        location := Find(userpassword, ":");
        if location != NOT_FOUND && location != |userpassword| - 1 {
          user := Some(userpassword[..location]);
          password := Some(userpassword[location + 1..]);
        } else {
          user := Some(userpassword);
        }
      }
    }

    /** wi_url_init_with_string. */
    method InitWithString(s: string)
      requires CString(s) && Fields() == NO_PARTS
      modifies this
      ensures Fields() == Parsed(s) && text == Printed(Fields())
      ensures forall p :: ToldApart(p) && s == TextOf(p) ==> Fields() == p.(port := if p.port <= UINT32_MAX then p.port else 0)
    {
      hide Index, Printed, Unsigned, ToldApart, TextOf;
      forall p | ToldApart(p)
        ensures Parsed(TextOf(p)) == p.(port := if p.port <= UINT32_MAX then p.port else 0)
      {
        TextReadBack(p);
      }
      var s := s;
      ghost var s0 := s;
      var location := Find(s, "://");
      if location != NOT_FOUND {
        scheme := Some(s[..location]);
        s := s[location + 3..];
        if s == "" {
          RegenerateString();
          return;
        }
      }
      assert Scheme(s0) == (scheme, s);
      hide Scheme;
      ghost var s1 := s;
      location := Find(s, "/");
      if location != NOT_FOUND {
        path := Some(s[location..]);
        s := s[..location];
      }
      assert Path(s1) == (path, s);
      hide Path;
      ghost var s2 := s;
      s := ReadUser(s);
      assert User(s2) == (user, password, s);
      hide User;
      var name, number := HostAndPort(s);
      host := Some(name);
      port := number;
      RegenerateString();
    }
  }

  /** The last part of the parser: a host in brackets or without, and what follows it. */
  method HostAndPort(s: string) returns (host: string, port: nat)
    requires CString(s)
    ensures (host, port) == Host(s)
  {
    hide Index, Unsigned;
    port := 0;
    if s != "" && s[0] == '[' {
      var location := Find(s, "]");
      if location != NOT_FOUND {
        host := s[1..location];
        var rest := s[location + 1..];
        if |rest| > 1 && rest[0] == ':' {
          port := Unsigned(rest[1..], UINT32_MAX);
        }
      } else {
        host := s;
      }
    } else {
      var location := Find(s, ":");
      if location == NOT_FOUND || location + 1 >= |s| || ':' in s[location + 1..] {
        host := s;
      } else {
        host := s[..location];
        port := Unsigned(s[location + 1..], UINT32_MAX);
      }
    }
  }

  // ----- parsing what was printed -----

  /** Where the first c is. */
  lemma IndexOf(s: string, c: char)
    ensures var i := Index(s, [c]);
      if i == NOT_FOUND then c !in s else 0 <= i < |s| && s[i] == c && c !in s[..i]
  {
    var i := Index(s, [c]);
    forall k | 0 <= k < |s| && (i == NOT_FOUND || k < i)
      ensures s[k] != c
    {
      assert !OccursAt(s, [c], k);
      assert s[k..k + 1] == [s[k]];
    }
    if i != NOT_FOUND {
      assert s[i..i + 1][0] == c;
    }
  }

  lemma IndexUpTo(s: string, c: char, k: nat)
    requires k < |s| && s[k] == c
    ensures 0 <= Index(s, [c]) <= k
  {
    assert OccursAt(s, [c], k);
  }

  /** The first c after a text without it. */
  lemma IndexOfChar(before: string, c: char, after: string)
    requires c !in before
    ensures Index(before + [c] + after, [c]) == |before|
  {
    hide Index;
    var s := before + [c] + after;
    IndexOf(s, c);
    IndexUpTo(s, c, |before|);
    assert forall k :: 0 <= k < |before| ==> s[k] == before[k];
  }

  lemma SchemeExactly(scheme: string, rest: string)
    ensures Scheme(scheme + "://" + rest).0 == Some(scheme) <==> Index(scheme, "://") == NOT_FOUND
    ensures Index(scheme, "://") == NOT_FOUND ==> Scheme(scheme + "://" + rest) == (Some(scheme), rest)
  {
    var s := scheme + "://" + rest;
    if Index(scheme, "://") == NOT_FOUND {
      SchemeRead(scheme, rest);
    } else {
      var k := Index(scheme, "://");
      assert s[k..k + 3] == scheme[k..k + 3];
      assert OccursAt(s, "://", k);
    }
  }

  lemma SchemeRead(scheme: string, rest: string)
    requires Index(scheme, "://") == NOT_FOUND
    ensures Scheme(scheme + "://" + rest) == (Some(scheme), rest)
  {
    var s := scheme + "://" + rest;
    var n := |scheme|;
    assert s[n..n + 3] == "://" && s[n] == ':' && s[n + 1] == '/' && s[n + 2] == '/';
    forall k: nat | k < n
      ensures !OccursAt(s, "://", k)
    {
      assert !OccursAt(scheme, "://", k);
      if k + 3 <= n {
        assert s[k..k + 3] == scheme[k..k + 3];
      } else {
        assert s[k..k + 3][0] == s[k] && s[k..k + 3][1] == s[k + 1] && s[k..k + 3][2] == s[k + 2];
      }
    }
    FirstUnique(s, "://", n, Index(s, "://"));
    assert s[..n] == scheme && s[n + 3..] == rest;
  }

  lemma PathExactly(authority: string, path: string)
    ensures Path(authority + path).0 == Some(path) <==> '/' !in authority && path != "" && path[0] == '/'
    ensures Path(authority + path).0 == Some(path) ==> Path(authority + path).1 == authority
  {
    hide Index;
    var s := authority + path;
    var i := Index(s, "/");
    IndexOf(s, '/');
    if i != NOT_FOUND && |s| - i == |path| {
      assert s[..i] == authority && s[i..] == path;
    }
    if '/' !in authority && path != "" && path[0] == '/' {
      IndexOfChar(authority, '/', path[1..]);
      assert s == authority + ['/'] + path[1..];
      assert s[|authority|..] == path;
    }
  }

  /** A user and a password that are told apart from each other and from the host. A user may end in a colon. */
  ghost predicate UserOk(p: Parts) {
    match p.user
    case None => p.password == None && '@' !in Show(p.host)
    case Some(user) =>
      && user != "" && '@' !in user
      && match p.password
         case None => ':' !in user[..|user| - 1]
         case Some(password) => ':' !in user && password != "" && '@' !in password
  }

  lemma HostPortHas(p: Parts, c: char)
    requires c !in "[]:" && !('0' <= c <= '9')
    ensures c in HostPort(p) <==> c in Show(p.host)
    ensures multiset(HostPort(p))[c] == multiset(Show(p.host))[c]
  {
    hide Decimal;
    DecimalDigits(p.port);
    var name := if ':' in Show(p.host) then "[" + p.host.value + "]" else Show(p.host);
    var tail := if p.port > 0 then ":" + Decimal(p.port) else "";
    assert HostPort(p) == name + tail;
    hide HostPort;
    assert c !in tail;
    assert c in name <==> c in Show(p.host);
    assert multiset(name)[c] == multiset(Show(p.host))[c];
  }

  lemma UserRead(p: Parts, hostport: string)
    requires UserOk(p) && (p.user == None ==> '@' !in hostport)
    ensures User(UserInfo(p) + hostport) == (p.user, p.password, hostport)
  {
    hide Index;
    IndexOf(hostport, '@');
    if p.user == None {
      assert UserInfo(p) + hostport == hostport;
    } else {
      var user := p.user.value;
      var info := user + if p.password == None then "" else ":" + p.password.value;
      var s := UserInfo(p) + hostport;
      assert s == info + ['@'] + hostport;
      IndexOfChar(info, '@', hostport);
      assert s[..|info|] == info && s[|info| + 1..] == hostport;
      if p.password == None {
        assert info == user;
        IndexOf(info, ':');
        assert forall k :: 0 <= k < |user| - 1 ==> user[..|user| - 1][k] == user[k];
      } else {
        assert info == user + [':'] + p.password.value;
        IndexOfChar(user, ':', p.password.value);
        assert info[..|user|] == user && info[|user| + 1..] == p.password.value;
      }
    }
  }

  /** Otherwise the user, the password or the host read is another. */
  lemma UserLost(p: Parts)
    requires !UserOk(p) && p.host.Some?
    ensures var (user, password, rest) := User(UserInfo(p) + HostPort(p));
      user != p.user || password != p.password || Host(rest).0 != p.host.value
  {
    hide Index, Host, HostPort;
    var hostport := HostPort(p);
    HostPortHas(p, '@');
    if Show(p.user) == "" {
      assert UserInfo(p) + hostport == hostport;
      IndexOf(hostport, '@');
      if p.user.Some? && '@' in hostport {
        HostShrinks(hostport, Index(hostport, "@"));
      }
    } else {
      NameLost(p, hostport);
    }
  }

  lemma SliceCount(s: string, a: nat, b: nat, c: char)
    requires a <= b <= |s|
    ensures multiset(s[a..b])[c] <= multiset(s)[c]
  {
    assert s == s[..a] + s[a..b] + s[b..];
  }

  /** No host is read that has as many at signs as the text. */
  lemma HostShrinks(s: string, i: nat)
    requires i < |s| && s[i] == '@'
    ensures multiset(Host(s[i + 1..]).0)['@'] < multiset(s)['@']
  {
    hide Index;
    var rest := s[i + 1..];
    IndexOf(rest, ']');
    IndexOf(rest, ':');
    var a, b := 0, |rest|;
    if rest != "" && rest[0] == '[' {
      if Index(rest, "]") != NOT_FOUND {
        a, b := 1, Index(rest, "]");
      }
    } else if Host(rest).0 != rest {
      b := Index(rest, ":");
    }
    assert Host(rest).0 == rest[a..b];
    hide Host;
    SliceCount(rest, a, b, '@');
    assert s == s[..i] + (['@'] + rest);
  }

  lemma NameLost(p: Parts, hostport: string)
    requires !UserOk(p) && Show(p.user) != ""
    ensures var (user, password, _) := User(UserInfo(p) + hostport); user != p.user || password != p.password
  {
    hide Index;
    var user, password := p.user.value, Show(p.password);
    var s := UserInfo(p) + hostport;
    var name := user + if password == "" then "" else ":" + password;
    assert s == name + ['@'] + hostport;
    IndexUpTo(s, '@', |name|);
    IndexOf(s, '@');
    var info := s[..Index(s, "@")];
    IndexOf(info, ':');
    var j := Index(info, ":");
    assert '@' !in info;
    assert j != NOT_FOUND ==> '@' !in info[..j] && '@' !in info[j + 1..];
    if '@' !in user && '@' !in password {
      assert '@' !in name;
      IndexOfChar(name, '@', hostport);
      assert info == name;
      ColonMatters(p, name);
    }
  }

  /** Without at signs, only a colon in the user, or a missing password, can be wrong. */
  lemma ColonMatters(p: Parts, name: string)
    requires !UserOk(p) && Show(p.user) != "" && '@' !in p.user.value && '@' !in Show(p.password)
    requires name == p.user.value + if Show(p.password) == "" then "" else ":" + p.password.value
    ensures var j := Index(name, ":");
      if j != NOT_FOUND && j != |name| - 1 then Some(name[..j]) != p.user || Some(name[j + 1..]) != p.password
      else p.password != None
  {
    hide Index;
    var user := p.user.value;
    var j := Index(name, ":");
    IndexOf(name, ':');
    if p.password == None {
      var k :| 0 <= k < |user| - 1 && user[k] == ':';
      assert name == user;
      IndexUpTo(name, ':', k);
    } else if p.password.value != "" && ':' in user {
      var k :| 0 <= k < |user| && user[k] == ':';
      IndexUpTo(name, ':', k);
    }
  }

  /** A host that is told apart from the port. One with an opening bracket needs to stand alone. */
  ghost predicate HostOk(host: string, port: nat) {
    if ':' in host then ']' !in host
    else host == "" || host[0] != '[' || (']' !in host && port == 0)
  }

  /** In brackets, after which the port may come. */
  lemma BracketedExactly(host: string, tail: string)
    ensures ']' !in host ==>
      Host("[" + host + "]" + tail) == (host, if |tail| > 1 && tail[0] == ':' then Unsigned(tail[1..], UINT32_MAX) else 0)
    ensures ']' in host ==> Host("[" + host + "]" + tail).0 != host
  {
    hide Index, Unsigned;
    var s := "[" + host + "]" + tail;
    if ']' !in host {
      assert s == ("[" + host) + [']'] + tail;
      IndexOfChar("[" + host, ']', tail);
      assert s[1..|host| + 1] == host && s[|host| + 2..] == tail;
    } else {
      var k :| 0 <= k < |host| && host[k] == ']';
      IndexUpTo(s, ']', k + 1);
    }
  }

  lemma PlainHostRead(host: string)
    requires ':' !in host && (host == "" || host[0] != '[')
    ensures Host(host) == (host, 0)
  {
  }

  lemma PlainHostPortRead(host: string, digits: string)
    requires ':' !in host && (host == "" || host[0] != '[') && digits != "" && ':' !in digits
    ensures Host(host + ":" + digits) == (host, Unsigned(digits, UINT32_MAX))
  {
    hide Index, Unsigned;
    var s := host + ":" + digits;
    assert s == host + [':'] + digits;
    IndexOfChar(host, ':', digits);
    assert s[..|host|] == host && s[|host| + 1..] == digits;
  }

  lemma OpenBracketRead(host: string, tail: string)
    requires host != "" && host[0] == '[' && ']' !in tail
    ensures if ']' in host then Host(host + tail).0 != host else Host(host + tail) == (host + tail, 0)
  {
    hide Index;
    var s := host + tail;
    IndexOf(s, ']');
    if ']' in host {
      var k :| 0 <= k < |host| && host[k] == ']';
      IndexUpTo(s, ']', k);
    }
  }

  lemma HostPortIs(p: Parts, host: string)
    requires p.host == Some(host)
    ensures HostPort(p) == (if ':' in host then "[" + host + "]" else host) + if p.port > 0 then ":" + Decimal(p.port) else ""
  {
  }

  lemma HostExactly(p: Parts)
    requires p.host.Some?
    ensures Host(HostPort(p)).0 == p.host.value <==> HostOk(p.host.value, p.port)
    ensures HostOk(p.host.value, p.port) ==> Host(HostPort(p)).1 == if p.port <= UINT32_MAX then p.port else 0
  {
    hide Host, HostPort, Index, Unsigned, Decimal;
    var host, digits := p.host.value, Decimal(p.port);
    var tail := if p.port > 0 then ":" + digits else "";
    HostPortIs(p, host);
    DecimalDigits(p.port);
    DecimalRead(p.port, UINT32_MAX);
    if ':' in host {
      BracketedExactly(host, tail);
      assert p.port > 0 ==> tail[1..] == digits;
    } else if host != "" && host[0] == '[' {
      OpenBracketRead(host, tail);
      assert |host + tail| == |host| + |tail|;
    } else if p.port == 0 {
      PlainHostRead(host);
      assert host + tail == host;
    } else {
      PlainHostPortRead(host, digits);
      assert host + ":" + digits == host + tail;
    }
  }

  /** Parts that can be told apart in print. */
  ghost predicate WellFormed(p: Parts) {
    && p.scheme.Some? && Index(p.scheme.value, "://") == NOT_FOUND
    && p.path.Some? && p.path.value != "" && p.path.value[0] == '/'
    && p.host.Some? && '/' !in Show(p.user) && '/' !in Show(p.password) && '/' !in p.host.value
    && UserOk(p) && HostOk(p.host.value, p.port)
  }

  lemma AuthoritySlash(p: Parts)
    requires UserOk(p)
    ensures '/' !in Authority(p) <==> '/' !in Show(p.user) && '/' !in Show(p.password) && '/' !in Show(p.host)
  {
    hide HostPort;
    HostPortHas(p, '/');
    if p.user.Some? {
      var password := if p.password == None then "" else ":" + p.password.value;
      assert Authority(p) == p.user.value + password + "@" + HostPort(p);
      assert '/' in Show(p.password) <==> '/' in password by {
        if p.password.Some? {
          assert password[1..] == p.password.value;
        }
      }
    }
  }

  /** Well-formed parts read back from print but for a port past 32 bits, which reads as zero. */
  lemma WellFormedRead(p: Parts)
    requires WellFormed(p)
    ensures Parsed(Printed(p)) == p.(port := if p.port <= UINT32_MAX then p.port else 0)
  {
    hide Scheme, Path, User, Host, UserInfo, HostPort, HostOk, UserOk, Index;
    var authority, path := Authority(p), p.path.value;
    assert Printed(p) == p.scheme.value + "://" + (authority + path);
    SchemeExactly(p.scheme.value, authority + path);
    AuthoritySlash(p);
    PathExactly(authority, path);
    HostPortHas(p, '@');
    UserNone(p);
    UserRead(p, HostPort(p));
    HostExactly(p);
  }

  lemma UserNone(p: Parts)
    requires UserOk(p)
    ensures p.user == None ==> '@' !in Show(p.host)
  {
  }

  /** A printed URL is taken apart into the parts it was printed from exactly if they are well-formed and the
      port fits 32 bits. */
  lemma PartsReadBack(p: Parts)
    ensures Parsed(Printed(p)) == p <==> WellFormed(p) && p.port <= UINT32_MAX
    ensures WellFormed(p) ==> Parsed(Printed(p)) == p.(port := if p.port <= UINT32_MAX then p.port else 0)
  {
    hide Parsed, Printed;
    if WellFormed(p) {
      WellFormedRead(p);
    } else if Parsed(Printed(p)) == p {
      ReadBackWellFormed(p);
    }
  }

  lemma PathFound(authority: string, path: string)
    requires path == "/"
    ensures Path(authority + path).0.Some?
  {
    hide Index;
    IndexUpTo(authority + path, '/', |authority|);
  }

  lemma ReadBackWellFormed(p: Parts)
    requires Parsed(Printed(p)) == p
    ensures WellFormed(p)
  {
    hide Scheme, Path, User, Host, UserInfo, HostPort, HostOk, UserOk, Index;
    var end := if p.path == None then "/" else p.path.value;
    var rest := Authority(p) + end;
    assert Printed(p) == Show(p.scheme) + "://" + rest;
    FirstUnique("", "://", NOT_FOUND, Index("", "://"));
    SchemeExactly(Show(p.scheme), rest);
    assert Scheme(Printed(p)).0 == p.scheme;
    if p.path == None {
      PathFound(Authority(p), end);
    }
    PathExactly(Authority(p), end);
    if !UserOk(p) {
      UserLost(p);
    } else {
      HostPortHas(p, '@');
      AuthoritySlash(p);
      UserNone(p);
      UserRead(p, HostPort(p));
      HostExactly(p);
    }
  }

  /** Port 2^32 reads back as none. */
  lemma PortLost()
    ensures var p := Parts(Some("http"), None, None, Some("h"), UINT32_MAX + 1, Some("/"));
      WellFormed(p) && Parsed(Printed(p)) == p.(port := 0) != p
  {
    hide Parsed, Printed;
    var p := Parts(Some("http"), None, None, Some("h"), UINT32_MAX + 1, Some("/"));
    NoSchemeEndIn("http");
    PartsReadBack(p);
  }

  /** An empty user is not printed. */
  lemma EmptyUserLost(p: Parts)
    requires p.user == Some("")
    ensures Parsed(Printed(p)) != p
  {
    PartsReadBack(p);
  }

  // ----- texts that lack a scheme or a path -----

  /** The text of the parts there are: with a scheme or without, with a path or without. */
  function TextOf(p: Parts): string {
    (if p.scheme.Some? then p.scheme.value + "://" else "") + (Authority(p) + Show(p.path))
  }

  /** Parts that can be told apart in such a text. A scheme alone leaves everything else unset, the host as well. */
  ghost predicate ToldApart(p: Parts) {
    && (if p.scheme.Some? then Index(p.scheme.value, "://") == NOT_FOUND
        else Index(Authority(p) + Show(p.path), "://") == NOT_FOUND)
    && if p.host == None then p == NO_PARTS.(scheme := p.scheme) && p.scheme.Some?
       else
         && (p.path.Some? ==> p.path.value != "" && p.path.value[0] == '/')
         && '/' !in Show(p.user) && '/' !in Show(p.password) && '/' !in p.host.value
         && UserOk(p) && HostOk(p.host.value, p.port)
         && (p.scheme.Some? && p.path == None ==> Authority(p) != "")
  }

  lemma NoPath(authority: string)
    ensures Path(authority).0 == None <==> '/' !in authority
    ensures Path(authority).0 == None ==> Path(authority).1 == authority
  {
    hide Index;
    IndexOf(authority, '/');
  }

  /** A text without a scheme is left as it is. */
  lemma NoScheme(s: string)
    ensures Scheme(s).0 == None <==> Index(s, "://") == NOT_FOUND
    ensures Scheme(s).0 == None ==> Scheme(s).1 == s
  {
    hide Index;
  }

  /** Narrowing the rest of the text, once the scheme is known. */
  lemma RestRead(p: Parts)
    ensures var rest := Authority(p) + Show(p.path);
      var (path, authority) := Path(rest);
      var (user, password, hostport) := User(authority);
      p.host.Some? ==>
        ((path == p.path && user == p.user && password == p.password && Host(hostport).0 == p.host.value)
         <==> (&& (p.path.Some? ==> p.path.value != "" && p.path.value[0] == '/')
               && '/' !in Show(p.user) && '/' !in Show(p.password) && '/' !in p.host.value
               && UserOk(p) && HostOk(p.host.value, p.port)))
    ensures var rest := Authority(p) + Show(p.path);
      p.host.Some? && UserOk(p) && HostOk(p.host.value, p.port) && Path(rest).0 == p.path ==>
        Host(User(Path(rest).1).2) == (p.host.value, if p.port <= UINT32_MAX then p.port else 0)
  {
    hide Path, User, Host, UserInfo, HostPort, HostOk, UserOk, Index;
    var authority := Authority(p);
    var rest := authority + Show(p.path);
    if p.path.Some? {
      PathExactly(authority, p.path.value);
    } else {
      assert rest == authority;
      NoPath(authority);
    }
    if p.host.Some? && Path(rest).0 == p.path {
      assert Path(rest).1 == authority;
      if UserOk(p) {
        HostPortHas(p, '@');
        AuthoritySlash(p);
        UserNone(p);
        UserRead(p, HostPort(p));
        HostExactly(p);
      } else {
        UserLost(p);
      }
    } else if p.host.Some? && UserOk(p) {
      AuthoritySlash(p);
    }
  }

  lemma ParsedRest(s: string)
    ensures var (scheme, rest) := Scheme(s);
      if scheme.Some? && rest == "" then Parsed(s) == NO_PARTS.(scheme := scheme)
      else
        var (path, authority) := Path(rest);
        var (user, password, hostport) := User(authority);
        Parsed(s) == Parts(scheme, user, password, Some(Host(hostport).0), Host(hostport).1, path)
  {
  }

  lemma NoAuthority(p: Parts)
    ensures p.host == None && p == NO_PARTS.(scheme := p.scheme) ==> Authority(p) + Show(p.path) == ""
  {
  }

  lemma TextScheme(p: Parts)
    ensures var (scheme, rest) := Scheme(TextOf(p));
      && (scheme == p.scheme <==> if p.scheme.Some? then Index(p.scheme.value, "://") == NOT_FOUND
                                  else Index(Authority(p) + Show(p.path), "://") == NOT_FOUND)
      && (scheme == p.scheme ==> rest == Authority(p) + Show(p.path))
  {
    hide Scheme, Authority, Show, Index;
    var rest := Authority(p) + Show(p.path);
    if p.scheme.Some? {
      SchemeExactly(p.scheme.value, rest);
      assert TextOf(p) == p.scheme.value + "://" + rest;
    } else {
      NoScheme(rest);
      assert TextOf(p) == rest;
    }
  }

  /** Whichever of scheme and path a text has, it is taken apart into the parts it is made of exactly if they can be
      told apart, and the port fits 32 bits; past them only the port is lost. */
  lemma TextReadBack(p: Parts)
    ensures Parsed(TextOf(p)) == p <==> ToldApart(p) && p.port <= UINT32_MAX
    ensures ToldApart(p) ==> Parsed(TextOf(p)) == p.(port := if p.port <= UINT32_MAX then p.port else 0)
  {
    hide Scheme, Path, User, Host, Parsed, TextOf, Authority, UserOk, HostOk, Index;
    TextScheme(p);
    ParsedRest(TextOf(p));
    NoAuthority(p);
    RestRead(p);
    EmptyRest(p);
  }

  lemma EmptyRest(p: Parts)
    ensures Authority(p) + Show(p.path) == "" <==> Authority(p) == "" && Show(p.path) == ""
  {
  }

  /** The four shapes of text. */
  lemma FourShapes(p: Parts)
    requires p.port <= UINT32_MAX && p.scheme.Some? && p.path.Some? && ToldApart(p)
    ensures Parsed(p.scheme.value + "://" + Authority(p) + p.path.value) == p
    ensures Authority(p) != "" ==> Parsed(p.scheme.value + "://" + Authority(p)) == p.(path := None)
    ensures Index(Authority(p) + p.path.value, "://") == NOT_FOUND ==> Parsed(Authority(p) + p.path.value) == p.(scheme := None)
    ensures Parsed(p.scheme.value + "://") == NO_PARTS.(scheme := p.scheme)
  {
    hide Parsed, Index, HostOk, Authority;
    var pathless, schemeless, alone := p.(path := None), p.(scheme := None), NO_PARTS.(scheme := p.scheme);
    SameAuthority(p, pathless);
    SameAuthority(p, schemeless);
    TextReadBack(p);
    TextReadBack(pathless);
    TextReadBack(schemeless);
    TextReadBack(alone);
    NoAuthority(alone);
    var scheme, authority, path := p.scheme.value, Authority(p), p.path.value;
    assert scheme + "://" + (authority + path) == scheme + "://" + authority + path;
    assert scheme + "://" + (authority + "") == scheme + "://" + authority;
    assert "" + (authority + path) == authority + path;
    assert scheme + "://" + "" == scheme + "://";
  }

  lemma SameAuthority(p: Parts, q: Parts)
    requires p.user == q.user && p.password == q.password && p.host == q.host && p.port == q.port
    ensures Authority(q) == Authority(p) && (UserOk(q) <==> UserOk(p))
  {
  }

  /** "wired://u@localhost:2000" has a user, a host and a port, and no path. */
  lemma WithoutPath()
    ensures Parsed("wired://u@localhost:2000") == Parts(Some("wired"), Some("u"), None, Some("localhost"), 2000, None)
  {
    hide Parsed, ToldApart, TextOf;
    var p := Parts(Some("wired"), Some("u"), None, Some("localhost"), 2000, None);
    WithoutPathText(p);
    WithoutPathApart(p);
    TextReadBack(p);
  }

  lemma WithoutPathText(p: Parts)
    requires p == Parts(Some("wired"), Some("u"), None, Some("localhost"), 2000, None)
    ensures Authority(p) == "u@localhost:2000" && TextOf(p) == "wired://u@localhost:2000"
  {
    PortText();
    hide Decimal;
    assert UserInfo(p) == "u" + "" + "@" && HostPort(p) == "localhost" + (":" + "2000");
    assert Authority(p) == "u@" + "localhost:2000";
  }

  lemma WithoutPathApart(p: Parts)
    requires p == Parts(Some("wired"), Some("u"), None, Some("localhost"), 2000, None) && Authority(p) == "u@localhost:2000"
    ensures ToldApart(p)
  {
    hide Index, Authority;
    NoSchemeEndIn("wired");
    assert '@' !in "u" && "u"[..0] == "";
  }

  /** A host not in brackets that ends with a colon, or has two, is taken as it stands. */
  lemma ColonHostRead(before: string, after: string)
    requires (before == "" || before[0] != '[') && ':' !in before && (after == "" || ':' in after)
    ensures Host(before + ":" + after) == (before + ":" + after, 0)
  {
    hide Index, Unsigned;
    var s := before + ":" + after;
    assert s == before + [':'] + after;
    IndexOfChar(before, ':', after);
    assert s[|before| + 1..] == after;
  }

  /** What stands before the first at sign, a user that may be empty and a password that may not. */
  lemma UserShapes(user: string, password: string, rest: string)
    requires '@' !in user && ':' !in user && '@' !in password
    ensures User(user + "@" + rest) == (Some(user), None, rest)
    ensures User(user + ":" + password + "@" + rest)
         == if password == "" then (Some(user + ":"), None, rest) else (Some(user), Some(password), rest)
  {
    hide Index;
    UserAlone(user, rest);
    var info := user + ":" + password;
    var s := info + "@" + rest;
    assert s == info + ['@'] + rest && info == user + [':'] + password;
    IndexOfChar(info, '@', rest);
    IndexOfChar(user, ':', password);
    assert s[..|info|] == info && s[|info| + 1..] == rest;
    assert info[..|user|] == user && info[|user| + 1..] == password;
    assert password == "" ==> info == user + ":";
  }

  lemma UserAlone(user: string, rest: string)
    requires '@' !in user && ':' !in user
    ensures User(user + "@" + rest) == (Some(user), None, rest)
  {
    hide Index;
    var s := user + "@" + rest;
    assert s == user + ['@'] + rest;
    IndexOfChar(user, '@', rest);
    IndexOf(user, ':');
    assert s[..|user|] == user && s[|user| + 1..] == rest;
  }

  /** A printed URL with everything in it. */
  lemma PrintedText()
    ensures Printed(Parts(Some("wired"), Some("u"), Some("w"), Some("::1"), 2000, Some("/x"))) == "wired://u:w@[::1]:2000/x"
  {
    hide UserInfo, HostPort;
    var p := Parts(Some("wired"), Some("u"), Some("w"), Some("::1"), 2000, Some("/x"));
    PrintedUser(p);
    PrintedHost(p);
    assert Authority(p) == "u:w@" + "[::1]:2000";
    assert Printed(p) == "wired" + "://" + Authority(p) + "/x";
  }

  lemma PrintedUser(p: Parts)
    requires p.user == Some("u") && p.password == Some("w")
    ensures UserInfo(p) == "u:w@"
  {
    assert UserInfo(p) == "u" + (":" + "w") + "@";
  }

  lemma PrintedHost(p: Parts)
    requires p.host == Some("::1") && p.port == 2000
    ensures HostPort(p) == "[::1]:2000"
  {
    PortText();
    hide Decimal;
    assert "::1"[0] == ':';
    assert HostPort(p) == "[" + "::1" + "]" + (":" + "2000");
  }

  lemma PortText()
    ensures Decimal(2000) == "2000"
  {
    assert Decimal(2) == "2";
    assert Decimal(20) == "20";
    assert Decimal(200) == "200";
  }

  lemma NoSchemeEndIn(s: string)
    requires ':' !in s
    ensures Index(s, "://") == NOT_FOUND
  {
    hide Index;
    forall k: nat
      ensures !OccursAt(s, "://", k)
    {
      if k + 3 <= |s| {
        assert s[k..k + 3][0] == s[k];
      }
    }
    FirstUnique(s, "://", NOT_FOUND, Index(s, "://"));
  }
}
