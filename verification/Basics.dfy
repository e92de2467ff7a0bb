/** What the other modules share. */
module Basics {
  /** The address nothing has. */
  const NULL: int := -1

  datatype Option<T> = None | Some(value: T)

  function RemovedAt<T>(s: seq<T>, i: nat): seq<T>
    requires i < |s|
  {
    s[..i] + s[i + 1..]
  }

  lemma Associate<T>(a: seq<T>, b: seq<T>, c: seq<T>)
    ensures (a + b) + c == a + (b + c)
  {
  }
}
