/** Types and facts about sequences that several of the models share. */
module Wrappers {

  datatype Option<T> = None | Some(value: T)

  newtype byte = x: int | 0 <= x < 256

  lemma Associate<T>(a: seq<T>, b: seq<T>, c: seq<T>)
    ensures (a + b) + c == a + (b + c)
  {}

  lemma SplitSlice<T>(s: seq<T>, a: nat, b: nat, c: nat)
    requires a <= b <= c <= |s|
    ensures s[a..c] == s[a..b] + s[b..c]
  {}

  lemma ToTheEnd<T>(s: seq<T>, a: nat)
    requires a <= |s|
    ensures s[a..|s|] == s[a..]
  {}
}
