/** The end of what was read. */
module Sequences {
  ghost predicate EndsWith<T>(s: seq<T>, t: seq<T>) {
    |t| <= |s| && s[|s| - |t|..] == t
  }

  lemma EndsWithNothing<T>(s: seq<T>)
    ensures EndsWith(s, [])
  {
  }
}
