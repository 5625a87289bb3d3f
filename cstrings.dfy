/** C strings: the characters a NUL-terminated buffer holds before its first NUL. */
module CStrings {

  /** What strlen, strcmp and "%s" see of `s`: everything before the first `nul`. */
  function UntilNul<T(==)>(s: seq<T>, nul: T): (r: seq<T>)
    ensures r <= s
    ensures nul !in r
    ensures |r| < |s| ==> s[|r|] == nul
  {
    if s == [] || s[0] == nul then [] else [s[0]] + UntilNul(s[1..], nul)
  }

  /** A buffer holding `s`, a NUL and anything after it reads back as `s`. */
  lemma {:induction false} UntilNulOfTerminated<T>(s: seq<T>, nul: T, rest: seq<T>)
    requires nul !in s
    ensures UntilNul(s + [nul] + rest, nul) == s
  {
    if s != [] {
      assert (s + [nul] + rest)[1..] == s[1..] + [nul] + rest;
      UntilNulOfTerminated(s[1..], nul, rest);
    }
  }

  /** A string without NUL is its own C string. */
  lemma UntilNulOfPlain<T>(s: seq<T>, nul: T)
    requires nul !in s
    ensures UntilNul(s, nul) == s
  {
  }
}
