/** Values that may be missing, and C strings in blocks of bytes. */
module Basics {

  datatype Option<+T> = None | Some(value: T)

  /** What C sees of a block: the bytes before the first NUL. */
  function CString(s: string): (t: string)
    ensures |t| <= |s| && t == s[..|t|] && '\0' !in t
    ensures |t| < |s| ==> s[|t|] == '\0'
  {
    if s == [] || s[0] == '\0' then [] else [s[0]] + CString(s[1..])
  }

  lemma {:induction false} CStringIs(s: string, n: nat)
    requires n < |s| && s[n] == '\0' && '\0' !in s[..n]
    ensures CString(s) == s[..n]
  {
    if n > 0 {
      assert s[0] == s[..n][0];
      assert s[..n][1..] == s[1..][..n - 1];
      CStringIs(s[1..], n - 1);
    }
  }
}
