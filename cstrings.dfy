/**
 * NUL-terminated character strings as the C library sees them: a Dafny
 * string stands for the characters of a buffer, and a C function reads it
 * only up to its first NUL.
 */
module CStrings {

  const NUL: char := 0 as char

  /** strlen (and strnlen without a bound): the characters before the first NUL. */
  function StrLen(s: string): (n: nat)
    ensures n <= |s|
    ensures forall i | 0 <= i < n :: s[i] != NUL
    ensures n < |s| ==> s[n] == NUL
  {
    if s == [] || s[0] == NUL then 0 else 1 + StrLen(s[1..])
  }

  /** The C string a buffer holds: everything before its first NUL. */
  function CStr(s: string): (r: string)
    ensures |r| <= |s| && r == s[..|r|]
    ensures NUL !in r
    ensures |r| < |s| ==> s[|r|] == NUL
  {
    s[..StrLen(s)]
  }

  /** strlen's scan, one character at a time. */
  method Length(s: string) returns (n: nat)
    ensures n == |CStr(s)|
  {
    n := 0;
    while n < |s| && s[n] != NUL
      invariant n <= |s|
      invariant forall i | 0 <= i < n :: s[i] != NUL
    {
      n := n + 1;
    }
    CStrUnique(s, n);
  }

  /** A prefix free of NUL and followed by NUL or the end is the C string. */
  lemma CStrUnique(s: string, n: nat)
    requires n <= |s|
    requires forall i | 0 <= i < n :: s[i] != NUL
    requires n < |s| ==> s[n] == NUL
    ensures CStr(s) == s[..n]
  {
  }

  /** A string without NUL is its own C string. */
  lemma CStrOfPlain(s: string)
    requires NUL !in s
    ensures CStr(s) == s
  {
    CStrUnique(s, |s|);
  }

  /** The C string of a concatenation ends inside a if a holds a NUL, and reads on into b otherwise. */
  lemma CStrAppend(a: string, b: string)
    ensures NUL in a ==> CStr(a + b) == CStr(a)
    ensures NUL !in a ==> CStr(a + b) == a + CStr(b)
  {
    var s := a + b;
    if NUL in a {
      var n := |CStr(a)|;
      assert n < |a|;
      CStrUnique(s, n);
      assert s[..n] == a[..n];
    } else {
      var n := |a| + |CStr(b)|;
      forall i | 0 <= i < n
        ensures s[i] != NUL
      {
        if i >= |a| {
          assert s[i] == CStr(b)[i - |a|];
        } else {
          assert s[i] == a[i];
        }
      }
      if n < |s| {
        assert s[n] == b[|CStr(b)|];
      }
      CStrUnique(s, n);
      assert s[..n] == a + CStr(b);
    }
  }
}
