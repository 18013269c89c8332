/**
  NUL-terminated byte strings as the kernel handles them, and the hand-written
  comparison routine `compare_strings` (kernel.cpp) that the command
  dispatcher uses in place of `strcmp`.
 */
module CStrings {

  /** An 8-bit C `char`. Its value as an `unsigned char` is `Code(c)`. */
  type Byte = c: char | c as int < 256 witness '\0'

  /** The string terminator. */
  const NUL: Byte := '\0'

  /** The value of a byte read through `unsigned char`. */
  function Code(c: Byte): nat
  {
    c as int
  }

  predicate NulFree(s: seq<Byte>)
  {
    NUL !in s
  }

  /** The C string stored at the start of `s`: the bytes before its first NUL. */
  function CString(s: seq<Byte>): (r: seq<Byte>)
    ensures r <= s
    ensures NulFree(r)
    ensures NUL in s <==> |r| < |s|
    ensures |r| < |s| ==> s[|r|] == NUL
  {
    if s == [] || s[0] == NUL then [] else [s[0]] + CString(s[1..])
  }

  /** A sequence that holds no NUL is its own C string once a terminator follows it. */
  lemma {:induction false} CStringOfTerminated(line: seq<Byte>, rest: seq<Byte>)
    requires NulFree(line)
    ensures CString(line + [NUL] + rest) == line
  {
    var s := line + [NUL] + rest;
    var r := CString(s);
    assert s[|line|] == NUL;
    assert |r| >= |line| by {
      if |r| < |line| { assert false; }
    }
    assert |r| <= |line| by {
      if |r| > |line| { assert false; }
    }
    assert r == s[..|r|] == line;
  }

  /** Byte `k` of the C string `a` followed by its terminator, which reads as 0. */
  function At(a: seq<Byte>, k: nat): nat
  {
    if k < |a| then Code(a[k]) else 0
  }

  /** The number of leading bytes the two strings share. */
  function CommonPrefix(a: seq<Byte>, b: seq<Byte>): (k: nat)
    ensures k <= |a| && k <= |b|
    ensures a[..k] == b[..k]
    ensures k < |a| && k < |b| ==> a[k] != b[k]
  {
    if a == [] || b == [] || a[0] != b[0] then 0 else 1 + CommonPrefix(a[1..], b[1..])
  }

  /**
    What `compare_strings` returns for two C strings `a` and `b`: at the first
    position where they differ, or where `a` ends, the difference of the two
    bytes read as unsigned, a terminator counting as 0.
   */
  function Compare(a: seq<Byte>, b: seq<Byte>): int
  {
    var k := CommonPrefix(a, b);
    At(a, k) - At(b, k)
  }

  /** Strict lexicographic order on byte strings, bytes compared as unsigned. */
  predicate LexLess(a: seq<Byte>, b: seq<Byte>)
    decreases |b|
  {
    b != [] &&
    (a == [] || Code(a[0]) < Code(b[0]) || (a[0] == b[0] && LexLess(a[1..], b[1..])))
  }

  /** The common prefix is the only length at which two strings agree and then part. */
  lemma {:induction false} CommonPrefixIs(a: seq<Byte>, b: seq<Byte>, k: nat)
    requires k <= |a| && k <= |b| && a[..k] == b[..k]
    requires k == |a| || k == |b| || a[k] != b[k]
    ensures CommonPrefix(a, b) == k
  {
    if k > 0 {
      assert a[0] == a[..k][0] == b[..k][0] == b[0];
      assert a[1..][..k - 1] == a[..k][1..] == b[..k][1..] == b[1..][..k - 1];
      CommonPrefixIs(a[1..], b[1..], k - 1);
    }
  }

  lemma {:induction false} CommonPrefixSymmetric(a: seq<Byte>, b: seq<Byte>)
    ensures CommonPrefix(a, b) == CommonPrefix(b, a)
  {
    if a != [] && b != [] && a[0] == b[0] {
      CommonPrefixSymmetric(a[1..], b[1..]);
    }
  }

  /** Swapping the arguments negates the result. */
  lemma CompareAntisymmetric(a: seq<Byte>, b: seq<Byte>)
    ensures Compare(a, b) == -Compare(b, a)
  {
    CommonPrefixSymmetric(a, b);
  }

  /** Two NUL-free strings compare as 0 exactly when they are equal. */
  lemma CompareZeroIff(a: seq<Byte>, b: seq<Byte>)
    requires NulFree(a) && NulFree(b)
    ensures Compare(a, b) == 0 <==> a == b
  {
    var k := CommonPrefix(a, b);
    if a == b {
      assert k == |a|;
    } else {
      if k < |a| && k < |b| {
        assert a[k] != b[k];
      } else if k == |a| && k < |b| {
        assert b[k] != NUL;
      } else if k < |a| && k == |b| {
        assert a[k] != NUL;
      }
    }
  }

  /** For NUL-free strings a negative result means `a` sorts strictly before `b`. */
  lemma {:induction false} CompareNegativeIff(a: seq<Byte>, b: seq<Byte>)
    requires NulFree(a) && NulFree(b)
    ensures Compare(a, b) < 0 <==> LexLess(a, b)
    decreases |b|
  {
    if a == [] || b == [] {
      assert b != [] ==> b[0] != NUL;
    } else if a[0] != b[0] {
    } else {
      assert NulFree(a[1..]) && NulFree(b[1..]) by {
        assert forall i :: 0 <= i < |a| - 1 ==> a[1..][i] == a[i + 1];
        assert forall i :: 0 <= i < |b| - 1 ==> b[1..][i] == b[i + 1];
      }
      CompareNegativeIff(a[1..], b[1..]);
      var k := CommonPrefix(a[1..], b[1..]);
      assert CommonPrefix(a, b) == k + 1;
      assert At(a, k + 1) == At(a[1..], k) && At(b, k + 1) == At(b[1..], k);
    }
  }

  /** The sign of the comparison of NUL-free strings is their lexicographic order. */
  lemma CompareOrders(a: seq<Byte>, b: seq<Byte>)
    requires NulFree(a) && NulFree(b)
    ensures Compare(a, b) == 0 <==> a == b
    ensures Compare(a, b) < 0 <==> LexLess(a, b)
    ensures Compare(a, b) > 0 <==> LexLess(b, a)
  {
    CompareZeroIff(a, b);
    CompareNegativeIff(a, b);
    CompareNegativeIff(b, a);
    CompareAntisymmetric(a, b);
  }

  /** `s` holds its first NUL at position `n`. */
  predicate TerminatedAt(s: seq<Byte>, n: nat)
  {
    n < |s| && s[n] == NUL && NulFree(s[..n])
  }

  /** A sequence holding a NUL has a first one, and its C string ends there. */
  lemma FirstNul(s: seq<Byte>) returns (n: nat)
    requires NUL in s
    ensures TerminatedAt(s, n)
  {
    n := |CString(s)|;
  }

  /** The C string of a sequence terminated at `n` is its first `n` bytes. */
  lemma CStringAt(s: seq<Byte>, n: nat)
    requires TerminatedAt(s, n)
    ensures CString(s) == s[..n]
  {
    assert s == s[..n] + [NUL] + s[n + 1..];
    CStringOfTerminated(s[..n], s[n + 1..]);
  }

  /**
    Where the scan of two C strings stops, at the end of the first or at the
    first difference, the comparison is the difference of the bytes reached.
   */
  lemma StopsAt(s1: seq<Byte>, s2: seq<Byte>, n1: nat, n2: nat, i: nat)
    requires TerminatedAt(s1, n1) && TerminatedAt(s2, n2)
    requires i <= n1 && i <= n2 && s1[..i] == s2[..i]
    requires s1[i] == NUL || s1[i] != s2[i]
    ensures CommonPrefix(CString(s1), CString(s2)) == i
    ensures Compare(CString(s1), CString(s2)) == Code(s1[i]) - Code(s2[i])
  {
    CStringAt(s1, n1);
    CStringAt(s2, n2);
    var a, b := s1[..n1], s2[..n2];
    assert a[..i] == s1[..i] && b[..i] == s2[..i];
    assert i == |a| || i == |b| || a[i] != b[i] by {
      if i < |a| && i < |b| {
        assert a[i] == s1[i] && b[i] == s2[i];
        assert s1[i] != NUL;
      }
    }
    CommonPrefixIs(a, b, i);
    assert At(a, i) == Code(s1[i]) && At(b, i) == Code(s2[i]) by {
      if i < |a| { assert a[i] == s1[i]; }
      if i < |b| { assert b[i] == s2[i]; }
    }
  }

  /**
    `compare_strings(s1, s2)`: walk both strings while `s1` has not ended and
    the bytes agree, then return the difference of the bytes reached, read as
    unsigned. Both arguments must hold a terminator, as C strings do.
   */
  method CompareStrings(s1: seq<Byte>, s2: seq<Byte>) returns (r: int)
    requires NUL in s1 && NUL in s2
    ensures r == Compare(CString(s1), CString(s2))
    ensures r == 0 <==> CString(s1) == CString(s2)
    ensures r < 0 <==> LexLess(CString(s1), CString(s2))
    ensures r > 0 <==> LexLess(CString(s2), CString(s1))
  {
    ghost var n1 := FirstNul(s1);
    ghost var n2 := FirstNul(s2);
    var i := 0;
    while s1[i] != NUL && s1[i] == s2[i]
      invariant i <= n1 && i <= n2
      invariant s1[..i] == s2[..i]
      decreases n1 - i
    {
      assert s1[..i + 1] == s1[..i] + [s1[i]];
      assert s2[..i + 1] == s2[..i] + [s2[i]];
      i := i + 1;
    }
    r := Code(s1[i]) - Code(s2[i]);
    StopsAt(s1, s2, n1, n2, i);
    CompareOrders(CString(s1), CString(s2));
  }
}
