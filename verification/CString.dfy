/**
 Strings as the kernel sees them: characters in memory up to the first NUL.

 A `char` stands for one byte.  Memory that is only read is a sequence starting at
 the pointer; memory that is written is an array.
 */
module CString {

  const NUL: char := '\0'

  datatype Option<+T> = None | Some(value: T)

  /** Index of the first NUL at or after i, or the end of memory if there is none. */
  function StrEnd(m: seq<char>, i: nat): (z: nat)
    requires i <= |m|
    ensures i <= z <= |m|
    ensures forall k :: i <= k < z ==> m[k] != NUL
    ensures z < |m| ==> m[z] == NUL
    decreases |m| - i
  {
    if i == |m| || m[i] == NUL then i else StrEnd(m, i + 1)
  }

  /** There is a string at i: its NUL is inside the memory. */
  predicate Terminated(m: seq<char>, i: nat) {
    i <= |m| && StrEnd(m, i) < |m|
  }

  /** The string at i, without its NUL. */
  function Text(m: seq<char>, i: nat): string
    requires i <= |m|
  {
    m[i..StrEnd(m, i)]
  }

  ghost predicate NulFree(s: seq<char>) {
    forall k :: 0 <= k < |s| ==> s[k] != NUL
  }

  /** A run of spaces; none if n is negative. */
  function Spaces(n: int): (r: string)
    ensures |r| == (if n < 0 then 0 else n) && forall i :: 0 <= i < |r| ==> r[i] == ' '
  {
    seq(if n < 0 then 0 else n, i => ' ')
  }

  /** The first NUL is where it is found. */
  lemma {:induction false} StrEndIs(m: seq<char>, i: nat, z: nat)
    requires i <= z < |m| && m[z] == NUL
    requires forall k :: i <= k < z ==> m[k] != NUL
    ensures StrEnd(m, i) == z && Terminated(m, i)
    decreases z - i
  {
    if i < z {
      StrEndIs(m, i + 1, z);
    }
  }

  /** A buffer that starts with s and then a NUL holds the string s. */
  lemma TextInFront(m: seq<char>, s: string)
    requires |s| < |m| && m[..|s|] == s && m[|s|] == NUL && NulFree(s)
    ensures Terminated(m, 0) && Text(m, 0) == s
  {
    forall k | 0 <= k < |s| ensures m[k] != NUL {
      assert m[k] == m[..|s|][k];
    }
    StrEndIs(m, 0, |s|);
  }

  // ------------------------------------------------------------------ comparing

  /**
   gramado_strncmp on the memory behind two pointers: 0 only if the first n characters
   agree and both strings end right after them.  NULs among the first n are compared
   like any other character.
   */
  function Strncmp(s1: seq<char>, s2: seq<char>, n: nat): int
    requires Comparable(s1, s2, n)
    decreases n
  {
    if n == 0 then (if s1[0] != NUL || s2[0] != NUL then 2 else 0)
    else if s1[0] != s2[0] then 1
    else Strncmp(s1[1..], s2[1..], n - 1)
  }

  /** The comparison stops inside both memories: at a difference, or just after n characters. */
  predicate Comparable(s1: seq<char>, s2: seq<char>, n: nat)
    decreases n
  {
    && |s1| > 0 && |s2| > 0
    && (n > 0 && s1[0] == s2[0] ==> Comparable(s1[1..], s2[1..], n - 1))
  }

  lemma {:induction false} ComparableIfLong(s1: seq<char>, s2: seq<char>, n: nat)
    requires |s1| > n && |s2| > n
    ensures Comparable(s1, s2, n)
    decreases n
  {
    if n > 0 {
      ComparableIfLong(s1[1..], s2[1..], n - 1);
    }
  }

  lemma {:induction false} StrncmpIff(s1: seq<char>, s2: seq<char>, n: nat)
    requires |s1| > n && |s2| > n
    ensures Comparable(s1, s2, n)
    ensures Strncmp(s1, s2, n) == 0 <==> s1[..n] == s2[..n] && s1[n] == s2[n] == NUL
    decreases n
  {
    ComparableIfLong(s1, s2, n);
    if n > 0 {
      StrncmpIff(s1[1..], s2[1..], n - 1);
      SameFront(s1, s2, n);
    }
  }

  lemma SameFront(s1: seq<char>, s2: seq<char>, n: nat)
    requires 0 < n <= |s1| && n <= |s2|
    ensures s1[..n] == s2[..n] <==> s1[0] == s2[0] && s1[1..][..n - 1] == s2[1..][..n - 1]
  {
    assert s1[..n] == [s1[0]] + s1[1..][..n - 1];
    assert s2[..n] == [s2[0]] + s2[1..][..n - 1];
  }

  /** Against a literal of n characters the comparison is exact string equality, and always stays in bounds. */
  lemma {:induction false} StrncmpLiteral(m: seq<char>, literal: string)
    requires NulFree(literal) && Terminated(m, 0)
    ensures Comparable(m, literal + [NUL], |literal|)
    ensures Strncmp(m, literal + [NUL], |literal|) == 0 <==> Text(m, 0) == literal
    decreases |literal|
  {
    var l := literal + [NUL];
    if literal == [] {
      assert Text(m, 0) == [] <==> m[0] == NUL;
    } else if m[0] == literal[0] {
      StrEndIs(m[1..], 0, StrEnd(m, 0) - 1);
      assert Text(m, 0) == [m[0]] + Text(m[1..], 0);
      assert l[1..] == literal[1..] + [NUL];
      StrncmpLiteral(m[1..], literal[1..]);
      assert literal == [literal[0]] + literal[1..];
    } else {
      assert l[0] == literal[0];
      assert Text(m, 0) != [] ==> Text(m, 0)[0] == m[0];
    }
  }

  method GramadoStrncmp(s1: seq<char>, s2: seq<char>, len: nat) returns (r: int)
    requires Comparable(s1, s2, len)
    ensures r == Strncmp(s1, s2, len)
  {
    var n, i := len, 0;
    while n > 0
      invariant 0 <= n && i + n == len
      invariant i <= |s1| && i <= |s2|
      invariant Comparable(s1[i..], s2[i..], n)
      invariant Strncmp(s1, s2, len) == Strncmp(s1[i..], s2[i..], n)
    {
      assert s1[i..][1..] == s1[i + 1..] && s2[i..][1..] == s2[i + 1..];
      n := n - 1;
      if s1[i] != s2[i] {
        return 1;
      }
      i := i + 1;
    }
    if s1[i] != NUL || s2[i] != NUL {
      return 2;
    }
    return 0;
  }

  method Strlen(a: array<char>) returns (n: nat)
    requires Terminated(a[..], 0)
    ensures n == |Text(a[..], 0)|
  {
    n := 0;
    while a[n] != NUL
      invariant 0 <= n <= StrEnd(a[..], 0)
      decreases a.Length - n
    {
      n := n + 1;
    }
    StrEndIs(a[..], 0, n);
  }

  // ------------------------------------------------------------------ appending

  /** Memory after copying a string and its NUL to position at. */
  function Pasted(m: seq<char>, at: nat, s: string): seq<char>
    requires at + |s| < |m|
  {
    m[..at] + s + [NUL] + m[at + |s| + 1..]
  }

  /** strcpy from a separate string to the middle of a buffer. */
  method Strcpy(a: array<char>, at: nat, from: string)
    requires at + |from| < a.Length && NulFree(from)
    modifies a
    ensures a[..] == Pasted(old(a[..]), at, from)
  {
    var i := 0;
    while i < |from|
      invariant 0 <= i <= |from|
      invariant forall k :: at <= k < at + i ==> a[k] == from[k - at]
      invariant forall k :: 0 <= k < at || at + i <= k < a.Length ==> a[k] == old(a[k])
    {
      a[at + i] := from[i];
      i := i + 1;
    }
    a[at + i] := NUL;
    assert a[at..at + |from|] == from;
    assert a[..] == a[..at] + a[at..at + |from|] + [a[at + |from|]] + a[at + |from| + 1..];
    assert a[..at] == old(a[..])[..at] && a[at + |from| + 1..] == old(a[..])[at + |from| + 1..];
  }

  /** strcat: the string in the buffer grows by the other one. */
  method Strcat(a: array<char>, from: string)
    requires NulFree(from) && Terminated(a[..], 0)
    requires |Text(a[..], 0)| + |from| < a.Length
    modifies a
    ensures Terminated(a[..], 0)
    ensures Text(a[..], 0) == old(Text(a[..], 0)) + from
  {
    var to := 0;
    while a[to] != NUL
      invariant 0 <= to <= StrEnd(a[..], 0)
      invariant a[..] == old(a[..])
      decreases a.Length - to
    {
      to := to + 1;
    }
    StrEndIs(a[..], 0, to);
    Strcpy(a, to, from);
    assert a[..] == old(a[..])[..to] + from + [NUL] + old(a[..])[to + |from| + 1..];
    StrEndIs(a[..], 0, to + |from|);
    assert a[..][0..to + |from|] == old(a[..])[..to] + from;
  }
}
