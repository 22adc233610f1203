/**
 * Bytes, C strings and the byte order used by the secure buffer and the
 * marshaling layer.
 *
 * A QString is modelled by its UTF-8 encoding: the conversion QString <-> UTF-8
 * is treated as a bijection and is not itself modelled.
 */
module Bytes {

  type Byte = bv8

  /** A string value as it crosses the host/module boundary: its UTF-8 bytes. */
  type Text = seq<Byte>

  function Min(a: int, b: int): int { if a <= b then a else b }

  /** No byte of `s` is the terminator NUL. */
  predicate NulFree(s: Text)
  {
    forall i :: 0 <= i < |s| ==> s[i] != 0
  }

  /**
   * Strict lexicographic order on bytes compared as unsigned values, in which a
   * proper prefix comes first: the order memcmp gives over the common length,
   * with the shorter operand first when the common part is equal.
   */
  predicate Below(a: Text, b: Text)
  {
    if |a| == 0 then |b| > 0
    else if |b| == 0 then false
    else if a[0] != b[0] then a[0] < b[0]
    else Below(a[1..], b[1..])
  }

  lemma {:induction false} BelowIrreflexive(a: Text)
    ensures !Below(a, a)
  {
    if |a| > 0 {
      BelowIrreflexive(a[1..]);
    }
  }

  lemma {:induction false} BelowAsymmetric(a: Text, b: Text)
    requires Below(a, b)
    ensures !Below(b, a)
  {
    if |a| > 0 && |b| > 0 && a[0] == b[0] {
      BelowAsymmetric(a[1..], b[1..]);
    }
  }

  lemma {:induction false} BelowTransitive(a: Text, b: Text, c: Text)
    requires Below(a, b) && Below(b, c)
    ensures Below(a, c)
  {
    if |a| > 0 && |b| > 0 && |c| > 0 && a[0] == b[0] && b[0] == c[0] {
      BelowTransitive(a[1..], b[1..], c[1..]);
    }
  }

  lemma {:induction false} BelowTotal(a: Text, b: Text)
    ensures a == b || Below(a, b) || Below(b, a)
  {
    if |a| > 0 && |b| > 0 && a[0] == b[0] {
      BelowTotal(a[1..], b[1..]);
      if a[1..] == b[1..] {
        assert a == [a[0]] + a[1..] && b == [b[0]] + b[1..];
      }
    }
  }

  /**
   * memcmp over the first `n` bytes, reduced to its sign: negative, zero or
   * positive as the first differing byte of `a` is below, absent or above that
   * of `b`.
   */
  function MemCmp(a: Text, b: Text, n: nat): (r: int)
    requires n <= |a| && n <= |b|
    ensures r == 0 <==> a[..n] == b[..n]
    ensures r < 0 <==> Below(a[..n], b[..n])
  {
    if n == 0 then 0
    else if a[0] != b[0] then (if a[0] < b[0] then -1 else 1)
    else
      assert a[..n][1..] == a[1..][..n - 1] && b[..n][1..] == b[1..][..n - 1];
      assert a[..n] == [a[0]] + a[1..][..n - 1] && b[..n] == [b[0]] + b[1..][..n - 1];
      MemCmp(a[1..], b[1..], n - 1)
  }

  /**
   * Below decided as the secure buffer's operator< decides it: compare the
   * common length first, and only on a tie let the shorter operand come first.
   */
  lemma {:induction false} BelowByCommonPart(a: Text, b: Text)
    ensures var m := Min(|a|, |b|);
      Below(a, b) == if a[..m] != b[..m] then Below(a[..m], b[..m]) else |a| < |b|
  {
    var m := Min(|a|, |b|);
    if m > 0 {
      var m' := Min(|a| - 1, |b| - 1);
      BelowByCommonPart(a[1..], b[1..]);
      assert a[..m][1..] == a[1..][..m'] && b[..m][1..] == b[1..][..m'];
      if a[0] == b[0] {
        assert a[..m] == [a[0]] + a[1..][..m'] && b[..m] == [b[0]] + b[1..][..m'];
      }
    }
  }

  /**
   * strnlen: the number of bytes before the first NUL, reading no more than
   * `max` bytes. The memory must hold a NUL or at least `max` bytes, as the C
   * routine reads until one or the other.
   */
  function Strnlen(mem: Text, max: nat): (n: nat)
    requires 0 in mem || max <= |mem|
    ensures n <= max && n <= |mem|
    ensures NulFree(mem[..n])
    ensures n == max || (n < |mem| && mem[n] == 0)
  {
    if max == 0 || mem[0] == 0 then 0
    else
      assert 0 in mem ==> 0 in mem[1..] by {
        if 0 in mem { var k :| 0 <= k < |mem| && mem[k] == 0; assert mem[1..][k - 1] == 0; }
      }
      var n := 1 + Strnlen(mem[1..], max - 1);
      assert mem[..n] == [mem[0]] + mem[1..][..n - 1];
      n
  }

  /**
   * The text a `const char*` denotes when it is read as a NUL-terminated
   * string: the bytes before the first NUL.
   */
  function CString(mem: Text): (s: Text)
    requires 0 in mem
    ensures NulFree(s) && |s| < |mem| && mem[|s|] == 0
    ensures s == mem[..|s|]
  {
    mem[..Strnlen(mem, |mem|)]
  }

  /** The bytes strcpy copies from `s`: those before its first NUL, if any. */
  function UpToNul(s: Text): (r: Text)
    ensures NulFree(r) && |r| <= |s| && r == s[..|r|]
    ensures |r| < |s| ==> s[|r|] == 0
  {
    s[..Strnlen(s, |s|)]
  }

  /** Terminating a NUL-free text and reading it back as a C string gives it back. */
  lemma CStringOfTerminated(s: Text)
    requires NulFree(s)
    ensures 0 in s + [0] && CString(s + [0]) == s
  {
    var t := s + [0];
    assert t[|s|] == 0;
  }

  /**
   * A text terminated by one more NUL reads back as a C string as far as its
   * own first NUL: exactly what strcpy would have copied from it.
   */
  lemma CStringOfAppendedNul(s: Text)
    ensures 0 in s + [0] && CString(s + [0]) == UpToNul(s)
  {
    var t := s + [0];
    assert t[|s|] == 0;
    var a, b := CString(t), UpToNul(s);
    assert a == t[..|a|] == s[..|a|];
  }

  /** strcpy of a NUL-free text copies all of it. */
  lemma UpToNulOfNulFree(s: Text)
    requires NulFree(s)
    ensures UpToNul(s) == s
  {
  }
}
