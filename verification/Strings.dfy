/**
 * The byte and string loops of libc/string.c that the other components rest on.
 * A pointer is an array together with an index into it; one array element is the
 * unit that is moved (a byte everywhere except in page tables, where a whole
 * 32-bit entry is cleared at once).
 */
module Strings {

  type Byte = x: int | 0 <= x < 256

  /** The buffer `s` with the cells from `at` on replaced by `data`. */
  function Splice<T>(s: seq<T>, at: nat, data: seq<T>): (r: seq<T>)
    requires at + |data| <= |s|
    ensures |r| == |s|
  {
    s[..at] + data + s[at + |data|..]
  }

  /** Splicing, cell by cell: inside the range the new data, outside it the old cell. */
  lemma SpliceAt<T>(s: seq<T>, at: nat, data: seq<T>, k: nat)
    requires at + |data| <= |s| && k < |s|
    ensures Splice(s, at, data)[k] == if at <= k < at + |data| then data[k - at] else s[k]
  {
  }

  method Memset<T>(dest: array<T>, d: nat, ch: T, n: nat)
    requires d + n <= dest.Length
    modifies dest
    ensures dest[..] == Splice(old(dest[..]), d, seq(n, _ => ch))
  {
    var p, left := d, n;
    while left > 0
      invariant p + left == d + n && d <= p
      invariant forall k :: d <= k < p ==> dest[k] == ch
      invariant forall k :: 0 <= k < dest.Length && !(d <= k < p) ==> dest[k] == old(dest[k])
    {
      left := left - 1;
      dest[p] := ch;
      p := p + 1;
    }
  }

  /** ISO C leaves overlapping copies undefined, so the ranges do not overlap if they lie in one buffer. */
  method Memcpy<T>(dest: array<T>, d: nat, src: array<T>, s: nat, n: nat)
    requires dest != src || d + n <= s || s + n <= d
    requires d + n <= dest.Length && s + n <= src.Length
    modifies dest
    ensures dest[..] == Splice(old(dest[..]), d, old(src[s..s + n]))
  {
    var i := 0;
    while i < n
      invariant 0 <= i <= n
      invariant forall k :: d <= k < d + i ==> dest[k] == old(src[s + (k - d)])
      invariant forall k :: 0 <= k < dest.Length && !(d <= k < d + i) ==> dest[k] == old(dest[k])
    {
      dest[d + i] := src[s + i];
      i := i + 1;
    }
  }

  /** What two loop invariants together say: the cells of the range are new, the others are not. */
  lemma IsSplice<T>(was: seq<T>, now: seq<T>, d: nat, data: seq<T>)
    requires |now| == |was| && d + |data| <= |was|
    requires forall k :: d <= k < d + |data| ==> now[k] == data[k - d]
    requires forall k :: 0 <= k < |was| && !(d <= k < d + |data|) ==> now[k] == was[k]
    ensures now == Splice(was, d, data)
  {
    forall k | 0 <= k < |was| ensures now[k] == Splice(was, d, data)[k] {
      SpliceAt(was, d, data, k);
    }
  }

  /** The loop of `memmove` for a target below the source. */
  method CopyUp<T>(a: array<T>, d: nat, s: nat, n: nat)
    requires d < s && s + n <= a.Length
    modifies a
    ensures a[..] == Splice(old(a[..]), d, old(a[s..s + n]))
  {
    ghost var was := a[..];
    var i := 0;
    while i < n
      invariant 0 <= i <= n
      invariant forall k :: d <= k < d + i ==> a[k] == was[k - d + s]
      invariant forall k :: 0 <= k < a.Length && !(d <= k < d + i) ==> a[k] == was[k]
    {
      a[d + i] := a[s + i];
      i := i + 1;
    }
    IsSplice(was, a[..], d, was[s..s + n]);
  }

  /** The loop of `memmove` for a target above the source. */
  method CopyDown<T>(a: array<T>, d: nat, s: nat, n: nat)
    requires d > s && d + n <= a.Length
    modifies a
    ensures a[..] == Splice(old(a[..]), d, old(a[s..s + n]))
  {
    ghost var was := a[..];
    var left := n;
    while left > 0
      invariant 0 <= left <= n
      invariant forall k :: d + left <= k < d + n ==> a[k] == was[k - d + s]
      invariant forall k :: 0 <= k < a.Length && !(d + left <= k < d + n) ==> a[k] == was[k]
    {
      left := left - 1;
      a[d + left] := a[s + left];
    }
    IsSplice(was, a[..], d, was[s..s + n]);
  }

  /**
   * Both pointers lie in one buffer and the ranges may overlap. The result is as if
   * the source had first been copied elsewhere: it is read in the state before the call.
   */
  method Memmove<T>(a: array<T>, d: nat, s: nat, n: nat)
    requires d + n <= a.Length && s + n <= a.Length
    modifies a
    ensures a[..] == Splice(old(a[..]), d, old(a[s..s + n]))
  {
    if d < s {
      CopyUp(a, d, s, n);
    } else if d > s {
      CopyDown(a, d, s, n);
    }
  }

  /** The byte a C pointer reads at offset `i` of string `s`: the terminator ends every string. */
  function CharAt(s: string, i: nat): char
    requires i <= |s|
  {
    if i < |s| then s[i] else '\0'
  }

  predicate IsCString(s: string) {
    forall i :: 0 <= i < |s| ==> s[i] != '\0'
  }

  /** The number of bytes before the terminator of the string at the start of `buf`. */
  method Strlen(buf: array<Byte>) returns (n: nat)
    requires 0 in buf[..]
    ensures n < buf.Length && buf[n] == 0 && 0 !in buf[..n]
  {
    n := 0;
    ghost var end :| 0 <= end < buf.Length && buf[end] == 0;
    while buf[n] != 0
      invariant n <= end && 0 !in buf[..n]
      decreases end - n
    {
      n := n + 1;
    }
  }

  /** The order of a dictionary. */
  predicate Precedes(s: string, t: string) {
    t != "" && (s == "" || s[0] < t[0] || (s[0] == t[0] && Precedes(s[1..], t[1..])))
  }

  /** A zero result means the same string. The sign of any other is the reverse of what ISO C asks for. */
  method Strcmp(lhs: string, rhs: string) returns (diff: int)
    requires IsCString(lhs) && IsCString(rhs)
    ensures diff == 0 <==> lhs == rhs
    ensures diff > 0 <==> Precedes(lhs, rhs)
    ensures diff < 0 <==> Precedes(rhs, lhs)
  {
    var i := 0;
    while CharAt(lhs, i) != '\0' && CharAt(rhs, i) != '\0' && CharAt(lhs, i) == CharAt(rhs, i)
      invariant i <= |lhs| && i <= |rhs|
      invariant lhs[..i] == rhs[..i]
      invariant Precedes(lhs, rhs) == Precedes(lhs[i..], rhs[i..])
      invariant Precedes(rhs, lhs) == Precedes(rhs[i..], lhs[i..])
      decreases |lhs| - i
    {
      assert lhs[i..][1..] == lhs[i + 1..] && rhs[i..][1..] == rhs[i + 1..];
      i := i + 1;
    }
    diff := CharAt(rhs, i) as int - CharAt(lhs, i) as int;
    if diff == 0 {
      assert i == |lhs| == |rhs|;
      assert lhs[..i] == lhs && rhs[..i] == rhs;
    }
  }
}
