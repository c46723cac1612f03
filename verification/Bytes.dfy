/** Bytes, little-endian words, alignment and NUL-terminated strings: what the
    boot-information formats are made of. */
module Bytes {
  type byte = x: int | 0 <= x < 0x100
  type u16 = x: int | 0 <= x < 0x1_0000
  type u32 = x: int | 0 <= x < 0x1_0000_0000
  type u64 = x: int | 0 <= x < 0x1_0000_0000_0000_0000

  const TWO_32: int := 0x1_0000_0000
  const TWO_64: int := 0x1_0000_0000_0000_0000

  datatype Option<+T> = None | Some(value: T)

  /** `x as u32` and `x as u64` of a release build: the low bits. */
  function Low32(x: nat): (r: u32)
    ensures x < TWO_32 ==> r == x
  {
    if x < TWO_32 then x else x % TWO_32
  }

  function Low64(x: nat): (r: u64)
    ensures x < TWO_64 ==> r == x
  {
    if x < TWO_64 then x else x % TWO_64
  }

  lemma Low32Is(x: nat)
    ensures Low32(x) == x % 0x1_0000_0000
  {
  }

  lemma Low64Is(x: nat)
    ensures Low64(x) == x % 0x1_0000_0000_0000_0000
  {
  }

  function Min(a: int, b: int): int { if a < b then a else b }

  function Max(a: int, b: int): int { if a < b then b else a }

  /** `n` rounded up to a multiple of 8. */
  function Align8(n: nat): (r: nat)
    ensures n <= r < n + 8
  {
    if n == 0 then 0 else if n <= 8 then 8 else 8 + Align8(n - 8)
  }

  /** It is what `(n + 7) & !7` computes. */
  lemma {:induction false} Align8Masks(n: nat)
    ensures Align8(n) == (n + 7) / 8 * 8
  {
    if 8 < n {
      Align8Masks(n - 8);
    }
  }

  lemma {:induction false} Align8Shifts(pos: nat, n: nat)
    requires pos % 8 == 0
    ensures Align8(pos + n) == pos + Align8(n)
    decreases pos
  {
    if pos > 0 {
      Align8Shifts(pos - 8, n);
    }
  }

  lemma {:induction false} Align8Multiple(n: nat)
    ensures Align8(n) % 8 == 0
  {
    if 8 < n {
      Align8Multiple(n - 8);
    }
  }

  /** What starts 8-aligned and is rounded up to 8 ends 8-aligned, and inside any
      aligned bound its unrounded end is inside of. */
  lemma AlignFrom(pos: nat, n: nat, bound: nat)
    requires pos % 8 == 0 && bound % 8 == 0
    ensures Align8(pos + n) == pos + Align8(n)
    ensures (pos + Align8(n)) % 8 == 0
    ensures pos + n <= bound ==> pos + Align8(n) <= bound
  {
    hide Align8;
    Align8Shifts(pos, n);
    Align8Multiple(pos + n);
  }

  function Zeros(n: nat): (s: seq<byte>)
    ensures |s| == n && forall i :: 0 <= i < n ==> s[i] == 0
  {
    seq(n, _ => 0)
  }

  lemma ConcatAssociates(a: seq<byte>, b: seq<byte>, c: seq<byte>)
    ensures a + (b + c) == a + b + c
  {
  }

  lemma SliceOfSlice(b: seq<byte>, lo: nat, hi: nat, i: nat, j: nat)
    requires lo <= hi <= |b| && i <= j <= hi - lo
    ensures b[lo..hi][i..j] == b[lo + i..lo + j]
  {
    forall k | 0 <= k < j - i
      ensures b[lo..hi][i..j][k] == b[lo + i..lo + j][k]
    {
      assert b[lo..hi][i + k] == b[lo + (i + k)];
    }
  }

  lemma TimesStep(n: nat, k: nat)
    ensures n * (k + 1) == n * k + n
  {
  }

  lemma TimesMonotone(n: nat, i: int, k: int)
    requires i <= k
    ensures n * i <= n * k
  {
  }

  lemma TimesMinus(n: int, i: int, k: int)
    ensures n * (i - k) == n * i - n * k
  {
  }

  lemma ModuloIs(x: int, n: nat, q: int, r: int)
    requires 0 <= r < n && x == n * q + r
    ensures x % n == r
  {
    var p := x / n;
    assert x == n * p + x % n;
    TimesMinus(n, q, p);
    if p < q {
      TimesMonotone(n, 1, q - p);
    } else if q < p {
      TimesMonotone(n, q - p, -1);
    }
  }

  /** The bytes of each of `xs`, one after another. */
  function Flat<T>(bytesOf: T -> seq<byte>, xs: seq<T>): seq<byte>
  {
    if xs == [] then [] else bytesOf(xs[0]) + Flat(bytesOf, xs[1..])
  }

  lemma {:induction false} FlatSnoc<T>(bytesOf: T -> seq<byte>, xs: seq<T>, x: T)
    ensures Flat(bytesOf, xs + [x]) == Flat(bytesOf, xs) + bytesOf(x)
  {
    if xs == [] {
      assert [x][1..] == [];
    } else {
      FlatSnoc(bytesOf, xs[1..], x);
      assert (xs + [x])[1..] == xs[1..] + [x];
      ConcatAssociates(bytesOf(xs[0]), Flat(bytesOf, xs[1..]), bytesOf(x));
    }
  }

  lemma FlatPrefix<T>(bytesOf: T -> seq<byte>, xs: seq<T>, i: nat)
    requires i < |xs|
    ensures Flat(bytesOf, xs[..i + 1]) == Flat(bytesOf, xs[..i]) + bytesOf(xs[i])
  {
    assert xs[..i + 1] == xs[..i] + [xs[i]];
    FlatSnoc(bytesOf, xs[..i], xs[i]);
  }

  lemma {:induction false} FlatConcat<T>(bytesOf: T -> seq<byte>, xs: seq<T>, ys: seq<T>)
    ensures Flat(bytesOf, xs + ys) == Flat(bytesOf, xs) + Flat(bytesOf, ys)
  {
    if xs == [] {
      assert xs + ys == ys;
    } else {
      FlatConcat(bytesOf, xs[1..], ys);
      assert (xs + ys)[1..] == xs[1..] + ys;
      ConcatAssociates(bytesOf(xs[0]), Flat(bytesOf, xs[1..]), Flat(bytesOf, ys));
    }
  }

  lemma {:induction false} FlatLength<T>(bytesOf: T -> seq<byte>, xs: seq<T>, n: nat)
    requires forall x :: x in xs ==> |bytesOf(x)| == n
    ensures |Flat(bytesOf, xs)| == n * |xs|
  {
    if xs != [] {
      FlatLength(bytesOf, xs[1..], n);
      TimesStep(n, |xs| - 1);
    }
  }

  lemma {:induction false} FlatAt<T>(bytesOf: T -> seq<byte>, xs: seq<T>, n: nat, i: nat)
    requires forall x :: x in xs ==> |bytesOf(x)| == n
    requires i < |xs|
    ensures |Flat(bytesOf, xs)| == n * |xs| && n * i + n <= n * |xs|
    ensures Flat(bytesOf, xs)[n * i..n * i + n] == bytesOf(xs[i])
  {
    FlatLength(bytesOf, xs, n);
    TimesStep(n, i);
    TimesMonotone(n, i + 1, |xs|);
    if i > 0 {
      FlatAt(bytesOf, xs[1..], n, i - 1);
      TimesStep(n, i - 1);
      assert xs[1..][i - 1] == xs[i];
      var s, t := Flat(bytesOf, xs), Flat(bytesOf, xs[1..]);
      assert s[n..] == t;
      assert s[n..][n * (i - 1)..n * (i - 1) + n] == s[n * i..n * i + n];
    }
  }

  /* ---- little-endian words ---- */

  function Le16(v: u16): (s: seq<byte>)
    ensures |s| == 2
  {
    [v % 0x100, v / 0x100]
  }

  function Le32(v: u32): (s: seq<byte>)
    ensures |s| == 4
  {
    var w := v / 0x100;
    var x := w / 0x100;
    [v % 0x100, w % 0x100, x % 0x100, x / 0x100]
  }

  function Le64(v: u64): (s: seq<byte>)
    ensures |s| == 8
  {
    Le32(v % TWO_32) + Le32(v / TWO_32)
  }

  function U16At(b: seq<byte>, o: nat): u16
    requires o + 2 <= |b|
  {
    b[o] + 0x100 * (b[o + 1] as int)
  }

  function U32At(b: seq<byte>, o: nat): u32
    requires o + 4 <= |b|
  {
    U16At(b, o) + 0x1_0000 * (U16At(b, o + 2) as int)
  }

  function U64At(b: seq<byte>, o: nat): u64
    requires o + 8 <= |b|
  {
    U32At(b, o) + TWO_32 * (U32At(b, o + 4) as int)
  }

  /** A word read where it was written is the word that was written. */
  lemma ReadBack16(b: seq<byte>, o: nat, v: u16)
    requires o + 2 <= |b| && b[o..o + 2] == Le16(v)
    ensures U16At(b, o) == v
  {
    var s := b[o..o + 2];
    assert b[o] == s[0] && b[o + 1] == s[1];
  }

  lemma ReadBack32(b: seq<byte>, o: nat, v: u32)
    requires o + 4 <= |b| && b[o..o + 4] == Le32(v)
    ensures U32At(b, o) == v
  {
    var s := b[o..o + 4];
    assert b[o] == s[0] && b[o + 1] == s[1] && b[o + 2] == s[2] && b[o + 3] == s[3];
  }

  lemma ReadBack64(b: seq<byte>, o: nat, v: u64)
    requires o + 8 <= |b| && b[o..o + 8] == Le64(v)
    ensures U64At(b, o) == v
  {
    var s := b[o..o + 8];
    assert b[o..o + 4] == s[..4] == Le32(v % TWO_32);
    assert b[o + 4..o + 8] == s[4..] == Le32(v / TWO_32);
    ReadBack32(b, o, v % TWO_32);
    ReadBack32(b, o + 4, v / TWO_32);
  }

  /* ---- NUL-terminated strings ---- */

  predicate NoNul(s: seq<byte>) { forall i :: 0 <= i < |s| ==> s[i] != 0 }

  /** The offset of the first NUL at or after `o`, or the end if there is none. */
  function NulFrom(b: seq<byte>, o: nat): (k: nat)
    requires o <= |b|
    ensures o <= k <= |b|
    ensures NoNul(b[o..k])
    ensures k < |b| ==> b[k] == 0
    decreases |b| - o
  {
    if o == |b| || b[o] == 0 then o else NulFrom(b, o + 1)
  }

  /** What a reader following a pointer to offset `o` takes the string to be. */
  function CStr(b: seq<byte>, o: nat): (s: seq<byte>)
    requires o <= |b|
    ensures NoNul(s)
  {
    b[o..NulFrom(b, o)]
  }

  predicate Terminated(b: seq<byte>, o: nat)
  {
    o <= |b| && NulFrom(b, o) < |b|
  }

  /** A string written with its terminator reads back whole, whatever follows it. */
  lemma {:induction false} CStrReadsBack(b: seq<byte>, o: nat, s: seq<byte>)
    requires NoNul(s)
    requires o + |s| < |b| && b[o..o + |s|] == s && b[o + |s|] == 0
    ensures Terminated(b, o) && NulFrom(b, o) == o + |s| && CStr(b, o) == s
    decreases |s|
  {
    if s == [] {
      assert b[o] == 0;
    } else {
      assert b[o] == b[o..o + |s|][0] == s[0];
      assert b[o + 1..o + 1 + |s[1..]|] == b[o..o + |s|][1..];
      CStrReadsBack(b, o + 1, s[1..]);
    }
    assert NulFrom(b, o) == o + |s|;
  }

  /* ---- writing into a block ---- */

  /** `b` with `s` stored at `at`. */
  function Splice(b: seq<byte>, at: nat, s: seq<byte>): (r: seq<byte>)
    requires at + |s| <= |b|
    ensures |r| == |b|
    ensures r[at..at + |s|] == s
    ensures forall k :: 0 <= k < |b| && !(at <= k < at + |s|) ==> r[k] == b[k]
  {
    b[..at] + s + b[at + |s|..]
  }

  method Store(a: array<byte>, at: nat, s: seq<byte>)
    requires at + |s| <= a.Length
    modifies a
    ensures a[..] == Splice(old(a[..]), at, s)
  {
    for i := 0 to |s|
      invariant forall k :: 0 <= k < i ==> a[at + k] == s[k]
      invariant forall k :: 0 <= k < a.Length && !(at <= k < at + i) ==> a[k] == old(a[k])
    {
      a[at + i] := s[i];
    }
    assert a[at..at + |s|] == s;
  }

  method Write32(a: array<byte>, at: nat, v: u32)
    requires at + 4 <= a.Length
    modifies a
    ensures a[..] == Splice(old(a[..]), at, Le32(v))
  {
    Store(a, at, Le32(v));
  }

  method Write64(a: array<byte>, at: nat, v: u64)
    requires at + 8 <= a.Length
    modifies a
    ensures a[..] == Splice(old(a[..]), at, Le64(v))
  {
    Store(a, at, Le64(v));
  }

  method Clear(a: array<byte>)
    modifies a
    ensures a[..] == Zeros(a.Length)
  {
    for i := 0 to a.Length
      invariant forall k :: 0 <= k < i ==> a[k] == 0
    {
      a[i] := 0;
    }
  }

  /** `b` is `p` followed by nothing but zeros. */
  ghost predicate Holds(b: seq<byte>, p: seq<byte>)
  {
    |p| <= |b| && b == p + Zeros(|b| - |p|)
  }

  lemma HoldsAppend(b: seq<byte>, p: seq<byte>, s: seq<byte>)
    requires Holds(b, p) && |p| + |s| <= |b|
    ensures Holds(Splice(b, |p|, s), p + s)
  {
  }

  /** Stepping over bytes that are still zero. */
  lemma HoldsSkip(b: seq<byte>, p: seq<byte>, n: nat)
    requires Holds(b, p) && |p| + n <= |b|
    ensures Holds(b, p + Zeros(n))
  {
  }

  /** Filling in a placeholder once what it counts is known. */
  lemma HoldsPatch(b: seq<byte>, p: seq<byte>, q: seq<byte>, r: seq<byte>, s: seq<byte>)
    requires Holds(b, p + q + r) && |s| == |q|
    ensures Holds(Splice(b, |p|, s), p + s + r)
  {
  }

  /* Writing on from where the written part of a block ends. */

  method Put(a: array<byte>, at: nat, s: seq<byte>, ghost p: seq<byte>)
    requires Holds(a[..], p) && at == |p| && at + |s| <= a.Length
    modifies a
    ensures Holds(a[..], p + s)
  {
    HoldsAppend(a[..], p, s);
    Store(a, at, s);
  }

  method Put32(a: array<byte>, at: nat, v: u32, ghost p: seq<byte>)
    requires Holds(a[..], p) && at == |p| && at + 4 <= a.Length
    modifies a
    ensures Holds(a[..], p + Le32(v))
  {
    HoldsAppend(a[..], p, Le32(v));
    Write32(a, at, v);
  }

  method Put64(a: array<byte>, at: nat, v: u64, ghost p: seq<byte>)
    requires Holds(a[..], p) && at == |p| && at + 8 <= a.Length
    modifies a
    ensures Holds(a[..], p + Le64(v))
  {
    HoldsAppend(a[..], p, Le64(v));
    Write64(a, at, v);
  }

  method Patch32(a: array<byte>, at: nat, v: u32, ghost p: seq<byte>, ghost q: seq<byte>, ghost r: seq<byte>)
    requires Holds(a[..], p + q + r) && at == |p| && |q| == 4
    modifies a
    ensures Holds(a[..], p + Le32(v) + r)
  {
    HoldsPatch(a[..], p, q, r, Le32(v));
    Write32(a, at, v);
  }
}
