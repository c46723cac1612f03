/** The machine under the loader, as far as its firmware lets the loader see it:
    pages that may be asked for, and physical memory. */
module Machine {
  import opened Bytes

  const PAGE: nat := 4096
  /** Pages in a 64-bit address space. */
  const PAGES: nat := 0x10_0000_0000_0000

  /** `count` numbers from `first` on: pages, or addresses. */
  function Run(first: nat, count: nat): (r: set<nat>)
    ensures forall p :: p in r <==> first <= p < first + count
  {
    if count == 0 then {} else Run(first, count - 1) + {first + count - 1}
  }

  /** Memory `m` with `s` stored from address `at` on. */
  function Stored(m: map<nat, byte>, at: nat, s: seq<byte>): map<nat, byte>
  {
    m + map a | a in Run(at, |s|) :: s[a - at]
  }

  lemma StoredNothing(m: map<nat, byte>, at: nat, s: seq<byte>)
    requires s == []
    ensures Stored(m, at, s) == m
  {
  }

  lemma StoredOne(m: map<nat, byte>, at: nat, s: seq<byte>, i: nat)
    requires i < |s|
    ensures Stored(m, at, s[..i])[at + i := s[i]] == Stored(m, at, s[..i + 1])
  {
    hide Run;
  }

  predicate ByteIs(m: map<nat, byte>, a: nat, v: byte) { a in m && m[a] == v }

  /** The bytes `s` lie in memory at `at`. */
  ghost predicate Lies(m: map<nat, byte>, at: nat, s: seq<byte>)
  {
    forall i :: 0 <= i < |s| ==> ByteIs(m, at + i, s[i])
  }

  lemma LiesAt(m: map<nat, byte>, a: nat, s: seq<byte>, i: nat)
    requires Lies(m, a, s) && i < |s|
    ensures a + i in m && m[a + i] == s[i]
  {
    assert ByteIs(m, a + i, s[i]);
  }

  lemma StoredLies(m: map<nat, byte>, at: nat, s: seq<byte>)
    ensures Lies(Stored(m, at, s), at, s)
  {
  }

  lemma LiesSpliced(m: map<nat, byte>, a: nat, s: seq<byte>, o: nat, t: seq<byte>)
    requires Lies(m, a, s) && o + |t| <= |s|
    ensures Lies(Stored(m, a + o, t), a, Splice(s, o, t))
  {
    hide Run;
    forall i | 0 <= i < |s|
      ensures ByteIs(Stored(m, a + o, t), a + i, Splice(s, o, t)[i])
    {
      if o <= i < o + |t| {
        assert Splice(s, o, t)[o..o + |t|][i - o] == t[i - o];
      } else {
        assert ByteIs(m, a + i, s[i]) && a + i !in Run(a + o, |t|) && Splice(s, o, t)[i] == s[i];
      }
    }
  }

  /* ---- pages ---- */

  /** Pages granted in one piece. */
  datatype Block = Block(first: nat, pages: nat)
  {
    function Set(): set<nat> { Run(first, pages) }

    /** `n` bytes from address `a` on lie inside. */
    predicate Covers(a: nat, n: nat) { PAGE * first <= a && a + n <= PAGE * (first + pages) }

    /** The whole block lies below 4 GiB, and not at address zero. */
    predicate Low() { 0 < first && PAGE * (first + pages) <= TWO_32 }
  }

  const NO_BLOCK: Block := Block(0, 0)

  /** Pages below 4 GiB. */
  const LOW_PAGES: nat := 0x10_0000

  /** As many pages as so many bytes need, and no more. */
  function PagesFor(bytes: nat): (pages: nat)
    ensures bytes <= 4096 * pages < bytes + 4096
  {
    (bytes + 4095) / PAGE
  }

  /** No run of so many pages is free below 4 GiB. */
  ghost predicate NoRun(free: set<nat>, pages: nat)
  {
    forall first :: 0 < first <= LOW_PAGES - pages ==> !(Run(first, pages) <= free)
  }

  predicate Apart(a: nat, n: nat, b: nat, m: nat) { a + n <= b || b + m <= a }

  /** No byte of the one is a byte of the other. */
  lemma ApartShareNothing(a: nat, n: nat, b: nat, m: nat, x: nat)
    requires Apart(a, n, b, m) && a <= x < a + n
    ensures !(b <= x < b + m)
  {
  }

  lemma BlocksApart(x: Block, y: Block, a: nat, n: nat, b: nat, m: nat)
    requires x.Set() !! y.Set() && x.pages > 0 && y.pages > 0 && x.Covers(a, n) && y.Covers(b, m)
    ensures Apart(a, n, b, m)
  {
    assert x.first in x.Set() && y.first in y.Set();
  }

  /* ---- what a write leaves alone ---- */

  function PageOf(a: nat): nat { a / PAGE }

  predicate Same(m: map<nat, byte>, m': map<nat, byte>, a: nat)
  {
    if a in m then ByteIs(m', a, m[a]) else a !in m'
  }

  /** Nothing differs but what lies in these pages. */
  ghost predicate OnlyIn(m: map<nat, byte>, m': map<nat, byte>, pages: set<nat>)
  {
    forall a: nat :: PageOf(a) in pages || Same(m, m', a)
  }

  lemma NothingChanged(m: map<nat, byte>, pages: set<nat>)
    ensures OnlyIn(m, m, pages)
  {
  }

  lemma StoredOnlyIn(m: map<nat, byte>, at: nat, s: seq<byte>, block: Block)
    requires block.Covers(at, |s|)
    ensures OnlyIn(m, Stored(m, at, s), block.Set())
  {
    hide Run, PageOf;
    forall a: nat | PageOf(a) !in block.Set()
      ensures Same(m, Stored(m, at, s), a)
    {
      if a in Run(at, |s|) {
        CoveredPage(block, a);
      }
    }
  }

  lemma CoveredPage(block: Block, a: nat)
    requires block.Covers(a, 1)
    ensures PageOf(a) in block.Set()
  {
  }

  lemma OnlyInTwice(m: map<nat, byte>, m': map<nat, byte>, m'': map<nat, byte>, p: set<nat>, q: set<nat>)
    requires OnlyIn(m, m', p) && OnlyIn(m', m'', q)
    ensures OnlyIn(m, m'', p + q)
    ensures p == q ==> OnlyIn(m, m'', p)
  {
    hide PageOf;
    forall a: nat | PageOf(a) !in p + q
      ensures Same(m, m'', a)
    {
      assert Same(m, m', a) && Same(m', m'', a);
    }
    assert p == q ==> p + q == p;
  }

  /** What lies in a block stays there while only other pages change. */
  lemma LiesKept(m: map<nat, byte>, m': map<nat, byte>, pages: set<nat>, block: Block, at: nat, s: seq<byte>)
    requires OnlyIn(m, m', pages) && block.Set() !! pages && block.Covers(at, |s|) && Lies(m, at, s)
    ensures Lies(m', at, s)
  {
    hide PageOf, Run;
    forall i | 0 <= i < |s|
      ensures ByteIs(m', at + i, s[i])
    {
      CoveredPage(block, at + i);
      assert ByteIs(m, at + i, s[i]) && Same(m, m', at + i);
    }
  }

  class Firmware {
    /** Page numbers nobody has been given yet. */
    var free: set<nat>
    var mem: map<nat, byte>

    constructor (free: set<nat>, mem: map<nat, byte>)
      ensures this.free == free && this.mem == mem
    {
      this.free, this.mem := free, mem;
    }

    /** `AllocateType::Address`: these very pages, or a refusal. */
    method AllocateAt(first: nat, count: nat) returns (ok: bool)
      modifies this`free
      ensures ok <==> Run(first, count) <= old(free)
      ensures free == if ok then old(free) - Run(first, count) else old(free)
    {
      ok := forall p | first <= p < first + count :: p in free;
      if ok {
        free := free - Run(first, count);
      }
    }

    /** `AllocateType::MaxAddress` at 4 GiB: some pages below it, which ones is the
        firmware's choice; a refusal, and no block, only if there are none. Page 0
        is never handed out. */
    method AllocateLow(count: nat) returns (r: Option<nat>, ghost block: Block)
      requires count > 0
      modifies this`free
      ensures block.Set() <= old(free) && free == old(free) - block.Set()
      ensures r.Some? ==> r.value == PAGE * block.first && block.pages == count && block.Low()
      ensures r.None? ==> block == NO_BLOCK
      ensures r.None? <==> NoRun(old(free), count)
    {
      if exists p :: 0 < p <= LOW_PAGES - count && Run(p, count) <= free {
        var first: nat :| 0 < first <= LOW_PAGES - count && Run(first, count) <= free;
        free := free - Run(first, count);
        return Some(PAGE * first), Block(first, count);
      }
      r, block := None, NO_BLOCK;
    }

    /** `copy_nonoverlapping` to physical memory. */
    method CopyTo(at: nat, s: seq<byte>)
      modifies this`mem
      ensures mem == Stored(old(mem), at, s)
    {
      hide Stored;
      StoredNothing(mem, at, s[..0]);
      for i := 0 to |s|
        invariant mem == Stored(old(mem), at, s[..i])
      {
        StoredOne(old(mem), at, s, i);
        mem := mem[at + i := s[i]];
      }
      assert s[..|s|] == s;
    }

    /** `write_bytes` of zeros to physical memory. */
    method Clear(at: nat, n: nat)
      modifies this`mem
      ensures mem == Stored(old(mem), at, Zeros(n))
    {
      CopyTo(at, Zeros(n));
    }
  }
}
