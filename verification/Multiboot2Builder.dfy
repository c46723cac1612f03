/** `build_mb2_info`: what goes into a Multiboot2 structure, the code that writes
    it, and what a reader of the result recovers. */
module Multiboot2Builder {
  import opened Bytes
  import opened MemoryMap
  import opened Multiboot2
  import opened Names

  /** Everything the builder is given. */
  datatype Facts = Facts(memory: seq<Descriptor>, fb: Option<FbInfo>, modules: seq<Named>, rsdp: Option<Rsdp>)
  {
    predicate Valid() {
      forall i :: 0 <= i < |modules| ==> NoNul(modules[i].name)
    }
  }

  /* ---- which tags fit ---- */

  const MMAP_MAX: nat := (INFO_SIZE - 24) / MMAP_ENTRY

  function MmapCount(memory: seq<Descriptor>): nat { Min(|memory|, MMAP_MAX) }

  function MmapTag(memory: seq<Descriptor>): Tag
  {
    Mmap(Regions(memory[..MmapCount(memory)]))
  }

  /** Where the memory-map tag stops. */
  function MmapEnd(memory: seq<Descriptor>): nat { 8 + Align8(16 + MMAP_ENTRY * MmapCount(memory)) }

  function ModuleTag(m: Named): Tag
  {
    Module(Low32(m.start), Low32(m.start + m.size), m.name)
  }

  function ModuleTags(modules: seq<Named>): (tags: seq<Tag>)
    ensures |tags| == |modules| && forall i :: 0 <= i < |tags| ==> tags[i] == ModuleTag(modules[i])
  {
    seq(|modules|, i requires 0 <= i < |modules| => ModuleTag(modules[i]))
  }

  function ModuleSize(m: Named): nat { 17 + |m.name| }

  /** Where the first `k` module tags stop, the first of them lying at `pos`. */
  function ModulesEnd(modules: seq<Named>, k: nat, pos: nat): (end: nat)
    requires k <= |modules|
    ensures pos <= end
  {
    if k == 0 then pos else ModulesEnd(modules, k - 1, pos) + Align8(ModuleSize(modules[k - 1]))
  }

  /** How many module tags are written from the `k`th on, before the first that
      does not fit. */
  function ModulesFrom(modules: seq<Named>, k: nat, pos: nat): (n: nat)
    requires k <= |modules|
    ensures k + n <= |modules|
    decreases |modules| - k
  {
    if k == |modules| || INFO_SIZE < pos + ModuleSize(modules[k]) then 0
    else 1 + ModulesFrom(modules, k + 1, pos + Align8(ModuleSize(modules[k])))
  }

  function ModuleCount(f: Facts): (n: nat)
    ensures n <= |f.modules|
  {
    ModulesFrom(f.modules, 0, MmapEnd(f.memory))
  }

  function FbAt(f: Facts): nat { ModulesEnd(f.modules, ModuleCount(f), MmapEnd(f.memory)) }

  predicate FbFits(f: Facts) { f.fb.Some? && FbAt(f) + FB_TAG <= INFO_SIZE }

  function AcpiAt(f: Facts): nat { FbAt(f) + if FbFits(f) then Align8(FB_TAG) else 0 }

  predicate AcpiFits(f: Facts) { f.rsdp.Some? && AcpiAt(f) + 8 + |f.rsdp.value| + 8 <= INFO_SIZE }

  function EndAt(f: Facts): nat
  {
    AcpiAt(f) + if AcpiFits(f) then Align8(8 + |f.rsdp.value|) else 0
  }

  function AcpiTag(rsdp: Rsdp): Tag
  {
    if |rsdp| == RSDP_V2 then AcpiNew(rsdp) else AcpiOld(rsdp)
  }

  /** The tags a reader is to find. */
  function Written(f: Facts): seq<Tag>
  {
    [MmapTag(f.memory)]
    + ModuleTags(f.modules[..ModuleCount(f)])
    + (if FbFits(f) then [Framebuffer(f.fb.value)] else [])
    + (if AcpiFits(f) then [AcpiTag(f.rsdp.value)] else [])
  }

  function ModulePart(f: Facts): seq<byte> { TagsBytes(ModuleTags(f.modules[..ModuleCount(f)])) }

  function FbPart(f: Facts): seq<byte> { if FbFits(f) then Padded(Framebuffer(f.fb.value)) else [] }

  function AcpiPart(f: Facts): seq<byte> { if AcpiFits(f) then Padded(AcpiTag(f.rsdp.value)) else [] }

  predicate EndFits(f: Facts) { EndAt(f) + 8 <= INFO_SIZE }

  function TotalSize(f: Facts): nat { EndAt(f) + if EndFits(f) then 8 else 0 }

  /** The part of the block that is not left zero. */
  function Structure(f: Facts): seq<byte>
  {
    Le32(Low32(TotalSize(f))) + Le32(0) + TagsBytes(Written(f)) + if EndFits(f) then EndBytes() else []
  }

  /* ---- what the fit tests come to ---- */

  lemma {:induction false} ModulesEndMonotone(modules: seq<Named>, i: nat, k: nat, pos: nat)
    requires i <= k <= |modules|
    ensures ModulesEnd(modules, i, pos) <= ModulesEnd(modules, k, pos)
    decreases k
  {
    if i < k {
      ModulesEndMonotone(modules, i, k - 1, pos);
    }
  }

  lemma MmapEndFits(memory: seq<Descriptor>)
    ensures MmapEnd(memory) % 8 == 0 && MmapEnd(memory) <= INFO_SIZE - 16
    ensures MmapEnd(memory) == 24 + MMAP_ENTRY * MmapCount(memory)
  {
    var c := MmapCount(memory);
    assert c <= 681;
    Align8Masks(16 + MMAP_ENTRY * c);
    assert (16 + 24 * c + 7) / 8 == 2 + 3 * c;
  }

  lemma {:induction false} ModulesFromCounts(modules: seq<Named>, k: nat, pos: nat, base: nat)
    requires k <= |modules| && pos == ModulesEnd(modules, k, base) && pos <= INFO_SIZE && pos % 8 == 0
    ensures var n := k + ModulesFrom(modules, k, pos);
            && ModulesEnd(modules, n, base) <= INFO_SIZE && ModulesEnd(modules, n, base) % 8 == 0
            && (n < |modules| ==> INFO_SIZE < ModulesEnd(modules, n, base) + ModuleSize(modules[n]))
    decreases |modules| - k
  {
    hide Align8;
    if k < |modules| && pos + ModuleSize(modules[k]) <= INFO_SIZE {
      AlignFrom(pos, ModuleSize(modules[k]), INFO_SIZE);
      ModulesFromCounts(modules, k + 1, pos + Align8(ModuleSize(modules[k])), base);
    }
  }

  /** The `k`th module is written exactly when its tag, lying after those of all
      the modules before it, ends inside the block: no module that would fit in
      order is left out, and none is written after one that is. */
  lemma ModuleWrittenIffItFits(f: Facts, k: nat)
    requires k < |f.modules|
    ensures k < ModuleCount(f) <==>
            ModulesEnd(f.modules, k, MmapEnd(f.memory)) + ModuleSize(f.modules[k]) <= INFO_SIZE
  {
    hide Align8, MmapEnd, ModulesEnd, ModulesFrom, ModuleSize;
    var base, n := MmapEnd(f.memory), ModuleCount(f);
    MmapEndFits(f.memory);
    EndStart(f.modules, base);
    ModulesFromCounts(f.modules, 0, base, base);
    if k < n {
      EndStep(f.modules, k, base);
      ModulesEndMonotone(f.modules, k + 1, n, base);
    } else if n < k {
      EndStep(f.modules, n, base);
      ModulesEndMonotone(f.modules, n + 1, k, base);
    }
  }

  lemma EndStart(modules: seq<Named>, base: nat)
    ensures ModulesEnd(modules, 0, base) == base
  {
  }

  lemma EndStep(modules: seq<Named>, k: nat, base: nat)
    requires k < |modules|
    ensures ModulesEnd(modules, k, base) + ModuleSize(modules[k]) <= ModulesEnd(modules, k + 1, base)
  {
    hide ModuleSize;
  }

  lemma {:induction false} ModuleTagsLength(modules: seq<Named>, k: nat, pos: nat)
    requires k <= |modules|
    ensures pos + |TagsBytes(ModuleTags(modules[..k]))| == ModulesEnd(modules, k, pos)
  {
    if k > 0 {
      ModuleTagsLength(modules, k - 1, pos);
      var front, last := ModuleTags(modules[..k - 1]), ModuleTag(modules[k - 1]);
      assert ModuleTags(modules[..k]) == front + [last];
      FlatSnoc(Padded, front, last);
      assert SizeOf(last) == ModuleSize(modules[k - 1]);
    }
  }

  lemma OneTag(tag: Tag)
    ensures TagsBytes([tag]) == Padded(tag)
  {
    assert [tag][1..] == [];
    assert Flat(Padded, [tag]) == Padded(tag) + Flat(Padded, []);
  }

  lemma MmapTagSize(memory: seq<Descriptor>)
    ensures SizeOf(MmapTag(memory)) == 16 + MMAP_ENTRY * MmapCount(memory)
    ensures |Padded(MmapTag(memory))| == MmapEnd(memory) - 8
  {
  }

  /** The four groups of tags, and where each stops. */
  lemma WrittenBytes(f: Facts)
    ensures TagsBytes(Written(f)) == Padded(MmapTag(f.memory)) + ModulePart(f) + FbPart(f) + AcpiPart(f)
    ensures 8 + |Padded(MmapTag(f.memory))| + |ModulePart(f)| == FbAt(f)
    ensures FbAt(f) + |FbPart(f)| == AcpiAt(f)
    ensures AcpiAt(f) + |AcpiPart(f)| == EndAt(f)
  {
    hide Align8, Padded, MmapTag, ModuleTag, MmapEnd, Flat;
    var a, b := [MmapTag(f.memory)], ModuleTags(f.modules[..ModuleCount(f)]);
    var c := if FbFits(f) then [Framebuffer(f.fb.value)] else [];
    var d := if AcpiFits(f) then [AcpiTag(f.rsdp.value)] else [];
    FourGroups(a, b, c, d);
    NoTags();
    OneTag(MmapTag(f.memory));
    OptionalTagSizes(f);
    if FbFits(f) { OneTag(Framebuffer(f.fb.value)); }
    if AcpiFits(f) { OneTag(AcpiTag(f.rsdp.value)); }
    MmapTagSize(f.memory);
    ModuleTagsLength(f.modules, ModuleCount(f), MmapEnd(f.memory));
  }

  lemma NoTags()
    ensures TagsBytes([]) == []
  {
  }

  lemma FourGroups(a: seq<Tag>, b: seq<Tag>, c: seq<Tag>, d: seq<Tag>)
    ensures TagsBytes(a + b + c + d) == TagsBytes(a) + TagsBytes(b) + TagsBytes(c) + TagsBytes(d)
  {
    FlatConcat(Padded, a + b + c, d);
    FlatConcat(Padded, a + b, c);
    FlatConcat(Padded, a, b);
  }

  /** The modules' tags come next after the memory map's. */
  lemma WrittenModules(f: Facts)
    ensures 1 + ModuleCount(f) <= |Written(f)|
    ensures forall i :: 0 <= i < ModuleCount(f) ==> Written(f)[1 + i] == ModuleTag(f.modules[i])
  {
    hide ModuleTag, MmapTag, AcpiTag;
    var tags := ModuleTags(f.modules[..ModuleCount(f)]);
    forall i | 0 <= i < ModuleCount(f)
      ensures Written(f)[1 + i] == ModuleTag(f.modules[i])
    {
      assert Written(f)[1 + i] == tags[i];
    }
  }

  /** Every tag starts 8-aligned and nothing reaches past the block. */
  lemma PlacesFit(f: Facts)
    ensures FbAt(f) % 8 == 0 && FbAt(f) <= INFO_SIZE
    ensures AcpiAt(f) % 8 == 0 && AcpiAt(f) <= INFO_SIZE
    ensures EndAt(f) % 8 == 0 && EndAt(f) <= TotalSize(f) <= INFO_SIZE
  {
    hide Align8;
    var base := MmapEnd(f.memory);
    MmapEndFits(f.memory);
    ModulesFromCounts(f.modules, 0, base, base);
    AlignFrom(FbAt(f), FB_TAG, INFO_SIZE);
    if AcpiFits(f) {
      AlignFrom(AcpiAt(f), 8 + |f.rsdp.value|, INFO_SIZE);
    }
  }

  lemma ModuleTagsWellFormed(f: Facts)
    requires f.Valid()
    ensures forall i :: 0 <= i < ModuleCount(f) ==> WellFormed(ModuleTags(f.modules[..ModuleCount(f)])[i])
  {
    var tags := ModuleTags(f.modules[..ModuleCount(f)]);
    forall i | 0 <= i < ModuleCount(f)
      ensures WellFormed(tags[i])
    {
      ModuleWrittenIffItFits(f, i);
      assert tags[i] == ModuleTag(f.modules[i]) && SizeOf(tags[i]) == ModuleSize(f.modules[i]);
    }
  }

  lemma WrittenWellFormed(f: Facts)
    requires f.Valid()
    ensures forall t :: t in Written(f) ==> WellFormed(t)
  {
    ModuleTagsWellFormed(f);
    MmapTagSize(f.memory);
    MmapEndFits(f.memory);
    assert WellFormed(MmapTag(f.memory));
    assert FbFits(f) ==> WellFormed(Framebuffer(f.fb.value));
    assert AcpiFits(f) ==> WellFormed(AcpiTag(f.rsdp.value));
  }

  /** The round trip: reading a block that holds the structure recovers exactly
      the tags that fitted, and an END tag exactly when it was written. */
  lemma RoundTrip(f: Facts, b: seq<byte>)
    requires f.Valid() && |b| == INFO_SIZE && Holds(b, Structure(f))
    ensures Read(b) == Walk(Written(f), EndFits(f))
  {
    PlacesFit(f);
    WrittenBytes(f);
    WrittenWellFormed(f);
    ReadReadsBack(b, TotalSize(f), Written(f), if EndFits(f) then EndBytes() else []);
  }

  /** The first tag a reader meets tells it every descriptor it has room for: all of them,
      or the first 681. */
  ghost predicate MapRead(w: Walk, memory: seq<Descriptor>)
  {
    && w.Walk? && w.tags != [] && w.tags[0].Mmap?
    && var rs := w.tags[0].regions;
       && |rs| == (if |memory| < 681 then |memory| else 681)
       && forall i :: 0 <= i < |rs| ==> ToldAs(rs[i], memory[i])
  }

  lemma MapTold(f: Facts)
    ensures MapRead(Walk(Written(f), EndFits(f)), f.memory)
  {
    hide EndFits, ModuleTags, FbFits, AcpiFits, AcpiTag, EfiMemtypeToMb, ToldAs, RegionOf;
    var rs := Written(f)[0].regions;
    assert MMAP_MAX == 681;
    forall i | 0 <= i < |rs|
      ensures ToldAs(rs[i], f.memory[i])
    {
      RegionTold(f.memory[i]);
    }
  }

  /** What is there is what there is room for, counted in bytes of the tags themselves: a
      module's tag, as long as all before it went in; the framebuffer's 37 bytes; the root
      pointer's tag with eight bytes to spare; and END in the last eight. */
  lemma FitsExactly(f: Facts, k: nat)
    requires k <= |f.modules|
    ensures var front := [MmapTag(f.memory)] + ModuleTags(f.modules[..ModuleCount(f)]);
            var fb := if FbFits(f) then [Framebuffer(f.fb.value)] else [];
            && (FbFits(f) <==> f.fb.Some? && 8 + |TagsBytes(front)| + 37 <= 16384)
            && (AcpiFits(f) <==> f.rsdp.Some? && 8 + |TagsBytes(front + fb)| + 8 + |f.rsdp.value| + 8 <= 16384)
            && (EndFits(f) <==> 8 + |TagsBytes(Written(f))| + 8 <= 16384)
    ensures k < |f.modules| ==>
              (k < ModuleCount(f) <==>
               8 + |TagsBytes([MmapTag(f.memory)] + ModuleTags(f.modules[..k]))|
               + |TagBytes(ModuleTag(f.modules[k]))| <= 16384)
  {
    hide Align8, Padded, MmapTag, ModuleTags, MmapEnd, ModulesEnd, TagsBytes, ModuleTag, Payload, ModulesFrom;
    var n := ModuleCount(f);
    FrontLength(f, n);
    WrittenBytes(f);
    var front := [MmapTag(f.memory)] + ModuleTags(f.modules[..n]);
    assert front + [] == front;
    if FbFits(f) {
      OneTag(Framebuffer(f.fb.value));
      OptionalTagSizes(f);
      TwoGroups(front, [Framebuffer(f.fb.value)]);
      PaddedLength(Framebuffer(f.fb.value));
    }
    if k < |f.modules| {
      FrontLength(f, k);
      ModuleTagSize(f.modules[k]);
      ModuleWrittenIffItFits(f, k);
    }
  }

  lemma PaddedLength(tag: Tag)
    ensures |Padded(tag)| == Align8(SizeOf(tag))
  {
  }

  lemma TwoGroups(a: seq<Tag>, b: seq<Tag>)
    ensures TagsBytes(a + b) == TagsBytes(a) + TagsBytes(b)
  {
    FlatConcat(Padded, a, b);
  }

  lemma FrontLength(f: Facts, k: nat)
    requires k <= |f.modules|
    ensures 8 + |TagsBytes([MmapTag(f.memory)] + ModuleTags(f.modules[..k]))|
            == ModulesEnd(f.modules, k, MmapEnd(f.memory))
  {
    hide Padded, MmapTag, MmapEnd, ModulesEnd, ModuleTags, TagsBytes;
    TwoGroups([MmapTag(f.memory)], ModuleTags(f.modules[..k]));
    OneTag(MmapTag(f.memory));
    MmapTagSize(f.memory);
    ModuleTagsLength(f.modules, k, MmapEnd(f.memory));
  }

  /* ---- when a reader is left without an END tag ---- */

  /** The terminator is lost exactly when the tags fill the block to its last
      byte, which depends on nothing but how many and how long they are. */
  lemma EndLostIffBlockFull(f: Facts)
    ensures !EndFits(f) <==> EndAt(f) == INFO_SIZE
    ensures AcpiFits(f) ==> EndFits(f)
    ensures ModuleCount(f) == 0 && !FbFits(f) ==> EndFits(f)
  {
    PlacesFit(f);
    MmapEndFits(f.memory);
    assert EndAt(f) != INFO_SIZE ==> EndAt(f) + 8 <= INFO_SIZE;
    if AcpiFits(f) {
      AlignFrom(AcpiAt(f), 8 + |f.rsdp.value|, INFO_SIZE - 8);
    }
  }

  /** It does happen: 680 descriptors and a framebuffer, whatever they say. */
  lemma EndCanBeLost(f: Facts)
    requires |f.memory| == 680 && f.modules == [] && f.fb.Some?
    ensures FbFits(f) && !AcpiFits(f) && !EndFits(f)
  {
    MmapEndFits(f.memory);
    Align8Masks(FB_TAG);
  }

  /* ---- the code ---- */

  /** After a tag's own bytes come zeros up to the next multiple of 8. */
  lemma PadTag(b: seq<byte>, p: seq<byte>, tag: Tag, size: nat, end: nat)
    requires Holds(b, p + TagBytes(tag)) && |p| % 8 == 0 && |b| == INFO_SIZE
    requires SizeOf(tag) == size && end == |p| + size
    ensures Holds(b, p + Padded(tag)) && |Padded(tag)| == Align8(size)
    ensures Align8(end) == |p| + Align8(size) <= INFO_SIZE && Align8(end) % 8 == 0
  {
    hide TagBytes, Align8, SizeOf;
    AlignFrom(|p|, size, INFO_SIZE);
    assert |p + TagBytes(tag)| == |p| + size;
    HoldsSkip(b, p + TagBytes(tag), Align8(size) - size);
    assert p + TagBytes(tag) + Zeros(Align8(size) - size) == p + Padded(tag);
  }

  method WriteHead(out: array<byte>, pos: nat, kind: u32, size: u32, ghost p: seq<byte>)
    requires Holds(out[..], p) && pos == |p| && pos + 8 <= out.Length
    modifies out
    ensures Holds(out[..], p + Le32(kind) + Le32(size))
  {
    Put32(out, pos, kind, p);
    Put32(out, pos + 4, size, p + Le32(kind));
  }

  method WriteRegion(out: array<byte>, pos: nat, d: Descriptor, ghost p: seq<byte>)
    requires out.Length == INFO_SIZE && Holds(out[..], p) && pos == |p| && pos + MMAP_ENTRY <= INFO_SIZE
    modifies out
    ensures Holds(out[..], p + RegionBytes(RegionOf(d)))
  {
    hide Holds, Le32, Le64;
    var r := RegionOf(d);
    Put64(out, pos, d.start, p);
    Put64(out, pos + 8, d.Length(), p + Le64(r.base));
    Put32(out, pos + 16, EfiMemtypeToMb(d.ty), p + Le64(r.base) + Le64(r.length));
    Put32(out, pos + 20, 0, p + Le64(r.base) + Le64(r.length) + Le32(r.kind));
    assert p + Le64(r.base) + Le64(r.length) + Le32(r.kind) + Le32(0) == p + RegionBytes(r);
  }

  /** The entries of the memory-map tag, as many as there is room for. */
  method WriteRegions(out: array<byte>, start: nat, memory: seq<Descriptor>, ghost p: seq<byte>) returns (pos: nat)
    requires out.Length == INFO_SIZE && Holds(out[..], p) && start == |p| == 24
    modifies out
    ensures Holds(out[..], p + RegionsBytes(Regions(memory[..MmapCount(memory)])))
    ensures pos == 24 + MMAP_ENTRY * MmapCount(memory)
  {
    hide Holds, RegionBytes;
    pos := start;
    ghost var n := 0;
    assert p + RegionsBytes(Regions(memory[..0])) == p;
    for i := 0 to |memory|
      invariant n == i <= MMAP_MAX && pos == 24 + MMAP_ENTRY * n
      invariant Holds(out[..], p + RegionsBytes(Regions(memory[..n])))
    {
      if pos + MMAP_ENTRY > INFO_SIZE {
        break;
      }
      var rs := Regions(memory[..i]);
      WriteRegion(out, pos, memory[i], p + RegionsBytes(rs));
      assert Regions(memory[..i + 1]) == rs + [RegionOf(memory[i])];
      FlatSnoc(RegionBytes, rs, RegionOf(memory[i]));
      ConcatAssociates(p, RegionsBytes(rs), RegionBytes(RegionOf(memory[i])));
      pos := pos + MMAP_ENTRY;
      n := n + 1;
    }
    assert n == MmapCount(memory);
  }

  lemma MmapTagBytes(p: seq<byte>, regions: seq<Region>, size: u32)
    requires size == SizeOf(Mmap(regions))
    ensures p + TagBytes(Mmap(regions))
            == p + Le32(TAG_MMAP) + Le32(size) + (Le32(MMAP_ENTRY) + Le32(0) + RegionsBytes(regions))
  {
  }

  method WriteMmap(out: array<byte>, memory: seq<Descriptor>) returns (pos: nat)
    requires out.Length == INFO_SIZE && out[..] == Zeros(INFO_SIZE)
    modifies out
    ensures Holds(out[..], Zeros(8) + TagBytes(MmapTag(memory)))
    ensures pos == 8 + SizeOf(MmapTag(memory))
  {
    hide Holds, Le32;
    ghost var tag := MmapTag(memory);
    ghost var p, regions := Zeros(8), RegionsBytes(tag.regions);
    pos := 8;
    assert out[..] == p + Zeros(INFO_SIZE - 8);
    var mmapTagStart := pos;
    Put32(out, pos, TAG_MMAP, p);
    pos := pos + 4;
    // A placeholder for the size: the bytes there are zero already.
    var tagSizeOffset := pos;
    HoldsSkip(out[..], p + Le32(TAG_MMAP), 4);
    pos := pos + 4;
    ghost var q := p + Le32(TAG_MMAP) + Zeros(4);
    Put32(out, pos, MMAP_ENTRY, q);
    pos := pos + 4;
    Put32(out, pos, 0, q + Le32(MMAP_ENTRY));
    pos := pos + 4;
    pos := WriteRegions(out, pos, memory, q + Le32(MMAP_ENTRY) + Le32(0));
    ghost var r := Le32(MMAP_ENTRY) + Le32(0) + regions;
    assert q + Le32(MMAP_ENTRY) + Le32(0) + regions == (p + Le32(TAG_MMAP)) + Zeros(4) + r;
    MmapTagSize(memory);
    MmapTagBytes(p, tag.regions, pos - mmapTagStart);
    Patch32(out, tagSizeOffset, pos - mmapTagStart, p + Le32(TAG_MMAP), Zeros(4), r);
  }

  method WriteModule(out: array<byte>, at: nat, m: ModuleInfo, names: array<byte>, nameAt: nat, nameLen: nat,
                     ghost p: seq<byte>)
    requires out.Length == INFO_SIZE && names != out
    requires Holds(out[..], p) && at == |p|
    requires nameAt + nameLen < names.Length && names[nameAt + nameLen] == 0
    requires at + 17 + nameLen <= INFO_SIZE
    modifies out
    ensures var tag := ModuleTag(Named(names[nameAt..nameAt + nameLen], m.physStart, m.size));
            Holds(out[..], p + TagBytes(tag))
  {
    hide Holds, Le32;
    ghost var name := names[nameAt..nameAt + nameLen];
    ghost var start, end := Low32(m.physStart), Low32(m.physStart + m.size);
    var tagSize := 17 + nameLen;
    WriteHead(out, at, TAG_MODULE, tagSize, p);
    ghost var q := p + Le32(TAG_MODULE) + Le32(tagSize);
    Put32(out, at + 8, Low32(m.physStart), q);
    Put32(out, at + 12, Low32(m.physStart + m.size), q + Le32(start));
    assert names[nameAt..nameAt + nameLen + 1] == name + [0];
    Put(out, at + 16, names[nameAt..nameAt + nameLen + 1], q + Le32(start) + Le32(end));
    ModuleTagBytes(p, Named(name, m.physStart, m.size), tagSize);
  }

  lemma ModuleTagBytes(p: seq<byte>, m: Named, tagSize: u32)
    requires tagSize == ModuleSize(m)
    ensures p + TagBytes(ModuleTag(m))
            == p + Le32(TAG_MODULE) + Le32(tagSize) + Le32(Low32(m.start)) + Le32(Low32(m.start + m.size))
               + (m.name + [0])
  {
  }

  /** One turn of the loop over the modules: the tag is written if it fits. */
  method WriteNextModule(out: array<byte>, at: nat, names: array<byte>, namesAt: u64, m: ModuleInfo,
                         ghost named: Named, ghost p: seq<byte>)
    returns (fits: bool, pos: nat)
    requires out.Length == INFO_SIZE && names != out
    requires LeadsTo(m, named, names[..], namesAt)
    requires Holds(out[..], p) && at == |p| && at % 8 == 0
    modifies out
    ensures fits <==> at + ModuleSize(named) <= INFO_SIZE
    ensures !fits ==> out[..] == old(out[..])
    ensures fits ==> Holds(out[..], p + Padded(ModuleTag(named)))
    ensures fits ==> pos == at + Align8(ModuleSize(named)) && pos % 8 == 0
  {
    hide Holds, TagBytes, Padded, Align8, SizeOf, ModuleTag, NulFrom;
    pos := at;
    var nameAt := m.namePtr - namesAt;
    var nameLen := NameLength(names, nameAt);
    var tagSize := 4 + 4 + 4 + 4 + nameLen + 1;
    if pos + tagSize > INFO_SIZE {
      return false, pos;
    }
    WriteModule(out, pos, m, names, nameAt, nameLen, p);
    pos := pos + tagSize;
    ModuleTagSize(named);
    PadTag(out[..], p, ModuleTag(named), ModuleSize(named), pos);
    pos := Align8(pos);
    fits := true;
  }

  lemma ModuleTagSize(m: Named)
    ensures SizeOf(ModuleTag(m)) == ModuleSize(m)
  {
  }

  method WriteModules(out: array<byte>, start: nat, names: array<byte>, namesAt: u64, modules: seq<ModuleInfo>,
                      ghost named: seq<Named>, ghost p: seq<byte>)
    returns (pos: nat)
    requires out.Length == INFO_SIZE && names != out
    requires |named| == |modules|
    requires forall i :: 0 <= i < |modules| ==> LeadsTo(modules[i], named[i], names[..], namesAt)
    requires Holds(out[..], p) && start == |p| && |p| % 8 == 0
    modifies out
    ensures var n := ModulesFrom(named, 0, start);
            Holds(out[..], p + TagsBytes(ModuleTags(named[..n]))) && pos == ModulesEnd(named, n, start)
  {
    hide Holds, LeadsTo, Padded, ModuleTag, Align8, Flat;
    ghost var n := 0;
    pos := start;
    NoTags();
    assert ModuleTags(named[..0]) == [];
    assert p + TagsBytes(ModuleTags(named[..0])) == p;
    hide TagsBytes, ModuleTags;
    for i := 0 to |modules|
      invariant n == i && n + ModulesFrom(named, n, pos) == ModulesFrom(named, 0, start)
      invariant pos == ModulesEnd(named, n, start) && pos % 8 == 0
      invariant pos == |p + TagsBytes(ModuleTags(named[..n]))|
      invariant Holds(out[..], p + TagsBytes(ModuleTags(named[..n])))
    {
      var fits, next := WriteNextModule(out, pos, names, namesAt, modules[i], named[n],
                                        p + TagsBytes(ModuleTags(named[..n])));
      if !fits {
        break;
      }
      OneMoreModule(p, named, n);
      CountStep(named, n, pos, next);
      pos := next;
      n := n + 1;
    }
  }

  lemma CountStep(named: seq<Named>, n: nat, pos: nat, next: nat)
    requires n < |named| && pos + ModuleSize(named[n]) <= INFO_SIZE
    requires next == pos + Align8(ModuleSize(named[n]))
    ensures ModulesFrom(named, n, pos) == 1 + ModulesFrom(named, n + 1, next)
  {
  }

  lemma OneMoreModule(p: seq<byte>, named: seq<Named>, n: nat)
    requires n < |named|
    ensures p + TagsBytes(ModuleTags(named[..n + 1]))
            == p + TagsBytes(ModuleTags(named[..n])) + Padded(ModuleTag(named[n]))
    ensures |Padded(ModuleTag(named[n]))| == Align8(ModuleSize(named[n]))
  {
    hide Padded;
    var tags, tag := ModuleTags(named[..n]), ModuleTag(named[n]);
    assert ModuleTags(named[..n + 1]) == tags + [tag];
    FlatSnoc(Padded, tags, tag);
    ConcatAssociates(p, TagsBytes(tags), Padded(tag));
  }

  method WriteFramebuffer(out: array<byte>, pos: nat, fb: FbInfo, ghost p: seq<byte>)
    requires out.Length == INFO_SIZE && Holds(out[..], p) && pos == |p| && pos + FB_TAG <= INFO_SIZE
    modifies out
    ensures Holds(out[..], p + TagBytes(Framebuffer(fb)))
  {
    hide Holds, Le32, Le64;
    WriteHead(out, pos, TAG_FRAMEBUFFER, FB_TAG, p);
    ghost var q := p + Le32(TAG_FRAMEBUFFER) + Le32(FB_TAG);
    Put64(out, pos + 0x08, fb.addr, q);
    Put32(out, pos + 0x10, fb.pitch, q + Le64(fb.addr));
    Put32(out, pos + 0x14, fb.width, q + Le64(fb.addr) + Le32(fb.pitch));
    Put32(out, pos + 0x18, fb.height, q + Le64(fb.addr) + Le32(fb.pitch) + Le32(fb.width));
    ghost var r := q + Le64(fb.addr) + Le32(fb.pitch) + Le32(fb.width) + Le32(fb.height);
    var colours := [fb.bpp, fb.fbType, 0, fb.redPos, fb.redSize, fb.greenPos, fb.greenSize, fb.bluePos, fb.blueSize];
    Put(out, pos + 0x1C, colours, r);
    FbTagBytes(p, fb);
  }

  lemma FbTagBytes(p: seq<byte>, fb: FbInfo)
    ensures p + TagBytes(Framebuffer(fb))
            == p + Le32(TAG_FRAMEBUFFER) + Le32(FB_TAG)
               + Le64(fb.addr) + Le32(fb.pitch) + Le32(fb.width) + Le32(fb.height)
               + [fb.bpp, fb.fbType, 0, fb.redPos, fb.redSize, fb.greenPos, fb.greenSize, fb.bluePos, fb.blueSize]
  {
  }

  method WriteAcpi(out: array<byte>, pos: nat, rsdp: Rsdp, ghost p: seq<byte>)
    requires out.Length == INFO_SIZE && Holds(out[..], p) && pos == |p| && pos + 8 + |rsdp| <= INFO_SIZE
    modifies out
    ensures Holds(out[..], p + TagBytes(AcpiTag(rsdp)))
  {
    hide Holds, Le32;
    var kind := if |rsdp| == RSDP_V2 then TAG_ACPI_NEW else TAG_ACPI_OLD;
    WriteHead(out, pos, kind, 8 + |rsdp|, p);
    Put(out, pos + 8, rsdp, p + Le32(kind) + Le32(8 + |rsdp|));
    assert p + Le32(kind) + Le32(8 + |rsdp|) + rsdp == p + TagBytes(AcpiTag(rsdp));
  }

  /** The framebuffer's part, if there is one: its tag if that fits, then the
      position rounded up whether it did or not. */
  method WriteOptionalFramebuffer(out: array<byte>, start: nat, fb: Option<FbInfo>, ghost f: Facts, ghost p: seq<byte>)
    returns (pos: nat)
    requires out.Length == INFO_SIZE && Holds(out[..], p)
    requires f.fb == fb && start == |p| == FbAt(f)
    modifies out
    ensures Holds(out[..], p + FbPart(f))
    ensures pos == AcpiAt(f)
  {
    hide Holds, TagBytes, Padded, FbAt, SizeOf;
    PlacesFit(f);
    pos := start;
    assert p + [] == p;
    if fb.Some? {
      if pos + FB_TAG <= INFO_SIZE {
        WriteFramebuffer(out, pos, fb.value, p);
        pos := pos + FB_TAG;
        OptionalTagSizes(f);
        PadTag(out[..], p, Framebuffer(fb.value), FB_TAG, pos);
      } else {
        AlignFrom(pos, 0, INFO_SIZE);
      }
      pos := Align8(pos);
    }
  }

  method WriteOptionalAcpi(out: array<byte>, start: nat, rsdp: Option<Rsdp>, ghost f: Facts, ghost p: seq<byte>)
    returns (pos: nat)
    requires out.Length == INFO_SIZE && Holds(out[..], p)
    requires f.rsdp == rsdp && start == |p| == AcpiAt(f)
    modifies out
    ensures Holds(out[..], p + AcpiPart(f))
    ensures pos == EndAt(f)
  {
    hide Holds, TagBytes, Padded, AcpiAt, SizeOf, Align8;
    PlacesFit(f);
    pos := start;
    assert p + [] == p;
    if rsdp.Some? {
      var tagSize := 8 + |rsdp.value|;
      if pos + tagSize + 8 <= INFO_SIZE {
        WriteAcpi(out, pos, rsdp.value, p);
        pos := pos + tagSize;
        OptionalTagSizes(f);
        PadTag(out[..], p, AcpiTag(rsdp.value), tagSize, pos);
        pos := Align8(pos);
      }
    }
  }

  /** The terminating tag if eight bytes are left, then the fixed header. */
  method Finish(out: array<byte>, end: nat, ghost tags: seq<byte>)
    requires out.Length == INFO_SIZE && Holds(out[..], Zeros(8) + tags) && end == 8 + |tags|
    modifies out
    ensures var ends := end + 8 <= INFO_SIZE;
            Holds(out[..], Le32(Low32(if ends then end + 8 else end)) + Le32(0) + tags
                           + if ends then EndBytes() else [])
  {
    hide Holds, Le32;
    var pos := end;
    ghost var rest := tags;
    if pos + 8 <= INFO_SIZE {
      WriteHead(out, pos, TAG_END, 8, Zeros(8) + tags);
      assert Zeros(8) + tags + Le32(TAG_END) + Le32(8) == Zeros(8) + (tags + EndBytes());
      rest := tags + EndBytes();
      pos := pos + 8;
    }
    FinishHeader(out, Low32(pos), rest);
    assert Le32(Low32(pos)) + Le32(0) + rest
        == Le32(Low32(pos)) + Le32(0) + tags + if end + 8 <= INFO_SIZE then EndBytes() else [];
  }

  /** Fills in the fixed header: total size and a reserved word. */
  method FinishHeader(out: array<byte>, total: u32, ghost rest: seq<byte>)
    requires out.Length == INFO_SIZE && Holds(out[..], Zeros(8) + rest)
    modifies out
    ensures Holds(out[..], Le32(total) + Le32(0) + rest)
  {
    hide Holds, Le32;
    assert Zeros(8) + rest == [] + Zeros(4) + (Zeros(4) + rest);
    Patch32(out, 0, total, [], Zeros(4), Zeros(4) + rest);
    assert [] + Le32(total) + (Zeros(4) + rest) == Le32(total) + Zeros(4) + rest;
    Patch32(out, 4, 0, Le32(total), Zeros(4), rest);
  }

  lemma OptionalTagSizes(f: Facts)
    ensures f.fb.Some? ==> SizeOf(Framebuffer(f.fb.value)) == FB_TAG
    ensures f.rsdp.Some? ==> SizeOf(AcpiTag(f.rsdp.value)) == 8 + |f.rsdp.value|
  {
  }

  /** The memory-map tag, and zeros up to where the next one goes. */
  method WriteFirst(out: array<byte>, memory: seq<Descriptor>) returns (pos: nat)
    requires out.Length == INFO_SIZE && out[..] == Zeros(INFO_SIZE)
    modifies out
    ensures Holds(out[..], Zeros(8) + Padded(MmapTag(memory)))
    ensures pos == 8 + |Padded(MmapTag(memory))| == MmapEnd(memory) && pos % 8 == 0
  {
    hide Holds, TagBytes, Padded, Align8, SizeOf, MmapTag, MmapEnd;
    pos := WriteMmap(out, memory);
    MmapTagSize(memory);
    MmapEndFits(memory);
    PadTag(out[..], Zeros(8), MmapTag(memory), SizeOf(MmapTag(memory)), pos);
    pos := Align8(pos);
  }

  /** The groups of tags in the order they are written. */
  method WriteTags(out: array<byte>, memory: seq<Descriptor>, fb: Option<FbInfo>, modules: seq<ModuleInfo>,
                   rsdp: Option<Rsdp>, names: array<byte>, namesAt: u64, ghost f: Facts)
    returns (pos: nat)
    requires out.Length == INFO_SIZE && names != out && out[..] == Zeros(INFO_SIZE)
    requires f.memory == memory && f.fb == fb && f.rsdp == rsdp && |f.modules| == |modules|
    requires forall i :: 0 <= i < |modules| ==> LeadsTo(modules[i], f.modules[i], names[..], namesAt)
    modifies out
    ensures Holds(out[..], Zeros(8) + TagsBytes(Written(f)))
    ensures pos == EndAt(f)
  {
    hide Holds, TagBytes, Padded, Align8, LeadsTo, EndAt, AcpiAt, FbPart, AcpiPart, TagsBytes, SizeOf, MmapTag, Written,
         MmapEnd;
    pos := WriteFirst(out, memory);
    ghost var p := Zeros(8) + Padded(MmapTag(memory));
    WrittenBytes(f);
    pos := WriteModules(out, pos, names, namesAt, modules, f.modules, p);
    ghost var q := p + ModulePart(f);
    pos := WriteOptionalFramebuffer(out, pos, fb, f, q);
    pos := WriteOptionalAcpi(out, pos, rsdp, f, q + FbPart(f));
    assert q + FbPart(f) + AcpiPart(f) == Zeros(8) + TagsBytes(Written(f));
  }

  /** `build_mb2_info`: `f` is what the arguments say once each module's name is
      followed into the table. The block's address survives its 32 bits. */
  method BuildInfo(out: array<byte>, at: nat, memory: seq<Descriptor>, fb: Option<FbInfo>, modules: seq<ModuleInfo>,
                   rsdp: Option<Rsdp>, names: array<byte>, namesAt: u64, ghost f: Facts)
    returns (addr: u32)
    requires out.Length == INFO_SIZE && Reserved(at) && names != out
    requires f.memory == memory && f.fb == fb && f.rsdp == rsdp && |f.modules| == |modules|
    requires forall i :: 0 <= i < |modules| ==> LeadsTo(modules[i], f.modules[i], names[..], namesAt)
    modifies out
    ensures addr == at
    ensures Holds(out[..], Structure(f))
    ensures Read(out[..]) == Walk(Written(f), EndFits(f))
    ensures MapRead(Read(out[..]), memory)
  {
    hide Holds, LeadsTo, TagsBytes, Written, EndAt, Le32, Read, WellFormed, Padded, MmapTag, ModulePart, FbPart,
         AcpiPart, FbAt, AcpiAt, Align8, Zeros, MapRead;
    Clear(out);
    var pos := WriteTags(out, memory, fb, modules, rsdp, names, namesAt, f);
    WrittenBytes(f);
    Finish(out, pos, TagsBytes(Written(f)));
    NamedNoNul(modules, f.modules, names[..], namesAt);
    RoundTrip(f, out[..]);
    MapTold(f);
    addr := Low32(at);
  }
}
