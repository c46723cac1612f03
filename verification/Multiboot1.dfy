/** Multiboot1 boot information (section 3.3 of the Multiboot Specification
    0.6.96): its layout in the reserved block and a reader that follows its
    32-bit pointers. */
module Multiboot1 {
  import opened Bytes
  import opened MemoryMap
  import opened Names

  const MAX_MODULES: nat := 32
  const MODULE_ENTRY: nat := 16
  const NAME_MAX: nat := 64
  const MMAP_ENTRY: nat := 24

  const MODULES_AT: nat := 64
  const NAMES_AT: nat := MODULES_AT + MAX_MODULES * MODULE_ENTRY
  const MMAP_AT: nat := NAMES_AT + MAX_MODULES * NAME_MAX
  const MMAP_MAX: nat := (INFO_SIZE - MMAP_AT) / MMAP_ENTRY

  const INFO_MEMORY: u32 := 0x01
  const INFO_MODS: u32 := 0x08
  const INFO_MEM_MAP: u32 := 0x40

  /* ---- the reader, in the numbers of section 3.3 ---- */

  datatype ModuleView = ModuleView(start: u32, end: u32, name: seq<byte>)

  datatype View = View(memLower: u32, memUpper: u32, modules: seq<ModuleView>, regions: seq<Region>)

  predicate Flag(flags: u32, bit: u32)
    requires bit > 0
  {
    flags / bit % 2 == 1
  }

  /** `n` bytes at address `addr` lie in the block of `size` bytes at `at`. */
  predicate InBlock(size: nat, at: nat, addr: int, n: nat)
  {
    at <= addr && addr + n <= at + size
  }

  /** The `count` modules of the table at address `addr`, or None if a pointer
      leads out of the block `b`, which lies at `at`. */
  function ReadModules(b: seq<byte>, at: nat, addr: nat, count: nat): Option<seq<ModuleView>>
    decreases count
  {
    if count == 0 then Some([])
    else if !InBlock(|b|, at, addr, 16) then None
    else
      var o := addr - at;
      var name := U32At(b, o + 8);
      if !InBlock(|b|, at, name, 1) || !Terminated(b, name - at) then None
      else match ReadModules(b, at, addr + 16, count - 1)
        case None => None
        case Some(rest) => Some([ModuleView(U32At(b, o), U32At(b, o + 4), CStr(b, name - at))] + rest)
  }

  /** The memory map from address `addr` up to `end`, each entry as long as it says. */
  function ReadRegions(b: seq<byte>, at: nat, addr: nat, end: nat): Option<seq<Region>>
    decreases end - addr
  {
    if end <= addr then Some([])
    else if !InBlock(|b|, at, addr, 24) then None
    else
      var o := addr - at;
      match ReadRegions(b, at, addr + U32At(b, o) + 4, end)
      case None => None
      case Some(rest) => Some([Region(U64At(b, o + 4), U64At(b, o + 12), U32At(b, o + 20))] + rest)
  }

  function Read(b: seq<byte>, at: nat): Option<View>
    requires 52 <= |b|
  {
    var flags := U32At(b, 0);
    if !Flag(flags, 0x01) || !Flag(flags, 0x40) then None
    else
      var modules := if Flag(flags, 0x08) then ReadModules(b, at, U32At(b, 24), U32At(b, 20)) else Some([]);
      var regions := ReadRegions(b, at, U32At(b, 48), U32At(b, 48) + U32At(b, 44));
      if modules.None? || regions.None? then None
      else Some(View(U32At(b, 4), U32At(b, 8), modules.value, regions.value))
  }

  /* ---- the layout ---- */

  datatype ModuleEntry = ModuleEntry(start: u32, end: u32, nameAddr: u32)

  datatype Info = Info(flags: u32, memLower: u32, memUpper: u32, modsCount: u32, modsAddr: u32,
                       mmapLength: u32, mmapAddr: u32)

  function EntryBytes(e: ModuleEntry): (s: seq<byte>)
    ensures |s| == MODULE_ENTRY
  {
    Le32(e.start) + Le32(e.end) + Le32(e.nameAddr) + Le32(0)
  }

  function RegionBytes(r: Region): (s: seq<byte>)
    ensures |s| == MMAP_ENTRY
  {
    Le32(20) + Le64(r.base) + Le64(r.length) + Le32(r.kind)
  }

  /** A name of at most 63 bytes in its slot of 64, which ends in zeros. */
  function SlotBytes(name: seq<byte>): (s: seq<byte>)
    ensures |s| == NAME_MAX
  {
    var kept := name[..Min(|name|, NAME_MAX - 1)];
    kept + Zeros(NAME_MAX - |kept|)
  }

  function InfoBytes(i: Info): (s: seq<byte>)
    ensures |s| == 52
  {
    Le32(i.flags) + Le32(i.memLower) + Le32(i.memUpper) + Le32(0) + Le32(0) + Le32(i.modsCount) + Le32(i.modsAddr)
    + Zeros(16) + Le32(i.mmapLength) + Le32(i.mmapAddr)
  }

  /** The four parts of the block, each followed by zeros up to the next. */
  ghost predicate LaidOut(b: seq<byte>, info: seq<byte>, mods: seq<byte>, names: seq<byte>, mmap: seq<byte>)
  {
    && |b| == INFO_SIZE
    && Holds(b[..MODULES_AT], info)
    && Holds(b[MODULES_AT..NAMES_AT], mods)
    && Holds(b[NAMES_AT..MMAP_AT], names)
    && Holds(b[MMAP_AT..], mmap)
  }

  /* ---- reading what was laid out ---- */

  /** A part's bytes, found in the block it is laid out in. */
  lemma PartBytes(b: seq<byte>, lo: nat, hi: nat, part: seq<byte>, i: nat, n: nat)
    requires lo <= hi <= |b| && Holds(b[lo..hi], part) && i + n <= |part|
    ensures lo + i + n <= hi && b[lo + i..lo + i + n] == part[i..i + n]
  {
    var m := b[lo..hi];
    assert |part| <= |m| && m[..|part|] == part;
    assert m[i..i + n] == m[..|part|][i..i + n];
    SliceOfSlice(b, lo, hi, i, i + n);
  }

  /* ---- what a kernel is told ---- */

  function ModuleCount(modules: seq<Named>): nat { Min(|modules|, MAX_MODULES) }

  function SlotAddr(at: nat, i: nat): nat { at + NAMES_AT + NAME_MAX * i }

  function Entries(modules: seq<Named>, at: nat): (es: seq<ModuleEntry>)
    ensures |es| == ModuleCount(modules)
  {
    seq(ModuleCount(modules), i requires 0 <= i < ModuleCount(modules) =>
      ModuleEntry(Low32(modules[i].start), Low32(modules[i].start + modules[i].size), Low32(SlotAddr(at, i))))
  }

  function NamesOf(modules: seq<Named>): (names: seq<seq<byte>>)
    ensures |names| == ModuleCount(modules)
  {
    seq(ModuleCount(modules), i requires 0 <= i < ModuleCount(modules) => modules[i].name)
  }

  function ViewOf(m: Named): ModuleView
  {
    ModuleView(Low32(m.start), Low32(m.start + m.size), m.name[..Min(|m.name|, NAME_MAX - 1)])
  }

  function Views(modules: seq<Named>): (vs: seq<ModuleView>)
    ensures |vs| == ModuleCount(modules)
    ensures forall i :: 0 <= i < |vs| ==> vs[i] == ViewOf(modules[i])
  {
    seq(ModuleCount(modules), i requires 0 <= i < ModuleCount(modules) => ViewOf(modules[i]))
  }

  lemma EntryReadsBack(b: seq<byte>, o: nat, e: ModuleEntry)
    requires o + MODULE_ENTRY <= |b| && b[o..o + MODULE_ENTRY] == EntryBytes(e)
    ensures U32At(b, o) == e.start && U32At(b, o + 4) == e.end && U32At(b, o + 8) == e.nameAddr
    ensures U32At(b, o + 12) == 0
  {
    hide Le32, U32At;
    var s := b[o..o + MODULE_ENTRY];
    SliceOfSlice(b, o, o + MODULE_ENTRY, 12, 16);
    assert b[o + 12..o + 16] == s[12..16] == Le32(0);
    ReadBack32(b, o + 12, 0);
    SliceOfSlice(b, o, o + MODULE_ENTRY, 0, 4);
    SliceOfSlice(b, o, o + MODULE_ENTRY, 4, 8);
    SliceOfSlice(b, o, o + MODULE_ENTRY, 8, 12);
    assert b[o..o + 4] == s[0..4] == Le32(e.start);
    assert b[o + 4..o + 8] == s[4..8] == Le32(e.end);
    assert b[o + 8..o + 12] == s[8..12] == Le32(e.nameAddr);
    ReadBack32(b, o, e.start);
    ReadBack32(b, o + 4, e.end);
    ReadBack32(b, o + 8, e.nameAddr);
  }

  lemma RegionReadsBack(b: seq<byte>, o: nat, r: Region)
    requires o + MMAP_ENTRY <= |b| && b[o..o + MMAP_ENTRY] == RegionBytes(r)
    ensures U32At(b, o) == 20
    ensures Region(U64At(b, o + 4), U64At(b, o + 12), U32At(b, o + 20)) == r
  {
    hide Le32, Le64;
    var s := b[o..o + MMAP_ENTRY];
    assert b[o..o + 4] == s[0..4] == Le32(20);
    assert b[o + 4..o + 12] == s[4..12] == Le64(r.base);
    assert b[o + 12..o + 20] == s[12..20] == Le64(r.length);
    assert b[o + 20..o + 24] == s[20..24] == Le32(r.kind);
    ReadBack32(b, o, 20);
    ReadBack64(b, o + 4, r.base);
    ReadBack64(b, o + 12, r.length);
    ReadBack32(b, o + 20, r.kind);
  }

  lemma InfoReadsBack(b: seq<byte>, i: Info)
    requires 52 <= |b| && b[..52] == InfoBytes(i)
    ensures U32At(b, 0) == i.flags && U32At(b, 4) == i.memLower && U32At(b, 8) == i.memUpper
    ensures U32At(b, 20) == i.modsCount && U32At(b, 24) == i.modsAddr
    ensures U32At(b, 44) == i.mmapLength && U32At(b, 48) == i.mmapAddr
    ensures U32At(b, 12) == 0 && U32At(b, 16) == 0 && forall k :: 28 <= k < 44 ==> b[k] == 0
  {
    hide Le32, U32At;
    var s := b[..52];
    assert b[12..16] == s[12..16] == Le32(0) && b[16..20] == s[16..20] == Le32(0);
    ReadBack32(b, 12, 0);
    ReadBack32(b, 16, 0);
    assert s[28..44] == Zeros(16);
    assert forall k :: 28 <= k < 44 ==> b[k] == s[k] == s[28..44][k - 28];
    assert b[0..4] == s[0..4] == Le32(i.flags);
    assert b[4..8] == s[4..8] == Le32(i.memLower);
    assert b[8..12] == s[8..12] == Le32(i.memUpper);
    assert b[20..24] == s[20..24] == Le32(i.modsCount);
    assert b[24..28] == s[24..28] == Le32(i.modsAddr);
    assert b[44..48] == s[44..48] == Le32(i.mmapLength);
    assert b[48..52] == s[48..52] == Le32(i.mmapAddr);
    ReadBack32(b, 0, i.flags);
    ReadBack32(b, 4, i.memLower);
    ReadBack32(b, 8, i.memUpper);
    ReadBack32(b, 20, i.modsCount);
    ReadBack32(b, 24, i.modsAddr);
    ReadBack32(b, 44, i.mmapLength);
    ReadBack32(b, 48, i.mmapAddr);
  }

  /** A slot reads as its name, cut to 63 bytes. */
  lemma SlotReadsBack(b: seq<byte>, o: nat, name: seq<byte>)
    requires o + NAME_MAX <= |b| && b[o..o + NAME_MAX] == SlotBytes(name) && NoNul(name)
    ensures Terminated(b, o) && CStr(b, o) == name[..Min(|name|, NAME_MAX - 1)]
  {
    var s, kept := b[o..o + NAME_MAX], name[..Min(|name|, NAME_MAX - 1)];
    assert b[o..o + |kept|] == s[..|kept|] == kept;
    assert b[o + |kept|] == s[|kept|] == 0;
    CStrReadsBack(b, o, kept);
  }

  /** Module `i` of the table, its pointer followed to its name. */
  lemma ModuleReadsBack(b: seq<byte>, at: nat, modules: seq<Named>, i: nat)
    requires Reserved(at) && |b| == INFO_SIZE && i < ModuleCount(modules) && NoNul(modules[i].name)
    requires Holds(b[MODULES_AT..NAMES_AT], Flat(EntryBytes, Entries(modules, at)))
    requires Holds(b[NAMES_AT..MMAP_AT], Flat(SlotBytes, NamesOf(modules)))
    ensures var o, n := MODULES_AT + MODULE_ENTRY * i, NAMES_AT + NAME_MAX * i;
            && U32At(b, o + 8) == at + n && U32At(b, o + 12) == 0 && Terminated(b, n)
            && ModuleView(U32At(b, o), U32At(b, o + 4), CStr(b, n)) == ViewOf(modules[i])
  {
    hide EntryBytes, SlotBytes, U32At, Flat, Holds, NulFrom;
    var es, names := Entries(modules, at), NamesOf(modules);
    FlatAt(EntryBytes, es, MODULE_ENTRY, i);
    FlatAt(SlotBytes, names, NAME_MAX, i);
    PartBytes(b, MODULES_AT, NAMES_AT, Flat(EntryBytes, es), MODULE_ENTRY * i, MODULE_ENTRY);
    PartBytes(b, NAMES_AT, MMAP_AT, Flat(SlotBytes, names), NAME_MAX * i, NAME_MAX);
    EntryReadsBack(b, MODULES_AT + MODULE_ENTRY * i, es[i]);
    SlotReadsBack(b, NAMES_AT + NAME_MAX * i, names[i]);
  }

  lemma {:induction false} ModulesReadBack(b: seq<byte>, at: nat, modules: seq<Named>, k: nat)
    requires Reserved(at) && |b| == INFO_SIZE && k <= ModuleCount(modules)
    requires forall i :: 0 <= i < |modules| ==> NoNul(modules[i].name)
    requires Holds(b[MODULES_AT..NAMES_AT], Flat(EntryBytes, Entries(modules, at)))
    requires Holds(b[NAMES_AT..MMAP_AT], Flat(SlotBytes, NamesOf(modules)))
    ensures ReadModules(b, at, at + MODULES_AT + MODULE_ENTRY * k, ModuleCount(modules) - k)
            == Some(Views(modules)[k..])
    decreases ModuleCount(modules) - k
  {
    hide Holds, U32At, Terminated, CStr, Flat, Entries, NamesOf, ViewOf;
    if k < ModuleCount(modules) {
      ModuleReadsBack(b, at, modules, k);
      ModulesReadBack(b, at, modules, k + 1);
      assert Views(modules)[k..] == [ViewOf(modules[k])] + Views(modules)[k + 1..];
    }
  }

  lemma {:induction false} RegionsReadBack(b: seq<byte>, at: nat, rs: seq<Region>, k: nat)
    requires Reserved(at) && |b| == INFO_SIZE && k <= |rs| <= MMAP_MAX
    requires Holds(b[MMAP_AT..], Flat(RegionBytes, rs))
    ensures ReadRegions(b, at, at + MMAP_AT + MMAP_ENTRY * k, at + MMAP_AT + MMAP_ENTRY * |rs|) == Some(rs[k..])
    decreases |rs| - k
  {
    hide RegionBytes, U32At, U64At, Holds;
    if k < |rs| {
      FlatAt(RegionBytes, rs, MMAP_ENTRY, k);
      assert b[MMAP_AT..] == b[MMAP_AT..INFO_SIZE];
      PartBytes(b, MMAP_AT, INFO_SIZE, Flat(RegionBytes, rs), MMAP_ENTRY * k, MMAP_ENTRY);
      RegionReadsBack(b, MMAP_AT + MMAP_ENTRY * k, rs[k]);
      RegionsReadBack(b, at, rs, k + 1);
      assert rs[k..] == [rs[k]] + rs[k + 1..];
    }
  }
}
