/** `build_mb1_info`: the memory totals, the code that writes a Multiboot1
    structure, and what a reader of the result recovers. */
module Multiboot1Builder {
  import opened Bytes
  import opened MemoryMap
  import opened Names
  import opened Multiboot1

  const MIB: int := 0x10_0000

  /* ---- memory totals ---- */

  /** KiB of a descriptor's length, if a kernel may use it. */
  function UsableKiB(d: Descriptor): nat { if d.Available() then d.Length() / 1024 else 0 }

  /** Usable KiB based below 1 MiB, over the first `n` descriptors. */
  function LowKiB(ds: seq<Descriptor>, n: nat): nat
    requires n <= |ds|
  {
    if n == 0 then 0 else LowKiB(ds, n - 1) + if ds[n - 1].start < MIB then UsableKiB(ds[n - 1]) else 0
  }

  /** Usable KiB based at or above 1 MiB, from descriptor `from` up to the `n`th. */
  function HighKiB(ds: seq<Descriptor>, from: nat, n: nat): nat
    requires n <= |ds|
    decreases n
  {
    if n <= from then 0
    else HighKiB(ds, from, n - 1) + if MIB <= ds[n - 1].start then UsableKiB(ds[n - 1]) else 0
  }

  /** The first of the first `n` descriptors that is usable, not empty, and based
      at exactly 1 MiB; `n` if there is none. */
  function FirstAtMiB(ds: seq<Descriptor>, n: nat): (k: nat)
    requires n <= |ds|
    ensures k <= n
    ensures k < n ==> ds[k].start == MIB && UsableKiB(ds[k]) > 0
    ensures forall j :: 0 <= j < k ==> !(ds[j].start == MIB && UsableKiB(ds[j]) > 0)
  {
    if n == 0 then 0
    else
      var k := FirstAtMiB(ds, n - 1);
      if k < n - 1 || (ds[n - 1].start == MIB && UsableKiB(ds[n - 1]) > 0) then k else n
  }

  function MemLower(ds: seq<Descriptor>, n: nat): nat
    requires n <= |ds|
  {
    Min(640, LowKiB(ds, n))
  }

  function MemUpper(ds: seq<Descriptor>, n: nat): nat
    requires n <= |ds|
  {
    HighKiB(ds, FirstAtMiB(ds, n), n)
  }

  lemma {:induction false} HighKiBGrows(ds: seq<Descriptor>, from: nat, n: nat)
    requires from < n <= |ds| && MIB <= ds[from].start
    ensures UsableKiB(ds[from]) <= HighKiB(ds, from, n)
    decreases n
  {
    if from < n - 1 {
      HighKiBGrows(ds, from, n - 1);
    }
  }

  /** One turn of the loop adds to the running total what the closed form gains. */
  lemma MemUpperStep(ds: seq<Descriptor>, n: nat)
    requires n < |ds|
    ensures var d, sum := ds[n], MemUpper(ds, n);
            MemUpper(ds, n + 1)
            == sum + if d.start == MIB || (d.start > MIB && sum > 0) then UsableKiB(d) else 0
  {
    var k := FirstAtMiB(ds, n);
    if k < n {
      HighKiBGrows(ds, k, n);
    }
  }

  /** Neither running total can leave 64 bits: no descriptor of the recorded
      prefix adds 2^54 or more, and there are at most 573 of them. */
  lemma {:induction false} TotalsBounded(ds: seq<Descriptor>, from: nat, n: nat)
    requires n <= |ds|
    ensures LowKiB(ds, n) <= n * 0x40_0000_0000_0000
    ensures HighKiB(ds, from, n) <= n * 0x40_0000_0000_0000
    decreases n
  {
    if n > 0 {
      TotalsBounded(ds, from, n - 1);
    }
  }

  /** KiB of the regions a reader may use that are based at `lo` or above and below `hi`. */
  function Ram(rs: seq<Region>, lo: nat, hi: nat): nat
  {
    if rs == [] then 0
    else
      var r := rs[|rs| - 1];
      Ram(rs[..|rs| - 1], lo, hi) + if r.kind == 1 && lo <= r.base < hi then r.length / 1024 else 0
  }

  /** Usable, at exactly 1 MiB, and not empty: where memory above it begins to count. */
  predicate AtMiB(r: Region) { r.kind == 1 && r.base == 0x10_0000 && r.length >= 1024 }

  /** The totals a kernel reads are those of the very map it reads: below 1 MiB, at most
      640 KiB; above, everything from the first region at 1 MiB on, in 32 bits. */
  ghost predicate TotalsRead(v: View)
  {
    var rs := v.regions;
    && v.memLower == Min(640, Ram(rs, 0, 0x10_0000))
    && forall k: nat :: k <= |rs| && (forall j :: 0 <= j < k ==> !AtMiB(rs[j])) && (k < |rs| ==> AtMiB(rs[k])) ==>
         v.memUpper == Ram(rs[k..], 0x10_0000, 0x1_0000_0000_0000_0000) % 0x1_0000_0000
  }

  /** Every descriptor there is room for is told as it is: all of them, or the first 573. */
  ghost predicate MapRead(v: View, memory: seq<Descriptor>)
  {
    && |v.regions| == (if |memory| < 573 then |memory| else 573)
    && forall i :: 0 <= i < |v.regions| ==> ToldAs(v.regions[i], memory[i])
  }

  lemma MapTold(memory: seq<Descriptor>, modules: seq<Named>)
    ensures MapRead(Told(memory, modules), memory)
  {
    hide EfiMemtypeToMb, ToldAs, RegionOf, MemLower, MemUpper, Views;
    var rs := Told(memory, modules).regions;
    assert MMAP_MAX == 573;
    forall i | 0 <= i < |rs|
      ensures ToldAs(rs[i], memory[i])
    {
      RegionTold(memory[i]);
    }
  }

  lemma {:induction false} LowIsRam(ds: seq<Descriptor>, n: nat)
    requires n <= |ds|
    ensures LowKiB(ds, n) == Ram(Regions(ds[..n]), 0, 0x10_0000)
  {
    hide EfiMemtypeToMb;
    if n > 0 {
      LowIsRam(ds, n - 1);
      assert Regions(ds[..n])[..n - 1] == Regions(ds[..n - 1]);
    }
  }

  lemma {:induction false} HighIsRam(ds: seq<Descriptor>, from: nat, n: nat)
    requires from <= n <= |ds|
    ensures HighKiB(ds, from, n) == Ram(Regions(ds[..n])[from..], 0x10_0000, 0x1_0000_0000_0000_0000)
    decreases n
  {
    hide EfiMemtypeToMb;
    if from < n {
      HighIsRam(ds, from, n - 1);
      var rs := Regions(ds[..n])[from..];
      assert rs[..|rs| - 1] == Regions(ds[..n - 1])[from..];
      assert rs[|rs| - 1] == RegionOf(ds[n - 1]);
    }
  }

  lemma TotalsTold(memory: seq<Descriptor>, modules: seq<Named>)
    ensures TotalsRead(Told(memory, modules))
  {
    hide EfiMemtypeToMb, Views, LowKiB, HighKiB, Ram, Low32;
    var n := MmapCount(memory);
    var rs, first := Regions(memory[..n]), FirstAtMiB(memory, n);
    LowIsRam(memory, n);
    HighIsRam(memory, first, n);
    Low32Is(MemUpper(memory, n));
    forall k: nat | k <= n && (forall j :: 0 <= j < k ==> !AtMiB(rs[j])) && (k < n ==> AtMiB(rs[k]))
      ensures k == first
    {
      assert first < n ==> AtMiB(rs[first]);
      assert forall j :: 0 <= j < first ==> !AtMiB(rs[j]);
    }
  }

  /* ---- what is written ---- */

  function MmapCount(memory: seq<Descriptor>): nat { Min(|memory|, MMAP_MAX) }

  function InfoOf(memory: seq<Descriptor>, modules: seq<Named>, at: nat): Info
  {
    var n, count := MmapCount(memory), ModuleCount(modules);
    Info(0x41 + (if count > 0 then 0x08 else 0), MemLower(memory, n), Low32(MemUpper(memory, n)), count,
         if count > 0 then Low32(at + MODULES_AT) else 0, n * MMAP_ENTRY, Low32(at + MMAP_AT))
  }

  ghost predicate Built(b: seq<byte>, memory: seq<Descriptor>, modules: seq<Named>, at: nat)
  {
    LaidOut(b, InfoBytes(InfoOf(memory, modules, at)), Flat(EntryBytes, Entries(modules, at)),
            Flat(SlotBytes, NamesOf(modules)), Flat(RegionBytes, Regions(memory[..MmapCount(memory)])))
  }

  /** What a kernel is to find. */
  function Told(memory: seq<Descriptor>, modules: seq<Named>): View
  {
    var n := MmapCount(memory);
    View(MemLower(memory, n), Low32(MemUpper(memory, n)), Views(modules), Regions(memory[..n]))
  }

  lemma FlagsSay(count: nat)
    ensures var flags := 0x41 + (if count > 0 then 0x08 else 0);
            Flag(flags, INFO_MEMORY) && Flag(flags, INFO_MEM_MAP) && (Flag(flags, INFO_MODS) <==> count > 0)
  {
  }

  lemma ReadUnfolds(b: seq<byte>, at: nat, i: Info, modules: seq<ModuleView>, regions: seq<Region>)
    requires 52 <= |b| && b[..52] == InfoBytes(i)
    requires Flag(i.flags, INFO_MEMORY) && Flag(i.flags, INFO_MEM_MAP)
    requires if Flag(i.flags, INFO_MODS) then ReadModules(b, at, i.modsAddr, i.modsCount) == Some(modules)
             else modules == []
    requires ReadRegions(b, at, i.mmapAddr, i.mmapAddr + i.mmapLength) == Some(regions)
    ensures Read(b, at) == Some(View(i.memLower, i.memUpper, modules, regions))
  {
    hide InfoBytes, U32At, Flag, ReadModules, ReadRegions;
    InfoReadsBack(b, i);
  }

  /** The round trip: following the structure's pointers, which survive their 32
      bits because the block lies below 4 GiB, never leaves the block and recovers
      the first 32 modules and the first 573 regions. */
  lemma RoundTrip(b: seq<byte>, memory: seq<Descriptor>, modules: seq<Named>, at: nat)
    requires Reserved(at) && Built(b, memory, modules, at)
    requires forall i :: 0 <= i < |modules| ==> NoNul(modules[i].name)
    ensures Read(b, at) == Some(Told(memory, modules))
  {
    hide InfoBytes, EntryBytes, SlotBytes, RegionBytes, MemLower, MemUpper, Read, ReadModules, ReadRegions, Flag;
    var info, rs := InfoOf(memory, modules, at), Regions(memory[..MmapCount(memory)]);
    assert b[..MODULES_AT][..52] == b[..52];
    ModulesReadBack(b, at, modules, 0);
    RegionsReadBack(b, at, rs, 0);
    FlagsSay(ModuleCount(modules));
    assert Views(modules)[0..] == Views(modules) && rs[0..] == rs;
    ReadUnfolds(b, at, info, Views(modules), rs);
  }

  /** Where the parts lie in the block, by the numbers: the module table at 64, the names
      at 576 and every 64 bytes on, the map at 2624; no flag says more than that. */
  lemma PartsLie(b: seq<byte>, memory: seq<Descriptor>, modules: seq<Named>, at: nat, i: nat)
    requires Reserved(at) && Built(b, memory, modules, at)
    requires forall j :: 0 <= j < |modules| ==> NoNul(modules[j].name)
    ensures |b| == 16384
    ensures U32At(b, 0) == (if modules == [] then 0x41 else 0x49)
    ensures U32At(b, 20) == (if |modules| < 32 then |modules| else 32)
    ensures U32At(b, 24) == (if modules == [] then 0 else at + 64)
    ensures U32At(b, 44) == 24 * (if |memory| < 573 then |memory| else 573) && U32At(b, 48) == at + 2624
    ensures i < |modules| && i < 32 ==>
              U32At(b, 64 + 16 * i + 8) == at + 576 + 64 * i && U32At(b, 64 + 16 * i + 12) == 0
    ensures U32At(b, 12) == 0 && U32At(b, 16) == 0 && forall k :: 28 <= k < 44 ==> b[k] == 0
  {
    hide InfoBytes, EntryBytes, SlotBytes, RegionBytes, MemLower, MemUpper, Flat, U32At, Holds;
    InfoPart(b, InfoBytes(InfoOf(memory, modules, at)));
    InfoReadsBack(b, InfoOf(memory, modules, at));
    if i < |modules| && i < 32 {
      ModuleReadsBack(b, at, modules, i);
    }
  }

  lemma InfoPart(b: seq<byte>, info: seq<byte>)
    requires |b| == INFO_SIZE && Holds(b[..MODULES_AT], info) && |info| == 52
    ensures b[..52] == info
  {
    assert b[..MODULES_AT][..52] == b[..52];
  }

  /* ---- the code ---- */

  /** Writes on from the written part of `out[lo..hi]`, touching nothing outside. */
  method Lay(out: array<byte>, lo: nat, hi: nat, pos: nat, s: seq<byte>, ghost part: seq<byte>)
    requires lo <= hi <= out.Length && Holds(out[lo..hi], part)
    requires pos == lo + |part| && pos + |s| <= hi
    modifies out
    ensures Holds(out[lo..hi], part + s)
    ensures out[..lo] == old(out[..lo]) && out[hi..] == old(out[hi..])
  {
    hide Holds;
    HoldsAppend(out[lo..hi], part, s);
    ghost var was := out[..];
    Store(out, pos, s);
    SplicedPart(was, lo, hi, pos, s);
  }

  lemma SplicedPart(b: seq<byte>, lo: nat, hi: nat, pos: nat, s: seq<byte>)
    requires lo <= pos && pos + |s| <= hi <= |b|
    ensures var c := Splice(b, pos, s);
            c[lo..hi] == Splice(b[lo..hi], pos - lo, s) && c[..lo] == b[..lo] && c[hi..] == b[hi..]
  {
  }

  method LayMmap(out: array<byte>, pos: nat, s: seq<byte>,
                 ghost info: seq<byte>, ghost mods: seq<byte>, ghost names: seq<byte>, ghost mmap: seq<byte>)
    requires out.Length == INFO_SIZE && LaidOut(out[..], info, mods, names, mmap)
    requires pos == MMAP_AT + |mmap| && pos + |s| <= INFO_SIZE
    modifies out
    ensures LaidOut(out[..], info, mods, names, mmap + s)
  {
    hide Holds;
    ghost var was := out[..];
    assert was[MMAP_AT..] == out[MMAP_AT..INFO_SIZE];
    Lay(out, MMAP_AT, INFO_SIZE, pos, s, mmap);
    assert out[..][MMAP_AT..] == out[MMAP_AT..INFO_SIZE];
    Elsewhere(was, out[..], MMAP_AT, INFO_SIZE);
  }

  method LayMods(out: array<byte>, pos: nat, s: seq<byte>,
                 ghost info: seq<byte>, ghost mods: seq<byte>, ghost names: seq<byte>, ghost mmap: seq<byte>)
    requires out.Length == INFO_SIZE && LaidOut(out[..], info, mods, names, mmap)
    requires pos == MODULES_AT + |mods| && pos + |s| <= NAMES_AT
    modifies out
    ensures LaidOut(out[..], info, mods + s, names, mmap)
  {
    hide Holds;
    ghost var was := out[..];
    assert was[MODULES_AT..NAMES_AT] == out[MODULES_AT..NAMES_AT];
    Lay(out, MODULES_AT, NAMES_AT, pos, s, mods);
    assert out[..][MODULES_AT..NAMES_AT] == out[MODULES_AT..NAMES_AT];
    Elsewhere(was, out[..], MODULES_AT, NAMES_AT);
  }

  method LayNames(out: array<byte>, pos: nat, s: seq<byte>,
                  ghost info: seq<byte>, ghost mods: seq<byte>, ghost names: seq<byte>, ghost mmap: seq<byte>)
    requires out.Length == INFO_SIZE && LaidOut(out[..], info, mods, names, mmap)
    requires pos == NAMES_AT + |names| && pos + |s| <= MMAP_AT
    modifies out
    ensures LaidOut(out[..], info, mods, names + s, mmap)
  {
    hide Holds;
    ghost var was := out[..];
    assert was[NAMES_AT..MMAP_AT] == out[NAMES_AT..MMAP_AT];
    Lay(out, NAMES_AT, MMAP_AT, pos, s, names);
    assert out[..][NAMES_AT..MMAP_AT] == out[NAMES_AT..MMAP_AT];
    Elsewhere(was, out[..], NAMES_AT, MMAP_AT);
  }

  method LayInfo(out: array<byte>, s: seq<byte>,
                 ghost mods: seq<byte>, ghost names: seq<byte>, ghost mmap: seq<byte>)
    requires out.Length == INFO_SIZE && LaidOut(out[..], [], mods, names, mmap)
    requires |s| <= MODULES_AT
    modifies out
    ensures LaidOut(out[..], s, mods, names, mmap)
  {
    hide Holds;
    ghost var was := out[..];
    assert was[..MODULES_AT] == out[0..MODULES_AT];
    Lay(out, 0, MODULES_AT, 0, s, []);
    assert out[..][..MODULES_AT] == out[0..MODULES_AT];
    assert [] + s == s;
    Elsewhere(was, out[..], 0, MODULES_AT);
  }

  /** What is unchanged outside a part leaves the other three parts as they were. */
  lemma Elsewhere(b: seq<byte>, c: seq<byte>, lo: nat, hi: nat)
    requires |b| == |c| == INFO_SIZE && lo <= hi <= INFO_SIZE && b[..lo] == c[..lo] && b[hi..] == c[hi..]
    ensures MODULES_AT <= lo ==> c[..MODULES_AT] == b[..MODULES_AT]
    ensures NAMES_AT <= lo || hi <= MODULES_AT ==> c[MODULES_AT..NAMES_AT] == b[MODULES_AT..NAMES_AT]
    ensures MMAP_AT <= lo || hi <= NAMES_AT ==> c[NAMES_AT..MMAP_AT] == b[NAMES_AT..MMAP_AT]
    ensures hi <= MMAP_AT ==> c[MMAP_AT..] == b[MMAP_AT..]
  {
    assert forall k :: 0 <= k < lo ==> b[k] == b[..lo][k] && c[k] == c[..lo][k];
    assert forall k :: hi <= k < INFO_SIZE ==> b[k] == b[hi..][k - hi] && c[k] == c[hi..][k - hi];
  }

  /** The loop over the memory map: entries written, and totals kept. */
  method WriteMmap(out: array<byte>, memory: seq<Descriptor>) returns (mmapCount: nat, memLower: u64, memUpper: u64)
    requires out.Length == INFO_SIZE && LaidOut(out[..], [], [], [], [])
    modifies out
    ensures LaidOut(out[..], [], [], [], Flat(RegionBytes, Regions(memory[..MmapCount(memory)])))
    ensures mmapCount == MmapCount(memory)
    ensures memLower == LowKiB(memory, mmapCount) && memUpper == MemUpper(memory, mmapCount)
  {
    hide LaidOut, RegionBytes, LowKiB, MemUpper;
    memLower, memUpper, mmapCount := 0, 0, 0;
    TotalsStart(memory);
    assert Regions(memory[..0]) == [] && Flat(RegionBytes, []) == [];
    for i := 0 to |memory|
      invariant mmapCount == i <= MMAP_MAX
      invariant LaidOut(out[..], [], [], [], Flat(RegionBytes, Regions(memory[..mmapCount])))
      invariant memLower == LowKiB(memory, mmapCount) && memUpper == MemUpper(memory, mmapCount)
    {
      if mmapCount >= MMAP_MAX {
        break;
      }
      var desc := memory[i];
      var base, length, mbType := desc.start, desc.Length(), EfiMemtypeToMb(desc.ty);
      ghost var rs := Regions(memory[..i]);
      FlatLength(RegionBytes, rs, MMAP_ENTRY);
      var region := Region(base, length, mbType);
      LayMmap(out, MMAP_AT + MMAP_ENTRY * mmapCount, RegionBytes(region), [], [], [], Flat(RegionBytes, rs));
      assert Regions(memory[..i + 1]) == rs + [region];
      FlatSnoc(RegionBytes, rs, region);
      TotalsStep(memory, i);
      mmapCount := mmapCount + 1;
      if mbType == 1 {
        if base < MIB {
          memLower := memLower + length / 1024;
        } else if base == MIB || (base > MIB && memUpper > 0) {
          memUpper := memUpper + length / 1024;
        }
      }
    }
    assert mmapCount == MmapCount(memory);
  }

  lemma TotalsStart(ds: seq<Descriptor>)
    ensures LowKiB(ds, 0) == 0 && MemUpper(ds, 0) == 0
  {
  }

  lemma TotalsStep(ds: seq<Descriptor>, n: nat)
    requires n < |ds| && n < MMAP_MAX
    ensures LowKiB(ds, n + 1) == LowKiB(ds, n) + if ds[n].start < MIB then UsableKiB(ds[n]) else 0
    ensures var d, sum := ds[n], MemUpper(ds, n);
            MemUpper(ds, n + 1)
            == sum + if d.start == MIB || (d.start > MIB && sum > 0) then UsableKiB(d) else 0
    ensures LowKiB(ds, n + 1) < TWO_64 && MemUpper(ds, n + 1) < TWO_64
  {
    MemUpperStep(ds, n);
    TotalsBounded(ds, FirstAtMiB(ds, n + 1), n + 1);
  }

  /** Copies a name into its slot, leaving the slot's last byte zero. */
  method CopyName(out: array<byte>, slot: nat, names: array<byte>, nameAt: nat, ghost name: seq<byte>,
                  ghost mods: seq<byte>, ghost slots: seq<byte>, ghost mmap: seq<byte>)
    requires out.Length == INFO_SIZE && names != out
    requires Terminated(names[..], nameAt) && CStr(names[..], nameAt) == name
    requires LaidOut(out[..], [], mods, slots, mmap)
    requires slot == NAMES_AT + |slots| && slot + NAME_MAX <= MMAP_AT
    modifies out
    ensures LaidOut(out[..], [], mods, slots + SlotBytes(name), mmap)
  {
    hide LaidOut;
    var len := 0;
    assert slots + name[..0] == slots;
    while len < NAME_MAX - 1 && names[nameAt + len] != 0
      invariant len <= Min(|name|, NAME_MAX - 1)
      invariant LaidOut(out[..], [], mods, slots + name[..len], mmap)
      decreases NAME_MAX - len
    {
      NameUnits(names[..], nameAt, len);
      LayNames(out, slot + len, [names[nameAt + len]], [], mods, slots + name[..len], mmap);
      assert slots + name[..len] + [names[nameAt + len]] == slots + name[..len + 1];
      len := len + 1;
    }
    NameUnits(names[..], nameAt, len);
    assert len == Min(|name|, NAME_MAX - 1);
    NamesPadded(out[..], [], mods, slots + name[..len], mmap, NAME_MAX - len);
    assert slots + name[..len] + Zeros(NAME_MAX - len) == slots + SlotBytes(name);
  }

  /** The string at `o`, unit by unit, with the NUL after it. */
  lemma NameUnits(b: seq<byte>, o: nat, len: nat)
    requires Terminated(b, o) && len <= |CStr(b, o)|
    ensures o + len < |b|
    ensures len < |CStr(b, o)| ==> b[o + len] == CStr(b, o)[len] != 0
    ensures len == |CStr(b, o)| ==> b[o + len] == 0
  {
  }

  lemma NamesPadded(b: seq<byte>, info: seq<byte>, mods: seq<byte>, names: seq<byte>, mmap: seq<byte>, n: nat)
    requires LaidOut(b, info, mods, names, mmap) && NAMES_AT + |names| + n <= MMAP_AT
    ensures LaidOut(b, info, mods, names + Zeros(n), mmap)
  {
    HoldsSkip(b[NAMES_AT..MMAP_AT], names, n);
  }

  method WriteModules(out: array<byte>, at: nat, modules: seq<ModuleInfo>, names: array<byte>, namesAt: u64,
                      ghost named: seq<Named>, ghost mmap: seq<byte>)
    returns (count: nat)
    requires out.Length == INFO_SIZE && names != out && Reserved(at)
    requires |named| == |modules|
    requires forall i :: 0 <= i < |modules| ==> LeadsTo(modules[i], named[i], names[..], namesAt)
    requires LaidOut(out[..], [], [], [], mmap)
    modifies out
    ensures count == ModuleCount(named)
    ensures LaidOut(out[..], [], Flat(EntryBytes, Entries(named, at)), Flat(SlotBytes, NamesOf(named)), mmap)
  {
    hide LaidOut, EntryBytes, SlotBytes, Terminated, CStr, LeadsTo;
    count := Min(|modules|, MAX_MODULES);
    ghost var es, ns := Entries(named, at), NamesOf(named);
    assert Flat(EntryBytes, es[..0]) == [] && Flat(SlotBytes, ns[..0]) == [];
    hide Flat;
    for i := 0 to count
      invariant LaidOut(out[..], [], Flat(EntryBytes, es[..i]), Flat(SlotBytes, ns[..i]), mmap)
    {
      WriteModule(out, at, i, modules[i], names, namesAt, named[i],
                  Flat(EntryBytes, es[..i]), Flat(SlotBytes, ns[..i]), mmap, es[..i], ns[..i]);
      FlatPrefix(EntryBytes, es, i);
      FlatPrefix(SlotBytes, ns, i);
    }
    assert es[..count] == es && ns[..count] == ns;
  }

  /** One turn of the loop over the modules: the name's copy, then the entry. */
  method WriteModule(out: array<byte>, at: nat, i: nat, m: ModuleInfo, names: array<byte>, namesAt: u64,
                     ghost named: Named, ghost mods: seq<byte>, ghost slots: seq<byte>, ghost mmap: seq<byte>,
                     ghost es: seq<ModuleEntry>, ghost ns: seq<seq<byte>>)
    requires out.Length == INFO_SIZE && names != out && Reserved(at)
    requires LeadsTo(m, named, names[..], namesAt)
    requires |es| == |ns| == i < MAX_MODULES && mods == Flat(EntryBytes, es) && slots == Flat(SlotBytes, ns)
    requires LaidOut(out[..], [], mods, slots, mmap)
    modifies out
    ensures LaidOut(out[..], [],
                    mods + EntryBytes(ModuleEntry(Low32(named.start), Low32(named.start + named.size),
                                                  Low32(SlotAddr(at, i)))),
                    slots + SlotBytes(named.name), mmap)
  {
    hide LaidOut, EntryBytes, SlotBytes;
    FlatLength(EntryBytes, es, MODULE_ENTRY);
    FlatLength(SlotBytes, ns, NAME_MAX);
    var slot := NAMES_AT + i * NAME_MAX;
    CopyName(out, slot, names, m.namePtr - namesAt, named.name, mods, slots, mmap);
    var entry := ModuleEntry(Low32(m.physStart), Low32(m.physStart + m.size), Low32(at + slot));
    LayMods(out, MODULES_AT + i * MODULE_ENTRY, EntryBytes(entry), [], mods, slots + SlotBytes(named.name), mmap);
  }

  /** `build_mb1_info`: `named` is what the module records say once each name is
      followed into the table. */
  method BuildInfo(out: array<byte>, at: nat, memory: seq<Descriptor>, modules: seq<ModuleInfo>,
                   names: array<byte>, namesAt: u64, ghost named: seq<Named>)
    returns (addr: u32)
    requires out.Length == INFO_SIZE && Reserved(at) && names != out
    requires |named| == |modules|
    requires forall i :: 0 <= i < |modules| ==> LeadsTo(modules[i], named[i], names[..], namesAt)
    modifies out
    ensures addr == at
    ensures Built(out[..], memory, named, at)
    ensures Read(out[..], at) == Some(Told(memory, named))
    ensures MapRead(Read(out[..], at).value, memory) && TotalsRead(Read(out[..], at).value)
  {
    hide InfoBytes, LeadsTo, LowKiB, MemUpper, EntryBytes, SlotBytes, RegionBytes, Read, Told, MapRead,
         TotalsRead;
    Clear(out);
    assert LaidOut(out[..], [], [], [], []);
    var mmapCount, memLower, memUpper := WriteMmap(out, memory);
    ghost var mmap := Flat(RegionBytes, Regions(memory[..MmapCount(memory)]));
    if memLower > 640 {
      memLower := 640;
    }
    var flags := 0x41;
    var modCount := WriteModules(out, at, modules, names, namesAt, named, mmap);
    if modCount > 0 {
      flags := flags + INFO_MODS;
    }
    var info := Info(flags, Low32(memLower), Low32(memUpper), modCount,
                     if modCount > 0 then Low32(at + MODULES_AT) else 0, mmapCount * MMAP_ENTRY, Low32(at + MMAP_AT));
    assert info == InfoOf(memory, named, at);
    LayInfo(out, InfoBytes(info), Flat(EntryBytes, Entries(named, at)), Flat(SlotBytes, NamesOf(named)), mmap);
    NamedNoNul(modules, named, names[..], namesAt);
    RoundTrip(out[..], memory, named, at);
    MapTold(memory, named);
    TotalsTold(memory, named);
    addr := Low32(at);
  }
}
