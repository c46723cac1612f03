/** The whole of booting a Multiboot kernel, on one machine: its segments, its modules and
    what it is told of them, and what is in memory at the jump. */
module Launch {
  import opened Bytes
  import opened Machine
  import opened MemoryMap
  import opened Names
  import opened Modules
  import opened BootInfo
  import Elf
  import Kernel
  import M1 = Multiboot1
  import B1 = Multiboot1Builder
  import M2 = Multiboot2
  import B2 = Multiboot2Builder

  const MB1_BOOT_MAGIC: u32 := 0x2BAD_B002
  const MB2_BOOT_MAGIC: u32 := 0x36D7_6289
  const INFO_PAGES: nat := 4

  /** What there is to boot with: the kernel's file, the answers of its modules' directory,
      what the firmware knows of the screen and of ACPI, and its last memory map. */
  datatype Given = Given(file: seq<byte>, listing: seq<DirRead>, fb: Option<M2.FbInfo>, rsdp: Option<M2.Rsdp>,
                         memory: seq<Descriptor>)
  {
    ghost function Version(): u32 { if Kernel.HasMb2(file) then 2 else if Kernel.HasMb1(file) then 1 else 0 }

    function Entry(): u64
      requires Kernel.Executable(file)
    {
      if Kernel.IsElf64(file) then U64At(file, 24) else U32At(file, 24)
    }

    function Segments(): seq<Elf.Segment>
      requires Kernel.Executable(file)
    {
      Kernel.SegmentsOf(file)
    }
  }

  datatype Outcome =
    | Stopped
    | NoMemory
    | Jumped(mode: Kernel.BootMode, entry: u64, info: u64, magic: Option<u32>)

  /** Pages of the machine that are taken by the time of the jump: the kernel's, the
      modules' and the information block's. */
  datatype Claims = Claims(kernel: set<nat>, places: seq<Block>, info: Block)
  {
    function Modules(): set<nat> { Claimed(places, |places|) }
  }

  /** Everything is in memory: the kernel's image as it was loaded, each module whole in a
      block of its own below 4 GiB, and nothing shares a page with anything else. */
  ghost predicate Ready(g: Given, free0: set<nat>, mem0: map<nat, byte>, mem: map<nat, byte>, t: Claims,
                        mods: seq<Module>)
  {
    && Kernel.Executable(g.file)
    && var segs := g.Segments();
    && Elf.Loadable(segs, |segs|, g.file, free0) && Elf.WellFormed(segs, |segs|, g.file)
    && t.kernel == Elf.AllPages(segs, |segs|)
    && t.kernel !! t.Modules() && t.kernel !! t.info.Set() && t.Modules() !! t.info.Set()
    && t.kernel + t.Modules() + t.info.Set() <= free0
    && OnlyIn(Elf.AppliedAll(mem0, segs, |segs|, g.file), mem, t.Modules() + t.info.Set())
    && |t.places| <= |g.listing| && mods == Loaded(g.listing, t.places, |t.places|)
    && (|t.places| == |g.listing| || g.listing[|t.places|].ReadError?)
    && InMemory(mem, mods, t.Modules())
    && t.info.Low() && t.info.pages == 4
  }

  /** At `info` lies a block that reads as what the kernel is to be told. */
  ghost predicate Informed(g: Given, mem: map<nat, byte>, mods: seq<Module>, info: nat, bytes: seq<byte>)
  {
    && Lies(mem, info, bytes) && |bytes| == INFO_SIZE
    && if g.Version() == 1 then M1.Read(bytes, info) == Some(B1.Told(g.memory, NamedModules(mods)))
       else
         var f := if g.Version() == 2 then B2.Facts(g.memory, g.fb, NamedModules(mods), g.rsdp)
                  else B2.Facts(g.memory, None, NamedModules(mods), None);
         M2.Read(bytes) == M2.Walk(B2.Written(f), B2.EndFits(f))
  }

  lemma EverythingReady(g: Given, free0: set<nat>, free1: set<nat>, free2: set<nat>, mem0: map<nat, byte>,
                        image: map<nat, byte>, mem1: map<nat, byte>, mem: map<nat, byte>, t: Claims, mods: seq<Module>)
    requires Kernel.Executable(g.file) && Elf.Loadable(g.Segments(), |g.Segments()|, g.file, free0)
    requires Elf.WellFormed(g.Segments(), |g.Segments()|, g.file)
    requires image == Elf.AppliedAll(mem0, g.Segments(), |g.Segments()|, g.file)
    requires t.kernel == Elf.AllPages(g.Segments(), |g.Segments()|) <= free0 && free1 == free0 - t.kernel
    requires Underway(free1, free2, image, mem1, g.listing, t.places, mods)
    requires |t.places| == |g.listing| || g.listing[|t.places|].ReadError?
    requires t.info.Low() && t.info.pages == INFO_PAGES && t.info.Set() <= free2
    requires OnlyIn(mem1, mem, t.info.Set())
    ensures Ready(g, free0, mem0, mem, t, mods)
  {
    hide Elf.Loadable, Elf.AllPages, Elf.AppliedAll, Elf.WellFormed, Kernel.Executable, Kernel.SegmentsOf, InMemory,
         Loaded, Claimed, PlacedAt, NoneFails, OnlyIn, Run;
    OnlyInTwice(image, mem1, mem, t.Modules(), t.info.Set());
    InMemoryKept(mem1, mem, mods, t.Modules(), t.info.Set());
  }

  /** From the kernel's file to the jump. `out` stands for the information block's bytes
      until they are put where the block lies. */
  method BootMultiboot(loader: Elf.Loader, table: NameTable, g: Given, out: array<byte>)
    returns (r: Outcome, ghost t: Claims, ghost mods: seq<Module>)
    requires loader.Valid() && Elf.Fresh(loader) && |g.file| < TWO_64
    requires table.Valid() && table.stored == [] && out.Length == INFO_SIZE && table.buf != out
    modifies loader, loader.records, loader.machine, table, table.buf, out
    ensures r.Jumped? ==>
              && Ready(g, old(loader.machine.free), old(loader.machine.mem), loader.machine.mem, t, mods)
              && (r.mode == Kernel.Long64 <==> g.file[4] == 2 && g.Version() == 0)
    ensures r.Jumped? && r.mode == Kernel.Long64 ==> r.entry == g.Entry() && r.info == 0 && r.magic == None
    ensures r.Jumped? && r.mode == Kernel.Protected32 ==>
              && r.entry == Low32(g.Entry())
              && r.info == PAGE * t.info.first && Informed(g, loader.machine.mem, mods, r.info, out[..])
              && r.magic == Some(if g.Version() == 1 then 0x2BAD_B002 else 0x36D7_6289)
    ensures var free0 := old(loader.machine.free);
            if !Kernel.Executable(g.file) || !Elf.Loadable(g.Segments(), |g.Segments()|, g.file, free0) then r.Stopped?
            else
              var n := |t.places|;
              && t.kernel == Elf.AllPages(g.Segments(), |g.Segments()|) && n <= |g.listing|
              && (forall k :: 0 <= k < n ==> PlacedAt(free0 - t.kernel, g.listing, t.places, k))
              && (!r.Stopped? ==> NoneFails(g.listing, t.places) && (n == |g.listing| || g.listing[n].ReadError?))
              && (r.Stopped? <==> n > 0 && ReadFails(g.listing[n - 1], t.places[n - 1]))
              && (r.NoMemory? <==> !r.Stopped? && NoRun(free0 - t.kernel - t.Modules(), INFO_PAGES))
  {
    hide Elf.Loadable, Elf.AllPages, Elf.AppliedAll, Elf.WellFormed, Elf.NothingDropped, Elf.Loader.Valid,
         Kernel.HasMb1, Kernel.HasMb2, Kernel.Executable, Kernel.IsElf64, Kernel.SegmentsOf, InMemory, Loaded,
         Claimed, ReadFails, PlacedAt, OnlyIn, Lies, NoRun, NameTable.Valid, RecordsOf, AsciiNames, M1.Read, M2.Read,
         B1.Told, B2.Written, B2.EndFits, U32At, U64At, Run;
    ghost var free0, mem0 := loader.machine.free, loader.machine.mem;
    t, mods := Claims({}, [], NO_BLOCK), [];
    var kernel := Kernel.LoadKernel(loader, g.file);
    if kernel.Stopped? {
      return Stopped, t, mods;
    }
    var fw := loader.machine;
    ghost var image, free1 := fw.mem, fw.free;
    ghost var segs := g.Segments();
    t := t.(kernel := loader.owned);
    Elf.AllPagesFree(segs, |segs|, g.file, free0);
    var loaded;
    ghost var places;
    loaded, places, mods := LoadModules(fw, table, g.listing);
    t := t.(places := places);
    if loaded.None? {
      return Stopped, t, mods;
    }
    ghost var mem1, free2 := fw.mem, fw.free;
    var at;
    ghost var block;
    at, block := fw.AllocateLow(INFO_PAGES);
    t := t.(info := block);
    if at.None? {
      return NoMemory, t, mods;
    }
    if kernel.mode == Kernel.Long64 {
      NothingChanged(mem1, block.Set());
      EverythingReady(g, free0, free1, free2, mem0, image, mem1, mem1, t, mods);
      return Jumped(kernel.mode, kernel.entry, 0, None), t, mods;
    }
    var info, magic;
    if kernel.mbVersion == 1 {
      info := TellMultiboot1(table, loaded.value, mods, out, at.value, g.memory);
      magic := MB1_BOOT_MAGIC;
    } else {
      var fb, rsdp := if kernel.mbVersion == 2 then g.fb else None, if kernel.mbVersion == 2 then g.rsdp else None;
      ghost var f;
      info, f := TellMultiboot2(table, loaded.value, mods, out, at.value, g.memory, fb, rsdp);
      magic := MB2_BOOT_MAGIC;
    }
    fw.CopyTo(at.value, out[..]);
    StoredLies(mem1, at.value, out[..]);
    StoredOnlyIn(mem1, at.value, out[..], block);
    EverythingReady(g, free0, free1, free2, mem0, image, mem1, fw.mem, t, mods);
    r := Jumped(kernel.mode, Low32(kernel.entry), info, Some(magic));
  }

  /* ---- what the kernel finds ---- */

  lemma {:induction false} SegmentOwned(segs: seq<Elf.Segment>, n: nat, k: nat)
    requires k < n <= |segs|
    ensures segs[k].Visited() <= Elf.AllPages(segs, n)
  {
    if k < n - 1 {
      SegmentOwned(segs, n - 1, k);
    }
  }

  lemma PageInside(s: Elf.Segment, a: nat)
    requires s.paddr <= a < s.paddr + s.memsz
    ensures s.FirstPage() <= PageOf(a) < s.EndPage()
  {
    var d := s.paddr % PAGE + (a - s.paddr);
    assert a == PAGE * s.FirstPage() + d;
  }

  /** At the jump every byte of the image is as loaded: the last segment over an address
      decides it, unless that segment's end does not round up in 64 bits. What is neither
      the kernel's, nor a module's, nor the block's is as it was before. */
  lemma KernelIntact(g: Given, free0: set<nat>, mem0: map<nat, byte>, mem: map<nat, byte>, t: Claims,
                     mods: seq<Module>, a: nat)
    requires Ready(g, free0, mem0, mem, t, mods)
    ensures var segs := g.Segments();
            match Elf.LastOver(segs, |segs|, a)
            case Some(k) => segs[k].RoundsUp() ==> ByteIs(mem, a, segs[k].ByteAt(g.file, a))
            case None => PageOf(a) !in t.Modules() + t.info.Set() ==> Same(mem0, mem, a)
  {
    hide Kernel.Executable, Kernel.SegmentsOf, Elf.AllPages, Elf.AppliedAll, Elf.Loadable, InMemory, Loaded, Claimed,
         Run, PageOf;
    var segs := g.Segments();
    var image := Elf.AppliedAll(mem0, segs, |segs|, g.file);
    Elf.ImageBytes(mem0, segs, |segs|, g.file, a);
    match Elf.LastOver(segs, |segs|, a)
    case Some(k) =>
      if segs[k].RoundsUp() {
        Elf.LoopEndExact(segs[k], g.file);
        SegmentOwned(segs, |segs|, k);
        PageInside(segs[k], a);
        assert Same(image, mem, a);
      }
    case None =>
      assert PageOf(a) in t.Modules() + t.info.Set() || Same(image, mem, a);
  }

  /** The same by the file's own headers: at the jump memory holds what they tell, byte by
      byte, and the entry is theirs. */
  lemma KernelAsTold(g: Given, free0: set<nat>, mem0: map<nat, byte>, mem: map<nat, byte>, t: Claims,
                     mods: seq<Module>, is64: bool, h: Kernel.FileFields, hs: seq<Kernel.Fields>, a: nat)
    requires Ready(g, free0, mem0, mem, t, mods) && Kernel.Describes(g.file, is64, h, hs)
    requires forall k :: 0 <= k < |hs| && hs[k].Over(a) ==> hs[k].paddr + hs[k].memsz <= 0xFFFF_FFFF_FFFF_F000
    requires PageOf(a) in t.Modules() + t.info.Set() ==> exists k :: 0 <= k < |hs| && hs[k].Over(a)
    ensures Kernel.AsTold(hs, g.file, mem0, mem, a) && g.Entry() == h.entry
  {
    hide Kernel.Executable, Kernel.SegmentsOf, Elf.AllPages, Elf.AppliedAll, Elf.Loadable, Elf.WellFormed, InMemory,
         Loaded, Claimed, Run, Kernel.Describes, Kernel.AsTold, Elf.Segment.Visited, Kernel.LoadsFrom;
    Kernel.DescribedFile(g.file, is64, h, hs);
    var segs := g.Segments();
    var image := Elf.AppliedAll(mem0, segs, |segs|, g.file);
    Kernel.ImageAsTold(mem0, hs, g.file, a);
    if k :| 0 <= k < |hs| && hs[k].Over(a) {
      var s := Kernel.HeaderOf(hs[k]).segment;
      Kernel.LoadFound(hs, 0, k);
      var i :| 0 <= i < |segs| && segs[i] == s;
      SegmentOwned(segs, |segs|, i);
      OverVisited(hs[k], a);
    }
    assert Same(image, mem, a);
    ToldStill(hs, g.file, mem0, image, mem, a);
  }

  lemma OverVisited(h: Kernel.Fields, a: nat)
    requires h.Over(a) && h.paddr + h.memsz <= 0xFFFF_FFFF_FFFF_F000
    ensures PageOf(a) in Kernel.HeaderOf(h).segment.Visited()
  {
    Elf.VisitedAre(Kernel.HeaderOf(h).segment, PageOf(a));
  }

  lemma ToldStill(hs: seq<Kernel.Fields>, file: seq<byte>, m0: map<nat, byte>, m1: map<nat, byte>, m2: map<nat, byte>,
                  a: nat)
    requires Kernel.AsTold(hs, file, m0, m1, a) && Same(m1, m2, a)
    ensures Kernel.AsTold(hs, file, m0, m2, a)
  {
  }

  /** How many modules are told does not depend on the tags after them. */
  lemma SameModules(g: Given, mods: seq<Named>, f: B2.Facts)
    requires f.memory == g.memory && f.modules == mods
    ensures B2.ModuleCount(f) == B2.ModuleCount(B2.Facts(g.memory, None, mods, None))
  {
  }

  /** A Multiboot2 kernel that follows module tag `i` to where it points finds there the
      `i`th loaded file, under that file's name. */
  lemma ModulesFound2(g: Given, free0: set<nat>, mem0: map<nat, byte>, mem: map<nat, byte>, t: Claims,
                      mods: seq<Module>, info: nat, bytes: seq<byte>, i: nat)
    requires Ready(g, free0, mem0, mem, t, mods) && Informed(g, mem, mods, info, bytes) && g.Version() != 1
    requires i < B2.ModuleCount(B2.Facts(g.memory, None, NamedModules(mods), None))
    ensures M2.Read(bytes).Walk? && 1 + i < |M2.Read(bytes).tags|
    ensures var tag := M2.Read(bytes).tags[1 + i];
            && tag.Module? && tag.name == Kept(AsciiNames(mods), i)
            && Finds(mem, tag.start, tag.end, mods[i].file)
  {
    hide InMemory, Elf.Loadable, Elf.AllPages, Elf.AppliedAll, Elf.WellFormed, Kernel.Executable, Loaded, Claimed,
         Lies, OnlyIn, Run, M2.Read, B2.Written, B2.EndFits, Kept, AsciiNames, B2.ModuleCount, Finds;
    var f := if g.Version() == 2 then B2.Facts(g.memory, g.fb, NamedModules(mods), g.rsdp)
             else B2.Facts(g.memory, None, NamedModules(mods), None);
    SameModules(g, NamedModules(mods), f);
    B2.WrittenModules(f);
    ModuleToldExactly(mem, mods, t.Modules(), i);
  }

  /** So does a Multiboot1 kernel, for the first thirty-two and with names cut to 63. */
  lemma ModulesFound1(g: Given, free0: set<nat>, mem0: map<nat, byte>, mem: map<nat, byte>, t: Claims,
                      mods: seq<Module>, info: nat, bytes: seq<byte>, i: nat)
    requires Ready(g, free0, mem0, mem, t, mods) && Informed(g, mem, mods, info, bytes) && g.Version() == 1
    requires i < Min(|mods|, 32)
    ensures M1.Read(bytes, info).Some? && |M1.Read(bytes, info).value.modules| == Min(|mods|, 32)
    ensures var view, name := M1.Read(bytes, info).value.modules[i], Kept(AsciiNames(mods), i);
            view.name == name[..Min(|name|, 63)] && Finds(mem, view.start, view.end, mods[i].file)
  {
    hide InMemory, Elf.Loadable, Elf.AllPages, Elf.AppliedAll, Elf.WellFormed, Kernel.Executable, Loaded, Claimed,
         Lies, OnlyIn, Run, M1.Read, B1.MemLower, B1.MemUpper, Kept, AsciiNames, Finds;
    ModuleToldExactly(mem, mods, t.Modules(), i);
  }
}
