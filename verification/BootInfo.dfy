/** From loaded modules to the kernel: the records and names kept of them are followed by
    the writers after the firmware is gone, and read back by the kernel. */
module BootInfo {
  import opened Bytes
  import opened Machine
  import opened MemoryMap
  import opened Names
  import opened Modules
  import M1 = Multiboot1
  import B1 = Multiboot1Builder
  import M2 = Multiboot2
  import B2 = Multiboot2Builder

  /** The modules to report, each with the part of its name there was room for in the
      table. */
  ghost function NamedModules(mods: seq<Module>): (named: seq<Named>)
    ensures |named| == |mods|
  {
    var names := AsciiNames(mods);
    seq(|mods|, i requires 0 <= i < |mods| => Named(Kept(names, i), mods[i].Start(), mods[i].file.size))
  }

  lemma RecordsFromEmpty(mods: seq<Module>, at: u64, i: nat)
    requires at + CAP <= TWO_64 && i < |mods|
    ensures var m := RecordsOf(mods, at, [])[i];
            && m.namePtr == at + Offset(AsciiNames(mods), i)
            && NamedModules(mods)[i] == Named(Kept(AsciiNames(mods), i), m.physStart, m.size)
  {
    hide RecordsOf, AsciiNames, Kept, Offset;
    assert [] + AsciiNames(mods) == AsciiNames(mods);
    RecordsPointAtNames(mods, at, [], i);
  }

  lemma RecordLeads(table: NameTable, mods: seq<Module>, i: nat)
    requires table.Valid() && table.stored == AsciiNames(mods) && i < |mods|
    ensures LeadsTo(RecordsOf(mods, table.at, [])[i], NamedModules(mods)[i], table.buf[..], table.at)
  {
    hide RecordsOf, AsciiNames, Kept, Offset, Packed, CStr, Terminated, LeadsTo, NamedModules;
    RecordsFromEmpty(mods, table.at, i);
    table.NamesSurvive(i);
    PointsAt(RecordsOf(mods, table.at, [])[i], NamedModules(mods)[i], table.buf[..], table.at,
             Offset(AsciiNames(mods), i));
  }

  lemma PointsAt(m: ModuleInfo, named: Named, b: seq<byte>, at: u64, o: nat)
    requires m.namePtr == at + o && Terminated(b, o) && named == Named(CStr(b, o), m.physStart, m.size)
    ensures LeadsTo(m, named, b, at)
  {
  }

  /** Loading leaves records that lead to exactly these modules. */
  lemma RecordsLead(table: NameTable, mods: seq<Module>)
    requires table.Valid() && table.stored == AsciiNames(mods)
    ensures forall i :: 0 <= i < |mods| ==>
              LeadsTo(RecordsOf(mods, table.at, [])[i], NamedModules(mods)[i], table.buf[..], table.at)
  {
    hide RecordsOf, AsciiNames, Packed, NulFrom, Terminated, NamedModules;
    forall i | 0 <= i < |mods|
      ensures LeadsTo(RecordsOf(mods, table.at, [])[i], NamedModules(mods)[i], table.buf[..], table.at)
    {
      RecordLeads(table, mods, i);
    }
  }

  /** A Multiboot2 kernel: module tag `i` of what it reads carries the `i`th loaded file's
      name, up to its first NUL and cut to the room left. */
  method TellMultiboot2(table: NameTable, modules: seq<ModuleInfo>, ghost mods: seq<Module>, out: array<byte>, at: nat,
                        memory: seq<Descriptor>, fb: Option<M2.FbInfo>, rsdp: Option<M2.Rsdp>)
    returns (addr: u32, ghost f: B2.Facts)
    requires table.Valid() && table.stored == AsciiNames(mods) && modules == RecordsOf(mods, table.at, [])
    requires out.Length == INFO_SIZE && Reserved(at) && table.buf != out
    modifies out
    ensures addr == at && f == B2.Facts(memory, fb, NamedModules(mods), rsdp)
    ensures M2.Read(out[..]) == M2.Walk(B2.Written(f), B2.EndFits(f))
    ensures forall i {:trigger NamedModules(mods)[i]} :: 0 <= i < B2.ModuleCount(f) ==>
              M2.Read(out[..]).tags[1 + i] == B2.ModuleTag(NamedModules(mods)[i])
  {
    hide LeadsTo, M2.Read, B2.Structure, Packed, B2.ModuleTag, B2.Written, B2.EndFits, AsciiNames, RecordsOf;
    RecordsLead(table, mods);
    f := B2.Facts(memory, fb, NamedModules(mods), rsdp);
    addr := B2.BuildInfo(out, at, memory, fb, modules, rsdp, table.buf, table.at, f);
    B2.WrittenModules(f);
  }

  /** A Multiboot1 kernel: the same names, cut further to 63 bytes. */
  method TellMultiboot1(table: NameTable, modules: seq<ModuleInfo>, ghost mods: seq<Module>, out: array<byte>, at: nat,
                        memory: seq<Descriptor>)
    returns (addr: u32)
    requires table.Valid() && table.stored == AsciiNames(mods) && modules == RecordsOf(mods, table.at, [])
    requires out.Length == INFO_SIZE && Reserved(at) && table.buf != out
    modifies out
    ensures addr == at
    ensures M1.Read(out[..], at) == Some(B1.Told(memory, NamedModules(mods)))
  {
    hide LeadsTo, M1.Read, B1.Told, Packed, AsciiNames, RecordsOf;
    RecordsLead(table, mods);
    addr := B1.BuildInfo(out, at, memory, modules, table.buf, table.at, NamedModules(mods));
  }

  /* ---- what a kernel finds where it is told to look ---- */

  /** The bytes from `start` up to `end` are the file's, an end told as zero standing for
      4 GiB. */
  ghost predicate Finds(mem: map<nat, byte>, start: u32, end: u32, file: File)
  {
    && file.Whole() && Lies(mem, start, file.Arrived())
    && start + |file.Arrived()| == if end == 0 then TWO_32 else end
  }

  /** A module's start is always told exactly; its end is, exactly when it lies
      below 4 GiB, and is told as zero when it lies at 4 GiB. */
  lemma ModuleToldExactly(mem: map<nat, byte>, mods: seq<Module>, pages: set<nat>, i: nat)
    requires InMemory(mem, mods, pages) && i < |mods|
    ensures var named := NamedModules(mods)[i];
            var start, end := Low32(named.start), Low32(named.start + named.size);
            && start == PAGE * mods[i].block.first
            && Finds(mem, start, end, mods[i].file)
            && (end == start + mods[i].file.size <==> start + mods[i].file.size < TWO_32)
            && (end == 0 <==> start + mods[i].file.size == TWO_32)
  {
    hide Lies, AsciiNames, Kept, File.Image, File.Arrived;
    var m := mods[i];
    SoundEnds(m);
    ImageHolds(mem, m.Start(), m.file);
  }

  lemma ImageHolds(mem: map<nat, byte>, at: nat, file: File)
    requires file.data.Some? && Lies(mem, at, file.Image())
    ensures Lies(mem, at, file.Arrived())
  {
    var image, s := file.Image(), file.Arrived();
    forall i | 0 <= i < |s|
      ensures ByteIs(mem, at + i, s[i])
    {
      assert ByteIs(mem, at + i, image[i]);
    }
  }

  lemma OnlyPagePlaced(file: File, place: Block)
    requires file.Wanted() && file.size == PAGE && Granted({LOW_PAGES - 1}, Entry(file), place)
    ensures place == Block(LOW_PAGES - 1, 1)
  {
    assert Run(LOW_PAGES - 1, 1) == {LOW_PAGES - 1};
    assert place.pages == 1 && place.first in place.Set();
  }

  /** It does happen: with only the last page below 4 GiB free, a module of one page is
      loaded there, and its end is told as zero. */
  method EndCanBeToldAsZero(fw: Firmware, table: NameTable, file: File)
    returns (r: Option<seq<ModuleInfo>>, ghost mods: seq<Module>)
    requires table.Valid() && table.stored == [] && fw.free == {LOW_PAGES - 1}
    requires file.Wanted() && file.Whole() && file.size == PAGE
    modifies table, table.buf, fw
    ensures r.Some? && |r.value| == |mods| == 1 && mods[0].file == file
    ensures Low32(r.value[0].physStart) == TWO_32 - PAGE && Low32(r.value[0].physStart + r.value[0].size) == 0
  {
    ghost var free0, mem0, places := fw.free, fw.mem, [];
    r, places, mods := LoadModules(fw, table, [Entry(file)]);
    hide OnlyIn, Lies, File.Arrived, File.Image, NameTable.Valid, InMemory, Granted, Run, NoRun;
    assert |places| > 0 ==> PlacedAt(free0, [Entry(file)], places, 0);
    assert |places| == 1 ==> Granted(free0, Entry(file), places[0]);
    if |places| == 1 {
      OnlyPagePlaced(file, places[0]);
    }
    assert Loaded([Entry(file)], places, 1) == Loaded([Entry(file)], places, 0) + [Module(file, places[0])];
  }
}
