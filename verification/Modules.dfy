/** Loading a directory's files as boot modules: which become modules, where they go,
    what is then in memory, and the records and names kept of them. */
module Modules {
  import opened Bytes
  import opened Machine
  import opened Names

  /** One file of the directory: what the firmware says of it, and what one read of it
      delivers, None being a read that fails. */
  datatype File = File(isDirectory: bool, name: seq<u16>, size: u64, opens: bool, data: Option<seq<byte>>)
  {
    /** Pages are asked for to load it. */
    predicate Wanted() { !isDirectory && size != 0 && opens }

    function Pages(): nat { PagesFor(size) }

    /** No more arrives than the buffer takes, which is whole pages. */
    function Arrived(): (s: seq<byte>)
      requires data.Some?
      ensures |s| <= PAGE * Pages()
    {
      data.value[..Min(|data.value|, PAGE * Pages())]
    }

    predicate Whole() { data.Some? && |Arrived()| == size }

    /** The pages it is read into, and zeros where nothing was read. */
    function Image(): (s: seq<byte>)
      requires data.Some?
      ensures |s| == PAGE * Pages()
    {
      Arrived() + Zeros(PAGE * Pages() - |Arrived()|)
    }
  }

  /** A file that was loaded, and where. */
  datatype Module = Module(file: File, block: Block)
  {
    function Start(): u64 { Low64(PAGE * block.first) }

    /** It is whole, and lies where the firmware was asked to put it: below 4 GiB. */
    predicate Sound(): (yes: bool)
      ensures yes ==> file.data.Some?
    {
      file.Wanted() && file.Whole() && block.pages == file.Pages() > 0 && block.Low()
    }
  }

  lemma SoundEnds(m: Module)
    requires m.Sound()
    ensures m.Start() == PAGE * m.block.first && m.Start() > 0
    ensures m.Start() + m.file.size <= m.Start() + |m.file.Image()| == PAGE * (m.block.first + m.block.pages) <= TWO_32
    ensures m.block.Covers(m.Start(), |m.file.Image()|)
  {
  }

  /** One answer to "what is next in the directory"; it ends with the list of them. */
  datatype DirRead = NameTooLong | ReadError | Entry(file: File)
  {
    predicate Wanted() { Entry? && file.Wanted() }
  }

  /* ---- what the firmware grants ---- */

  /** Pages are granted for an answer exactly if it is a file to load and enough of them
      are free in one run below 4 GiB. */
  ghost predicate Granted(free: set<nat>, answer: DirRead, place: Block)
  {
    if answer.Wanted() && !NoRun(free, answer.file.Pages()) then
      place.pages == answer.file.Pages() && place.Low() && place.Set() <= free
    else place == NO_BLOCK
  }

  /** The pages granted for the first `n` answers. */
  function Claimed(places: seq<Block>, n: nat): set<nat>
    requires n <= |places|
  {
    if n == 0 then {} else Claimed(places, n - 1) + places[n - 1].Set()
  }

  ghost predicate PlacedAt(free0: set<nat>, listing: seq<DirRead>, places: seq<Block>, k: nat)
    requires k < |places| <= |listing|
  {
    Granted(free0 - Claimed(places, k), listing[k], places[k])
  }

  /** A file was to be read into its pages, and the read failed. */
  predicate ReadFails(answer: DirRead, place: Block)
  {
    answer.Wanted() && answer.file.data.None? && place.pages > 0
  }

  predicate Loads(answer: DirRead, place: Block)
  {
    answer.Wanted() && answer.file.Whole() && place.pages > 0
  }

  /** Which files become modules: those that are no directory, not empty, open, are given
      pages, and are read to their full length; and a read of one that fails stops it all.
      What then lies in memory is what was read, and zeros to the end of the last page. */
  lemma LoadsMeans(file: File, place: Block)
    requires file.data.Some? ==> |file.data.value| <= 4096 * file.Pages()
    ensures Entry(file).Wanted() <==> !file.isDirectory && file.size > 0 && file.opens
    ensures Loads(Entry(file), place) <==>
            && !file.isDirectory && file.size > 0 && file.opens && place.pages > 0
            && file.data.Some? && |file.data.value| == file.size
    ensures ReadFails(Entry(file), place) <==>
            !file.isDirectory && file.size > 0 && file.opens && place.pages > 0 && file.data == None
    ensures file.data.Some? ==>
              && file.Arrived() == file.data.value
              && file.Image() == file.data.value + Zeros(4096 * file.Pages() - |file.data.value|)
    ensures 4096 * file.Pages() < file.size + 4096 && file.size <= 4096 * file.Pages()
    ensures !Loads(NameTooLong, place) && !NameTooLong.Wanted() && !Loads(ReadError, place)
  {
  }

  /** The files that become modules among the first `n` answers. */
  function Loaded(listing: seq<DirRead>, places: seq<Block>, n: nat): seq<Module>
    requires n <= |places| <= |listing|
  {
    if n == 0 then []
    else
      Loaded(listing, places, n - 1)
      + if Loads(listing[n - 1], places[n - 1]) then [Module(listing[n - 1].file, places[n - 1])] else []
  }

  lemma {:induction false} OfPrefix(listing: seq<DirRead>, places: seq<Block>, longer: seq<Block>, n: nat)
    requires n <= |places| <= |longer| <= |listing| && places <= longer
    ensures Claimed(longer, n) == Claimed(places, n)
    ensures Loaded(listing, longer, n) == Loaded(listing, places, n)
  {
    if n > 0 {
      OfPrefix(listing, places, longer, n - 1);
    }
  }

  lemma PlacesGrow(free0: set<nat>, listing: seq<DirRead>, was: seq<Block>, block: Block)
    requires |was| < |listing| && Granted(free0 - Claimed(was, |was|), listing[|was|], block)
    requires forall k :: 0 <= k < |was| ==> PlacedAt(free0, listing, was, k)
    ensures var now := was + [block];
            && (forall k :: 0 <= k < |now| ==> PlacedAt(free0, listing, now, k))
            && Claimed(now, |now|) == Claimed(was, |was|) + block.Set()
            && Loaded(listing, now, |now|) == Loaded(listing, was, |was|)
               + if Loads(listing[|was|], block) then [Module(listing[|was|].file, block)] else []
  {
    hide Granted, Loads, Claimed, Loaded;
    var now := was + [block];
    forall k | 0 <= k < |now|
      ensures PlacedAt(free0, listing, now, k)
    {
      OfPrefix(listing, was, now, Min(k, |was|));
      assert k < |was| ==> PlacedAt(free0, listing, was, k);
    }
    OfPrefix(listing, was, now, |was|);
    Grown(listing, now, |was|);
  }

  lemma Grown(listing: seq<DirRead>, places: seq<Block>, n: nat)
    requires n < |places| <= |listing|
    ensures Claimed(places, n + 1) == Claimed(places, n) + places[n].Set()
    ensures Loaded(listing, places, n + 1) == Loaded(listing, places, n)
            + if Loads(listing[n], places[n]) then [Module(listing[n].file, places[n])] else []
  {
  }

  /* ---- what is kept of them ---- */

  function AsciiNames(mods: seq<Module>): (names: seq<seq<byte>>)
    ensures |names| == |mods|
  {
    if mods == [] then [] else AsciiNames(mods[..|mods| - 1]) + [Ascii(mods[|mods| - 1].file.name)]
  }

  /** The records of `mods`, loaded in this order after the names `before`. */
  function RecordsOf(mods: seq<Module>, at: u64, before: seq<seq<byte>>): (records: seq<ModuleInfo>)
    requires at + CAP <= TWO_64
    ensures |records| == |mods|
  {
    if mods == [] then []
    else
      var last := mods[|mods| - 1];
      var names := before + AsciiNames(mods);
      RecordsOf(mods[..|mods| - 1], at, before)
      + [ModuleInfo(at + Offset(names, |names| - 1), last.Start(), last.file.size)]
  }

  lemma OneMoreModule(mods: seq<Module>, m: Module, at: u64, before: seq<seq<byte>>)
    requires at + CAP <= TWO_64
    ensures var names := before + AsciiNames(mods) + [Ascii(m.file.name)];
            && before + AsciiNames(mods + [m]) == names
            && RecordsOf(mods + [m], at, before)
               == RecordsOf(mods, at, before) + [ModuleInfo(at + Offset(names, |names| - 1), m.Start(), m.file.size)]
  {
    var all := mods + [m];
    assert all[..|all| - 1] == mods;
    assert before + AsciiNames(all) == before + AsciiNames(mods) + [Ascii(m.file.name)];
  }

  /** Index by index: a module's record points at its own name in the finished run, and
      says where it lies. */
  lemma {:induction false} RecordsPointAtNames(mods: seq<Module>, at: u64, before: seq<seq<byte>>, i: nat)
    requires at + CAP <= TWO_64 && i < |mods|
    ensures var m, names := RecordsOf(mods, at, before)[i], before + AsciiNames(mods);
            && m.namePtr == at + Offset(names, |before| + i)
            && names[|before| + i] == Ascii(mods[i].file.name)
            && m.physStart == mods[i].Start() && m.size == mods[i].file.size
    decreases |mods|
  {
    var front := mods[..|mods| - 1];
    if i < |front| {
      RecordsPointAtNames(front, at, before, i);
      TotalOfPrefix(before + AsciiNames(front), before + AsciiNames(mods), |before| + i);
    }
  }

  /** The end of the loop's body: a file that loaded gets its name stored and its
      record appended. */
  method RecordModule(table: NameTable, file: File, start: u64, modules: seq<ModuleInfo>,
                      ghost m: Module, ghost before: seq<seq<byte>>, ghost mods: seq<Module>)
    returns (more: seq<ModuleInfo>)
    requires table.Valid() && table.stored == before + AsciiNames(mods)
    requires modules == RecordsOf(mods, table.at, before) && m.file == file && m.Start() == start
    modifies table, table.buf
    ensures table.Valid() && table.stored == before + AsciiNames(mods + [m])
    ensures more == RecordsOf(mods + [m], table.at, before)
  {
    OneMoreModule(mods, m, table.at, before);
    var ptr := table.StoreName(file.name);
    more := modules + [ModuleInfo(ptr, start, file.size)];
  }

  /* ---- memory ---- */

  /** Every module lies whole in a block of its own, all of them among these pages. */
  ghost predicate InMemory(mem: map<nat, byte>, mods: seq<Module>, pages: set<nat>)
  {
    && (forall i {:trigger mods[i]} :: 0 <= i < |mods| ==>
          mods[i].Sound() && mods[i].block.Set() <= pages && Lies(mem, mods[i].Start(), mods[i].file.Image()))
    && forall i, j :: 0 <= i < j < |mods| ==> mods[i].block.Set() !! mods[j].block.Set()
  }

  lemma InMemoryKept(mem: map<nat, byte>, mem': map<nat, byte>, mods: seq<Module>, pages: set<nat>, more: set<nat>)
    requires InMemory(mem, mods, pages) && OnlyIn(mem, mem', more) && more !! pages
    ensures InMemory(mem', mods, pages)
  {
    hide Lies, OnlyIn, Module.Sound, Module.Start, File.Image;
    forall i | 0 <= i < |mods|
      ensures mods[i].Sound() && mods[i].block.Set() <= pages
      ensures Lies(mem', mods[i].Start(), mods[i].file.Image())
    {
      SoundEnds(mods[i]);
      LiesKept(mem, mem', more, mods[i].block, mods[i].Start(), mods[i].file.Image());
    }
  }

  lemma OneMoreInMemory(mem: map<nat, byte>, mods: seq<Module>, pages: set<nat>, m: Module)
    requires InMemory(mem, mods, pages) && m.block.Set() !! pages
    requires m.Sound() && Lies(mem, m.Start(), m.file.Image())
    ensures InMemory(mem, mods + [m], pages + m.block.Set())
  {
    hide Lies, Module.Sound, Module.Start, File.Image, Run;
  }

  lemma MorePages(mem: map<nat, byte>, mods: seq<Module>, pages: set<nat>, more: set<nat>)
    requires InMemory(mem, mods, pages)
    ensures InMemory(mem, mods, pages + more)
  {
    hide Lies, Module.Sound, Module.Start, File.Image;
  }

  /** Zeroes the pages and reads the file into them. */
  method ReadInto(fw: Firmware, file: File, start: nat, ghost block: Block)
    requires file.data.Some? && start == PAGE * block.first && block.pages == file.Pages()
    modifies fw`mem
    ensures Lies(fw.mem, start, file.Image()) && OnlyIn(old(fw.mem), fw.mem, block.Set())
  {
    hide Stored, Lies, OnlyIn, PagesFor, File.Arrived;
    var n := PAGE * file.Pages();
    ghost var m0 := fw.mem;
    fw.Clear(start, n);
    ghost var m1 := fw.mem;
    StoredLies(m0, start, Zeros(n));
    StoredOnlyIn(m0, start, Zeros(n), block);
    fw.CopyTo(start, file.Arrived());
    LiesSpliced(m1, start, Zeros(n), 0, file.Arrived());
    StoredOnlyIn(m1, start, file.Arrived(), block);
    OnlyInTwice(m0, m1, fw.mem, block.Set(), block.Set());
    assert Splice(Zeros(n), 0, file.Arrived()) == file.Image();
  }

  /** One answer: pages for a file to load, and the file read into them. */
  method LoadEntry(fw: Firmware, answer: DirRead) returns (got: Option<u64>, failed: bool, ghost block: Block)
    modifies fw
    ensures block.Set() <= old(fw.free) && fw.free == old(fw.free) - block.Set()
    ensures Granted(old(fw.free), answer, block)
    ensures OnlyIn(old(fw.mem), fw.mem, block.Set())
    ensures failed <==> ReadFails(answer, block)
    ensures got.Some? <==> Loads(answer, block)
    ensures got.Some? ==> answer.Entry?
    ensures got.Some? ==>
              var m := Module(answer.file, block);
              m.Sound() && got.value == m.Start() && Lies(fw.mem, m.Start(), m.file.Image())
  {
    hide Run, NoRun, Lies, OnlyIn, File.Arrived, File.Image;
    got, failed, block := None, false, NO_BLOCK;
    NothingChanged(fw.mem, block.Set());
    if !answer.Wanted() {
      return;
    }
    var file := answer.file;
    var start;
    start, block := fw.AllocateLow(file.Pages());
    if start.None? {
      return;
    }
    if file.data.None? {
      NothingChanged(fw.mem, block.Set());
      failed := true;
      return;
    }
    ReadInto(fw, file, start.value, block);
    if |file.Arrived()| != file.size {
      return;
    }
    SoundEnds(Module(file, block));
    got := Some(start.value);
  }

  /** The first answers have been taken: pages were granted for each that is a file to
      load, as long as there were any, and memory has changed in those pages only. */
  ghost predicate Taken(free0: set<nat>, free: set<nat>, mem0: map<nat, byte>, mem: map<nat, byte>,
                        listing: seq<DirRead>, places: seq<Block>)
  {
    var n := |places|;
    && n <= |listing|
    && (forall k :: 0 <= k < n ==> !listing[k].ReadError? && PlacedAt(free0, listing, places, k))
    && Claimed(places, n) <= free0 && free == free0 - Claimed(places, n)
    && OnlyIn(mem0, mem, Claimed(places, n))
  }

  ghost predicate NoneFails(listing: seq<DirRead>, places: seq<Block>)
    requires |places| <= |listing|
  {
    forall k :: 0 <= k < |places| ==> !ReadFails(listing[k], places[k])
  }

  lemma OneMoreTaken(free0: set<nat>, free1: set<nat>, free: set<nat>, mem0: map<nat, byte>, mem1: map<nat, byte>,
                     mem: map<nat, byte>, listing: seq<DirRead>, was: seq<Block>, block: Block)
    requires Taken(free0, free1, mem0, mem1, listing, was) && |was| < |listing| && !listing[|was|].ReadError?
    requires Granted(free1, listing[|was|], block) && block.Set() <= free1 && free == free1 - block.Set()
    requires OnlyIn(mem1, mem, block.Set())
    ensures Taken(free0, free, mem0, mem, listing, was + [block])
    ensures NoneFails(listing, was + [block]) <==> NoneFails(listing, was) && !ReadFails(listing[|was|], block)
    ensures Claimed(was + [block], |was| + 1) == Claimed(was, |was|) + block.Set()
    ensures Loaded(listing, was + [block], |was| + 1) == Loaded(listing, was, |was|)
            + if Loads(listing[|was|], block) then [Module(listing[|was|].file, block)] else []
  {
    hide OnlyIn, Granted, ReadFails, Loads, Claimed, Loaded, PlacedAt, Run;
    PlacesGrow(free0, listing, was, block);
    OnlyInTwice(mem0, mem1, mem, Claimed(was, |was|), block.Set());
  }

  /** The answers taken so far, what became of them, and where it is. */
  ghost predicate Underway(free0: set<nat>, free: set<nat>, mem0: map<nat, byte>, mem: map<nat, byte>,
                           listing: seq<DirRead>, places: seq<Block>, mods: seq<Module>)
  {
    && Taken(free0, free, mem0, mem, listing, places) && NoneFails(listing, places)
    && mods == Loaded(listing, places, |places|) && InMemory(mem, mods, Claimed(places, |places|))
  }

  /** One turn of the loop. */
  method TakeEntry(fw: Firmware, table: NameTable, answer: DirRead, modules: seq<ModuleInfo>,
                   ghost free0: set<nat>, ghost mem0: map<nat, byte>, ghost listing: seq<DirRead>,
                   ghost places: seq<Block>, ghost mods: seq<Module>, ghost before: seq<seq<byte>>)
    returns (more: seq<ModuleInfo>, failed: bool, ghost now: seq<Block>, ghost all: seq<Module>)
    requires table.Valid() && |places| < |listing| && answer == listing[|places|] && !answer.ReadError?
    requires Underway(free0, fw.free, mem0, fw.mem, listing, places, mods)
    requires table.stored == before + AsciiNames(mods) && modules == RecordsOf(mods, table.at, before)
    modifies table, table.buf, fw
    ensures table.Valid()
    ensures |now| == |places| + 1 && now[..|places|] == places
    ensures failed <==> ReadFails(answer, now[|places|])
    ensures Taken(free0, fw.free, mem0, fw.mem, listing, now)
    ensures !failed ==>
              && Underway(free0, fw.free, mem0, fw.mem, listing, now, all)
              && table.stored == before + AsciiNames(all) && more == RecordsOf(all, table.at, before)
  {
    hide OnlyIn, Granted, ReadFails, Loads, InMemory, RecordsOf, AsciiNames, NameTable.Valid, Module.Sound, Loaded,
         Claimed, Taken, NoneFails, Lies, Run, File.Image, Module.Start, File.Whole, DirRead.Wanted;
    ghost var m1, free1, claimed := fw.mem, fw.free, Claimed(places, |places|);
    TakenLeft(free0, free1, mem0, m1, listing, places);
    var got;
    ghost var block;
    got, failed, block := LoadEntry(fw, answer);
    more, all, now := modules, mods, places + [block];
    OneMoreTaken(free0, free1, fw.free, mem0, m1, fw.mem, listing, places, block);
    InMemoryKept(m1, fw.mem, mods, claimed, block.Set());
    if got.Some? {
      ghost var m := Module(answer.file, block);
      OneMoreInMemory(fw.mem, mods, claimed, m);
      more := RecordModule(table, answer.file, got.value, modules, m, before, mods);
      all := mods + [m];
    } else {
      MorePages(fw.mem, mods, claimed, block.Set());
    }
  }

  /** `load_modules`, from the directory's answers on: None if a read fails, which stops
      the bootloader. `places` are the pages granted for each answer it got to. */
  method LoadModules(fw: Firmware, table: NameTable, listing: seq<DirRead>)
    returns (r: Option<seq<ModuleInfo>>, ghost places: seq<Block>, ghost mods: seq<Module>)
    requires table.Valid()
    modifies table, table.buf, fw
    ensures table.Valid()
    ensures Taken(old(fw.free), fw.free, old(fw.mem), fw.mem, listing, places)
    ensures r.None? ==>
              var n := |places| - 1;
              n >= 0 && NoneFails(listing, places[..n]) && ReadFails(listing[n], places[n])
    ensures r.Some? ==>
              && Underway(old(fw.free), fw.free, old(fw.mem), fw.mem, listing, places, mods)
              && (|places| == |listing| || listing[|places|].ReadError?)
              && table.stored == old(table.stored) + AsciiNames(mods)
              && r.value == RecordsOf(mods, table.at, old(table.stored))
  {
    hide Underway, Taken, NoneFails, ReadFails, RecordsOf, AsciiNames, NameTable.Valid;
    var modules := [];
    places, mods := [], [];
    ghost var before, free0, m0 := table.stored, fw.free, fw.mem;
    NothingTaken(free0, m0, listing, table.at, before);
    for k := 0 to |listing|
      invariant table.Valid() && |places| == k
      invariant Underway(free0, fw.free, m0, fw.mem, listing, places, mods)
      invariant table.stored == before + AsciiNames(mods) && modules == RecordsOf(mods, table.at, before)
    {
      UnderwayTaken(free0, fw.free, m0, fw.mem, listing, places, mods);
      if listing[k].ReadError? {
        break;
      }
      var more, failed, now, all :=
        TakeEntry(fw, table, listing[k], modules, free0, m0, listing, places, mods, before);
      if failed {
        return None, now, mods;
      }
      modules, places, mods := more, now, all;
    }
    UnderwayTaken(free0, fw.free, m0, fw.mem, listing, places, mods);
    r := Some(modules);
  }

  lemma UnderwayTaken(free0: set<nat>, free: set<nat>, mem0: map<nat, byte>, mem: map<nat, byte>,
                      listing: seq<DirRead>, places: seq<Block>, mods: seq<Module>)
    requires Underway(free0, free, mem0, mem, listing, places, mods)
    ensures Taken(free0, free, mem0, mem, listing, places) && NoneFails(listing, places)
  {
  }

  lemma NothingTaken(free: set<nat>, mem: map<nat, byte>, listing: seq<DirRead>, at: u64, before: seq<seq<byte>>)
    requires at + CAP <= TWO_64
    ensures Underway(free, free, mem, mem, listing, [], [])
    ensures before + AsciiNames([]) == before && RecordsOf([], at, before) == []
  {
  }

  lemma TakenLeft(free0: set<nat>, free: set<nat>, mem0: map<nat, byte>, mem: map<nat, byte>,
                  listing: seq<DirRead>, places: seq<Block>)
    requires Taken(free0, free, mem0, mem, listing, places)
    ensures free !! Claimed(places, |places|)
  {
  }
}
