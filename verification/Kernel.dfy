/** Loading a kernel image: which Multiboot header it carries, its ELF header, and
    the segments its program headers name. */
module Kernel {
  import opened Bytes
  import opened Machine
  import opened Elf

  /* ---- Multiboot header detection ---- */

  const MB1_HEADER_MAGIC: u32 := 0x1BAD_B002
  const MB2_HEADER_MAGIC: u32 := 0xE852_50D6

  function WrappingAdd(a: u32, b: u32): u32 { if a + b < TWO_32 then a + b else a + b - TWO_32 }

  /** Section 3.1 of the Multiboot2 specification: a header at an 8-aligned offset,
      whole within the first 32768 bytes, its four words summing to zero. */
  predicate Mb2HeaderAt(file: seq<byte>, k: nat)
  {
    var o := 8 * k;
    && o + 16 <= Min(|file|, 32768)
    && U32At(file, o) == 0xE852_50D6
    && (U32At(file, o) + U32At(file, o + 4) + U32At(file, o + 8) + U32At(file, o + 12)) % 0x1_0000_0000 == 0
  }

  /** Section 3.1.1 of the Multiboot specification: 4-aligned, within the first
      8192 bytes, three words. */
  predicate Mb1HeaderAt(file: seq<byte>, k: nat)
  {
    var o := 4 * k;
    && o + 12 <= Min(|file|, 8192)
    && U32At(file, o) == 0x1BAD_B002
    && (U32At(file, o) + U32At(file, o + 4) + U32At(file, o + 8)) % 0x1_0000_0000 == 0
  }

  ghost predicate HasMb2(file: seq<byte>) { exists k: nat :: Mb2HeaderAt(file, k) }

  ghost predicate HasMb1(file: seq<byte>) { exists k: nat :: Mb1HeaderAt(file, k) }

  lemma WrappingSum(a: u32, b: u32, c: u32, d: u32)
    ensures WrappingAdd(WrappingAdd(a, b), c) == 0 <==> (a + b + c) % TWO_32 == 0
    ensures WrappingAdd(WrappingAdd(WrappingAdd(a, b), c), d) == 0 <==> (a + b + c + d) % TWO_32 == 0
  {
    ZeroModulo(a + b + c);
    ZeroModulo(a + b + c + d);
  }

  lemma ZeroModulo(x: nat)
    requires x < 4 * TWO_32
    ensures x % TWO_32 == 0 <==> x == 0 || x == TWO_32 || x == 2 * TWO_32 || x == 3 * TWO_32
  {
  }

  method DetectMultibootVersion(file: seq<byte>) returns (version: u32)
    ensures version == if HasMb2(file) then 2 else if HasMb1(file) then 1 else 0
  {
    var mb2Limit := Min(|file|, 32768);
    var off, k := 0, 0;
    while off + 16 <= mb2Limit
      invariant off == 8 * k
      invariant forall j: nat :: j < k ==> !Mb2HeaderAt(file, j)
    {
      var magic := U32At(file, off);
      if magic == MB2_HEADER_MAGIC {
        var arch, hlen, chksum := U32At(file, off + 4), U32At(file, off + 8), U32At(file, off + 12);
        WrappingSum(magic, arch, hlen, chksum);
        if WrappingAdd(WrappingAdd(WrappingAdd(magic, arch), hlen), chksum) == 0 {
          assert Mb2HeaderAt(file, k);
          return 2;
        }
      }
      off, k := off + 8, k + 1;
    }
    assert !HasMb2(file);

    var mb1Limit := Min(|file|, 8192);
    off, k := 0, 0;
    while off + 12 <= mb1Limit
      invariant off == 4 * k
      invariant forall j: nat :: j < k ==> !Mb1HeaderAt(file, j)
    {
      var magic := U32At(file, off);
      if magic == MB1_HEADER_MAGIC {
        var flags, chksum := U32At(file, off + 4), U32At(file, off + 8);
        WrappingSum(magic, flags, chksum, 0);
        if WrappingAdd(WrappingAdd(magic, flags), chksum) == 0 {
          assert Mb1HeaderAt(file, k);
          return 1;
        }
      }
      off, k := off + 4, k + 1;
    }
    version := 0;
  }

  /* ---- 32-bit and 64-bit program headers ---- */

  /** A program header's fields; only some have their place in a 32-bit one. */
  datatype Fields = Fields(kind: u32, flags: u32, offset: u64, vaddr: u64, paddr: u64, filesz: u64, memsz: u64,
                           align: u64)
  {
    predicate Narrow() {
      && offset < TWO_32 && vaddr < TWO_32 && paddr < TWO_32 && filesz < TWO_32 && memsz < TWO_32 && align < TWO_32
    }

    /** It is loaded, and over address `a`. */
    predicate Over(a: nat) { kind == 1 && paddr <= a < paddr + memsz }
  }

  function Bytes32(h: Fields): (s: seq<byte>)
    ensures |s| == 32
  {
    Le32(h.kind) + Le32(Low32(h.offset)) + Le32(Low32(h.vaddr)) + Le32(Low32(h.paddr)) + Le32(Low32(h.filesz))
    + Le32(Low32(h.memsz)) + Le32(h.flags) + Le32(Low32(h.align))
  }

  function Bytes64(h: Fields): (s: seq<byte>)
    ensures |s| == 56
  {
    Le32(h.kind) + Le32(h.flags) + Le64(h.offset) + Le64(h.vaddr) + Le64(h.paddr) + Le64(h.filesz)
    + Le64(h.memsz) + Le64(h.align)
  }

  function HeaderOf(h: Fields): Header { Header(h.kind, Segment(h.paddr, h.memsz, h.offset, h.filesz)) }

  /** The segments a table of these headers asks for, from the `i`th header on. */
  function LoadsFrom(hs: seq<Fields>, i: nat): seq<Segment>
    requires i <= |hs|
    decreases |hs| - i
  {
    if i == |hs| then []
    else (if hs[i].kind == 1 then [HeaderOf(hs[i]).segment] else []) + LoadsFrom(hs, i + 1)
  }

  lemma Header32ReadsBack(file: seq<byte>, o: nat, h: Fields)
    requires o + 32 <= |file| && file[o..o + 32] == Bytes32(h) && h.Narrow()
    ensures HeaderAt(false, file, o) == HeaderOf(h)
  {
    hide Le32, U32At;
    var s := file[o..o + 32];
    SliceOfSlice(file, o, o + 32, 0, 4);
    SliceOfSlice(file, o, o + 32, 4, 8);
    SliceOfSlice(file, o, o + 32, 12, 16);
    SliceOfSlice(file, o, o + 32, 16, 20);
    SliceOfSlice(file, o, o + 32, 20, 24);
    assert s[0..4] == Le32(h.kind) && s[4..8] == Le32(h.offset) && s[12..16] == Le32(h.paddr);
    assert s[16..20] == Le32(h.filesz) && s[20..24] == Le32(h.memsz);
    ReadBack32(file, o, h.kind);
    ReadBack32(file, o + 4, h.offset);
    ReadBack32(file, o + 12, h.paddr);
    ReadBack32(file, o + 16, h.filesz);
    ReadBack32(file, o + 20, h.memsz);
  }

  lemma Header64ReadsBack(file: seq<byte>, o: nat, h: Fields)
    requires o + 56 <= |file| && file[o..o + 56] == Bytes64(h)
    ensures HeaderAt(true, file, o) == HeaderOf(h)
  {
    hide Le32, Le64, U32At, U64At;
    var s := file[o..o + 56];
    SliceOfSlice(file, o, o + 56, 0, 4);
    SliceOfSlice(file, o, o + 56, 8, 16);
    SliceOfSlice(file, o, o + 56, 24, 32);
    SliceOfSlice(file, o, o + 56, 32, 40);
    SliceOfSlice(file, o, o + 56, 40, 48);
    assert s[0..4] == Le32(h.kind) && s[8..16] == Le64(h.offset) && s[24..32] == Le64(h.paddr);
    assert s[32..40] == Le64(h.filesz) && s[40..48] == Le64(h.memsz);
    ReadBack32(file, o, h.kind);
    ReadBack64(file, o + 8, h.offset);
    ReadBack64(file, o + 24, h.paddr);
    ReadBack64(file, o + 32, h.filesz);
    ReadBack64(file, o + 40, h.memsz);
  }

  /** The file holds a whole table of these headers at `phoff`. */
  ghost predicate HoldsTable(is64: bool, file: seq<byte>, phoff: nat, hs: seq<Fields>)
  {
    && phoff + |hs| * HeaderSize(is64) <= |file|
    && forall i {:trigger hs[i]} :: 0 <= i < |hs| ==>
         && phoff + i * HeaderSize(is64) + HeaderSize(is64) <= |file|
         && HeaderAt(is64, file, phoff + i * HeaderSize(is64)) == HeaderOf(hs[i])
  }

  function TableBytes(is64: bool, hs: seq<Fields>): seq<byte>
  {
    if is64 then Flat(Bytes64, hs) else Flat(Bytes32, hs)
  }

  lemma TableLength(is64: bool, hs: seq<Fields>)
    ensures |TableBytes(is64, hs)| == |hs| * HeaderSize(is64)
  {
    hide Bytes32, Bytes64, Flat;
    if is64 { FlatLength(Bytes64, hs, 56); } else { FlatLength(Bytes32, hs, 32); }
  }

  lemma TableEntry(is64: bool, hs: seq<Fields>, i: nat)
    requires i < |hs|
    ensures var n, t := HeaderSize(is64), TableBytes(is64, hs);
            && i * n + n <= |t|
            && t[i * n..i * n + n] == if is64 then Bytes64(hs[i]) else Bytes32(hs[i])
  {
    hide Bytes32, Bytes64, Flat;
    if is64 { FlatAt(Bytes64, hs, 56, i); } else { FlatAt(Bytes32, hs, 32, i); }
  }

  /** Written out in either class's encoding, headers make such a table. */
  lemma TableEncodes(is64: bool, file: seq<byte>, phoff: nat, hs: seq<Fields>)
    requires var t := TableBytes(is64, hs); phoff + |t| <= |file| && file[phoff..phoff + |t|] == t
    requires is64 || forall i :: 0 <= i < |hs| ==> hs[i].Narrow()
    ensures HoldsTable(is64, file, phoff, hs)
  {
    hide Bytes32, Bytes64, HeaderAt, TableBytes, HeaderOf;
    var n, t := HeaderSize(is64), TableBytes(is64, hs);
    TableLength(is64, hs);
    forall i | 0 <= i < |hs|
      ensures phoff + i * n + n <= |file| && HeaderAt(is64, file, phoff + i * n) == HeaderOf(hs[i])
    {
      TableEntry(is64, hs, i);
      SliceOfSlice(file, phoff, phoff + |t|, i * n, i * n + n);
      if is64 { Header64ReadsBack(file, phoff + i * n, hs[i]); } else { Header32ReadsBack(file, phoff + i * n, hs[i]); }
    }
  }

  lemma {:induction false} TableLoads(is64: bool, file: seq<byte>, phoff: nat, hs: seq<Fields>, i: nat)
    requires HoldsTable(is64, file, phoff, hs) && i <= |hs|
    ensures Segments(is64, file, phoff, |hs|, i) == LoadsFrom(hs, i)
    decreases |hs| - i
  {
    hide HeaderAt;
    if i < |hs| {
      assert HeaderAt(is64, file, phoff + i * HeaderSize(is64)) == HeaderOf(hs[i]);
      TableLoads(is64, file, phoff, hs, i + 1);
    }
  }

  lemma {:induction false} SameImage(m: map<nat, byte>, segs: seq<Segment>, n: nat, file: seq<byte>, other: seq<byte>)
    requires n <= |segs| && WellFormed(segs, n, file) && WellFormed(segs, n, other)
    requires forall i :: 0 <= i < n ==>
               file[segs[i].offset..segs[i].offset + segs[i].filesz]
               == other[segs[i].offset..segs[i].offset + segs[i].filesz]
    ensures AppliedAll(m, segs, n, file) == AppliedAll(m, segs, n, other)
  {
    hide Stored;
    if n > 0 {
      SameImage(m, segs, n - 1, file, other);
    }
  }

  /** The bytes the segments take from the file are the same in both files. */
  ghost predicate SameData(segs: seq<Segment>, file: seq<byte>, other: seq<byte>)
  {
    && WellFormed(segs, |segs|, file) && WellFormed(segs, |segs|, other)
    && forall i :: 0 <= i < |segs| ==>
         file[segs[i].offset..segs[i].offset + segs[i].filesz]
         == other[segs[i].offset..segs[i].offset + segs[i].filesz]
  }

  /** A 32-bit table and the same headers widened to 64 bits name the same segments,
      in the same order, and so make the same image of the same file bytes. */
  lemma WideningKeepsImage(file32: seq<byte>, phoff32: nat, file64: seq<byte>, phoff64: nat, hs: seq<Fields>,
                           m: map<nat, byte>)
    requires var t := TableBytes(false, hs); phoff32 + |t| <= |file32| && file32[phoff32..phoff32 + |t|] == t
    requires var t := TableBytes(true, hs); phoff64 + |t| <= |file64| && file64[phoff64..phoff64 + |t|] == t
    requires forall i :: 0 <= i < |hs| ==> hs[i].Narrow()
    ensures Segments(true, file64, phoff64, |hs|, 0) == Segments(false, file32, phoff32, |hs|, 0)
    ensures var segs := Segments(false, file32, phoff32, |hs|, 0);
            SameData(segs, file32, file64) ==>
            AppliedAll(m, segs, |segs|, file32) == AppliedAll(m, segs, |segs|, file64)
  {
    hide HeaderAt, TableBytes, Segments, AppliedAll, HoldsTable;
    TableEncodes(false, file32, phoff32, hs);
    TableEncodes(true, file64, phoff64, hs);
    TableLoads(false, file32, phoff32, hs, 0);
    TableLoads(true, file64, phoff64, hs, 0);
    var segs := Segments(false, file32, phoff32, |hs|, 0);
    if SameData(segs, file32, file64) {
      SameImage(m, segs, |segs|, file32, file64);
    }
  }

  /* ---- the whole of a kernel file ---- */

  const ET_EXEC: u16 := 2
  const EM_386: u16 := 3
  const EM_X86_64: u16 := 62
  const ELFCLASS32: byte := 1
  const ELFCLASS64: byte := 2

  datatype BootMode = Protected32 | Long64

  /** The bootloader stops with a message, or has a kernel to start. */
  datatype Outcome = Stopped | Loaded(entry: u64, mbVersion: u32, mode: BootMode)

  predicate IsElf64(file: seq<byte>)
    requires 16 <= |file|
  {
    file[4] == ELFCLASS64
  }

  /** An executable for the right machine of one of the two classes, with a whole
      ELF header of that class. */
  predicate Executable(file: seq<byte>)
  {
    && 16 <= |file| && file[0] == 0x7F && file[1] == 0x45 && file[2] == 0x4C && file[3] == 0x46
    && (file[4] == ELFCLASS32 || file[4] == ELFCLASS64)
    && (if IsElf64(file) then 64 else 52) <= |file|
    && U16At(file, 16) == ET_EXEC
    && U16At(file, 18) == (if IsElf64(file) then EM_X86_64 else EM_386)
  }

  function SegmentsOf(file: seq<byte>): seq<Segment>
    requires Executable(file)
  {
    if IsElf64(file) then Segments(true, file, U64At(file, 32), U16At(file, 56), 0)
    else Segments(false, file, U32At(file, 28), U16At(file, 44), 0)
  }

  /** `load_kernel`, from the file's bytes on. A kernel comes of it only if the file
      is executable and every segment loaded, and then memory is the in-order image;
      with a fresh loader it comes of it exactly if the segments are loadable one after
      another, and no page is asked for twice. */
  method LoadKernel(loader: Loader, file: seq<byte>) returns (r: Outcome)
    requires loader.Valid() && |file| < TWO_64
    modifies loader, loader.records, loader.machine
    ensures loader.Valid()
    ensures r.Loaded? ==>
              && Executable(file)
              && WellFormed(SegmentsOf(file), |SegmentsOf(file)|, file)
              && loader.machine.mem
                 == AppliedAll(old(loader.machine.mem), SegmentsOf(file), |SegmentsOf(file)|, file)
              && r.entry == (if IsElf64(file) then U64At(file, 24) else U32At(file, 24))
              && r.mbVersion == (if HasMb2(file) then 2 else if HasMb1(file) then 1 else 0)
              && (r.mode == Long64 <==> file[4] == 2 && r.mbVersion == 0)
    ensures !Executable(file) ==> r.Stopped?
    ensures Executable(file) && old(Fresh(loader)) ==>
              var segs, free0 := SegmentsOf(file), old(loader.machine.free);
              && (r.Loaded? <==> Loadable(segs, |segs|, file, free0))
              && (r.Loaded? ==> Clean(loader, segs, |segs|, file, free0))
              && (r.Loaded? || NothingDropped(segs) ==> !loader.askedAgain)
  {
    hide Clean, NothingDropped, Loadable, AppliedAll, Segments, Loader.Valid, HasMb1, HasMb2;
    if |file| < 16 || file[0] != 0x7F || file[1] != 0x45 || file[2] != 0x4C || file[3] != 0x46 {
      return Stopped;
    }
    var mbVersion := DetectMultibootVersion(file);
    var elfClass := file[4];
    var ok, entry;
    if elfClass == ELFCLASS32 {
      if |file| < 52 || U16At(file, 16) != ET_EXEC || U16At(file, 18) != EM_386 {
        return Stopped;
      }
      ok := LoadTable(loader, false, file, U32At(file, 28), U16At(file, 44));
      entry := U32At(file, 24);
    } else if elfClass == ELFCLASS64 {
      if |file| < 64 || U16At(file, 16) != ET_EXEC || U16At(file, 18) != EM_X86_64 {
        return Stopped;
      }
      ok := LoadTable(loader, true, file, U64At(file, 32), U16At(file, 56));
      entry := U64At(file, 24);
    } else {
      return Stopped;
    }
    if !ok {
      return Stopped;
    }
    r := Loaded(entry, mbVersion,
                if mbVersion > 0 then Protected32 else if elfClass == ELFCLASS64 then Long64 else Protected32);
  }

  /* ---- a kernel file by its headers ---- */

  /** In bytes: the magic, the class, a whole header of it, and an executable for the
      class's machine. */
  lemma ExecutableMeans(file: seq<byte>)
    ensures Executable(file) <==>
            && 52 <= |file|
            && file[0] == 0x7F && file[1] == 0x45 && file[2] == 0x4C && file[3] == 0x46
            && file[16] == 2 && file[17] == 0 && file[19] == 0
            && ((file[4] == 1 && file[18] == 3) || (file[4] == 2 && file[18] == 62 && 64 <= |file|))
  {
  }

  /** An ELF header's fields after the class, but for type and machine. */
  datatype FileFields = FileFields(rest: seq<byte>, version: u32, entry: u64, phoff: u64, shoff: u64, flags: u32,
                                   ehsize: u16, phentsize: u16, phnum: u16, shentsize: u16, shnum: u16, shstrndx: u16)
  {
    predicate Valid(is64: bool) {
      |rest| == 11 && (is64 || (entry < TWO_32 && phoff < TWO_32 && shoff < TWO_32))
    }
  }

  /** The header of an executable: i386 in 32 bits, x86-64 in 64. */
  function HeaderBytes(is64: bool, h: FileFields): (s: seq<byte>)
    requires h.Valid(is64)
    ensures |s| == if is64 then 64 else 52
  {
    [0x7F, 0x45, 0x4C, 0x46, if is64 then 2 else 1] + h.rest + Le16(2) + Le16(if is64 then 62 else 3) + Le32(h.version)
    + (if is64 then Le64(h.entry) + Le64(h.phoff) + Le64(h.shoff)
       else Le32(h.entry) + Le32(h.phoff) + Le32(h.shoff))
    + Le32(h.flags) + Le16(h.ehsize) + Le16(h.phentsize) + Le16(h.phnum)
    + Le16(h.shentsize) + Le16(h.shnum) + Le16(h.shstrndx)
  }

  /** The file starts with that header, and has the table where the header says. */
  ghost predicate Describes(file: seq<byte>, is64: bool, h: FileFields, hs: seq<Fields>)
  {
    && h.Valid(is64) && h.phnum == |hs| && (is64 || forall i :: 0 <= i < |hs| ==> hs[i].Narrow())
    && HeaderBytes(is64, h) <= file
    && var t := TableBytes(is64, hs); h.phoff + |t| <= |file| && file[h.phoff..h.phoff + |t|] == t
  }

  lemma HeaderReadsBack(file: seq<byte>, is64: bool, h: FileFields)
    requires h.Valid(is64) && HeaderBytes(is64, h) <= file
    ensures file[0] == 0x7F && file[1] == 0x45 && file[2] == 0x4C && file[3] == 0x46
    ensures file[4] == (if is64 then 2 else 1)
    ensures U16At(file, 16) == 2 && U16At(file, 18) == (if is64 then 62 else 3)
    ensures if is64 then U64At(file, 24) == h.entry && U64At(file, 32) == h.phoff && U16At(file, 56) == h.phnum
            else U32At(file, 24) == h.entry && U32At(file, 28) == h.phoff && U16At(file, 44) == h.phnum
  {
    hide Le16, Le32, Le64, U16At, U32At, U64At;
    var s := HeaderBytes(is64, h);
    assert s[0] == 0x7F && s[1] == 0x45 && s[2] == 0x4C && s[3] == 0x46;
    assert file[16..18] == s[16..18] == Le16(2);
    assert file[18..20] == s[18..20] == Le16(if is64 then 62 else 3);
    ReadBack16(file, 16, 2);
    ReadBack16(file, 18, if is64 then 62 else 3);
    if is64 {
      assert file[24..32] == s[24..32] == Le64(h.entry);
      assert file[32..40] == s[32..40] == Le64(h.phoff);
      assert file[56..58] == s[56..58] == Le16(h.phnum);
      ReadBack64(file, 24, h.entry);
      ReadBack64(file, 32, h.phoff);
      ReadBack16(file, 56, h.phnum);
    } else {
      assert file[24..28] == s[24..28] == Le32(h.entry);
      assert file[28..32] == s[28..32] == Le32(h.phoff);
      assert file[44..46] == s[44..46] == Le16(h.phnum);
      ReadBack32(file, 24, h.entry);
      ReadBack32(file, 28, h.phoff);
      ReadBack16(file, 44, h.phnum);
    }
  }

  /** Such a file is executable, and its segments and entry are its headers'. */
  lemma DescribedFile(file: seq<byte>, is64: bool, h: FileFields, hs: seq<Fields>)
    requires Describes(file, is64, h, hs)
    ensures Executable(file) && SegmentsOf(file) == LoadsFrom(hs, 0)
    ensures (if IsElf64(file) then U64At(file, 24) else U32At(file, 24)) == h.entry
  {
    hide TableBytes, HoldsTable, Segments, U16At, U32At, U64At, HeaderBytes;
    HeaderReadsBack(file, is64, h);
    TableEncodes(is64, file, h.phoff, hs);
    TableLoads(is64, file, h.phoff, hs, 0);
  }

  /** The segment a header names can be loaded: its bytes are in the file and no more than
      it has in memory, it ends below 2^64, and its pages are free. */
  ghost predicate CanLoad(h: Fields, file: seq<byte>, free: set<nat>)
  {
    && h.filesz <= h.memsz && h.offset + h.filesz <= |file| && h.paddr + h.memsz < 0x1_0000_0000_0000_0000
    && (h.paddr + h.memsz <= 0xFFFF_FFFF_FFFF_F000 ==>
          forall p: nat :: 4096 * p < h.paddr + h.memsz && h.paddr < 4096 * (p + 1) ==> p in free)
  }

  /** Header `i` is the last over address `a`. */
  ghost predicate IsLastOver(hs: seq<Fields>, i: nat, a: nat)
  {
    i < |hs| && hs[i].Over(a) && forall j :: i < j < |hs| ==> !hs[j].Over(a)
  }

  ghost predicate NoneOver(hs: seq<Fields>, a: nat) { forall i :: 0 <= i < |hs| ==> !hs[i].Over(a) }

  /** The byte of a header's segment at `a`: from the file as far as that goes, and zero
      from there on. */
  ghost predicate ByteOf(h: Fields, file: seq<byte>, m: map<nat, byte>, a: nat)
    requires h.Over(a)
  {
    if a < h.paddr + h.filesz then
      h.offset + (a - h.paddr) < |file| && ByteIs(m, a, file[h.offset + (a - h.paddr)])
    else ByteIs(m, a, 0)
  }

  /** At address `a`: the byte of the last header over it, and what was there before if
      none is. */
  ghost predicate AsTold(hs: seq<Fields>, file: seq<byte>, m: map<nat, byte>, m': map<nat, byte>, a: nat)
  {
    && (forall i: nat :: IsLastOver(hs, i, a) ==> ByteOf(hs[i], file, m', a))
    && (NoneOver(hs, a) ==> Same(m, m', a))
  }

  lemma {:induction false} LoadsSnoc(hs: seq<Fields>, h: Fields, i: nat)
    requires i <= |hs|
    ensures LoadsFrom(hs + [h], i) == LoadsFrom(hs, i) + if h.kind == 1 then [HeaderOf(h).segment] else []
    decreases |hs| - i
  {
    if i < |hs| {
      LoadsSnoc(hs, h, i + 1);
    } else {
      assert LoadsFrom(hs + [h], |hs| + 1) == [];
    }
  }

  lemma {:induction false} AppliedOfPrefix(m: map<nat, byte>, segs: seq<Segment>, longer: seq<Segment>, n: nat,
                                           file: seq<byte>)
    requires segs <= longer && n <= |segs| && WellFormed(longer, n, file)
    ensures AppliedAll(m, segs, n, file) == AppliedAll(m, longer, n, file)
  {
    hide Segment.Applied;
    if n > 0 {
      AppliedOfPrefix(m, segs, longer, n - 1, file);
    }
  }

  lemma {:induction false} ImageAsTold(m: map<nat, byte>, hs: seq<Fields>, file: seq<byte>, a: nat)
    requires WellFormed(LoadsFrom(hs, 0), |LoadsFrom(hs, 0)|, file)
    ensures AsTold(hs, file, m, AppliedAll(m, LoadsFrom(hs, 0), |LoadsFrom(hs, 0)|, file), a)
    decreases |hs|
  {
    hide Segment.Applied, LoadsFrom, AppliedAll, AsTold, OneTold, Segment.WellFormed;
    if hs == [] {
      NothingLoaded(m, file, a);
    } else {
      var front, last := hs[..|hs| - 1], hs[|hs| - 1];
      var segs, before := LoadsFrom(hs, 0), LoadsFrom(front, 0);
      assert hs == front + [last];
      LoadsSnoc(front, last, 0);
      assert forall i :: 0 <= i < |before| ==> before[i] == segs[i];
      ImageAsTold(m, front, file, a);
      AppliedOfPrefix(m, before, segs, |before|, file);
      if last.kind == 1 {
        LastApplied(m, segs, file);
        AppliedTells(last, file, AppliedAll(m, segs, |before|, file), a);
      } else {
        NotOver(last, file, AppliedAll(m, segs, |before|, file), a);
      }
      TellsOn(front, last, file, m, AppliedAll(m, before, |before|, file), AppliedAll(m, segs, |segs|, file), a);
    }
  }

  lemma NothingLoaded(m: map<nat, byte>, file: seq<byte>, a: nat)
    ensures LoadsFrom([], 0) == [] && AsTold([], file, m, AppliedAll(m, [], 0, file), a)
  {
  }

  /** What loading one more header does at an address. */
  ghost predicate OneTold(h: Fields, file: seq<byte>, m: map<nat, byte>, m': map<nat, byte>, a: nat)
  {
    if h.Over(a) then ByteOf(h, file, m', a) else Same(m, m', a)
  }

  lemma AppliedTells(h: Fields, file: seq<byte>, m: map<nat, byte>, a: nat)
    requires h.kind == 1 && HeaderOf(h).segment.WellFormed(file)
    ensures OneTold(h, file, m, HeaderOf(h).segment.Applied(m, file), a)
  {
    hide Segment.Applied;
    AppliedBytes(HeaderOf(h).segment, m, file, a);
  }

  lemma NotOver(h: Fields, file: seq<byte>, m: map<nat, byte>, a: nat)
    requires h.kind != 1
    ensures OneTold(h, file, m, m, a)
  {
  }

  lemma LastApplied(m: map<nat, byte>, segs: seq<Segment>, file: seq<byte>)
    requires segs != [] && WellFormed(segs, |segs|, file)
    ensures AppliedAll(m, segs, |segs|, file) == segs[|segs| - 1].Applied(AppliedAll(m, segs, |segs| - 1, file), file)
  {
  }

  lemma TellsOn(front: seq<Fields>, last: Fields, file: seq<byte>, m: map<nat, byte>, m1: map<nat, byte>,
                m2: map<nat, byte>, a: nat)
    requires AsTold(front, file, m, m1, a)
    requires OneTold(last, file, m1, m2, a)
    ensures AsTold(front + [last], file, m, m2, a)
  {
    hide Fields.Over, IsLastOver, NoneOver;
    OneMoreOver(front, last, a);
    var hs := front + [last];
    assert forall i :: 0 <= i < |front| ==> hs[i] == front[i];
    assert hs[|front|] == last;
  }

  lemma OneMoreOver(front: seq<Fields>, last: Fields, a: nat)
    ensures var hs := front + [last];
            && (forall i: nat :: IsLastOver(hs, i, a) ==>
                  if last.Over(a) then i == |front| else i < |front| && IsLastOver(front, i, a))
            && (NoneOver(hs, a) ==> !last.Over(a) && NoneOver(front, a))
  {
    hide Fields.Over;
    var hs := front + [last];
    assert hs[|front|] == last;
    assert forall i :: 0 <= i < |front| ==> front[i] == hs[i];
  }

  lemma {:induction false} LoadFound(hs: seq<Fields>, i: nat, k: nat)
    requires i <= k < |hs| && hs[k].kind == 1
    ensures HeaderOf(hs[k]).segment in LoadsFrom(hs, i)
    decreases k - i
  {
    if i < k {
      LoadFound(hs, i + 1, k);
    }
  }

  lemma {:induction false} LoadOf(hs: seq<Fields>, i: nat, s: Segment) returns (k: nat)
    requires i <= |hs| && s in LoadsFrom(hs, i)
    ensures i <= k < |hs| && hs[k].kind == 1 && HeaderOf(hs[k]).segment == s
    decreases |hs| - i
  {
    k := i;
    if hs[i].kind != 1 || HeaderOf(hs[i]).segment != s {
      k := LoadOf(hs, i + 1, s);
    }
  }

  lemma CanLoadMeans(h: Fields, file: seq<byte>, free: set<nat>)
    ensures var s := HeaderOf(h).segment; CanLoad(h, file, free) <==> s.WellFormed(file) && s.Visited() <= free
  {
    hide Segment.Visited;
    var s := HeaderOf(h).segment;
    if h.paddr + h.memsz < TWO_64 {
      forall p: nat
        ensures p in s.Visited() <==>
                && s.paddr + s.memsz <= 0xFFFF_FFFF_FFFF_F000
                && 4096 * p < s.paddr + s.memsz && s.paddr < 4096 * (p + 1)
      {
        VisitedAre(s, p);
      }
    }
  }

  lemma AllCanLoad(hs: seq<Fields>, file: seq<byte>, free: set<nat>)
    requires NothingDropped(LoadsFrom(hs, 0))
    ensures Loadable(LoadsFrom(hs, 0), |LoadsFrom(hs, 0)|, file, free)
            <==> forall k :: 0 <= k < |hs| && hs[k].kind == 1 ==> CanLoad(hs[k], file, free)
  {
    hide CanLoad, Loadable, NothingDropped, LoadsFrom, Segment.Visited, Segment.WellFormed;
    var segs := LoadsFrom(hs, 0);
    CompleteUnlessDropped(segs, file, free);
    forall k | 0 <= k < |hs| && hs[k].kind == 1
      ensures HeaderOf(hs[k]).segment in segs
      ensures CanLoad(hs[k], file, free) <==>
              HeaderOf(hs[k]).segment.WellFormed(file) && HeaderOf(hs[k]).segment.Visited() <= free
    {
      LoadFound(hs, 0, k);
      CanLoadMeans(hs[k], file, free);
    }
    if forall k :: 0 <= k < |hs| && hs[k].kind == 1 ==> CanLoad(hs[k], file, free) {
      forall i | 0 <= i < |segs|
        ensures segs[i].WellFormed(file) && segs[i].Visited() <= free
      {
        var k := LoadOf(hs, 0, segs[i]);
        assert CanLoad(hs[k], file, free);
      }
    }
  }

  /** A file by its headers, for either class: it is loaded exactly if every header of kind
      1 can be (as long as no record is dropped), is entered where its header says, and
      leaves in memory what its program headers tell and nothing else. */
  method LoadDescribed(loader: Loader, file: seq<byte>, ghost is64: bool, ghost h: FileFields, ghost hs: seq<Fields>)
    returns (r: Outcome)
    requires loader.Valid() && Fresh(loader) && |file| < TWO_64 && Describes(file, is64, h, hs)
    modifies loader, loader.records, loader.machine
    ensures r.Loaded? ==>
              && r.entry == h.entry && (r.mode == Long64 <==> is64 && r.mbVersion == 0)
              && forall a :: AsTold(hs, file, old(loader.machine.mem), loader.machine.mem, a)
    ensures NothingDropped(LoadsFrom(hs, 0)) ==>
              (r.Loaded? <==> forall k :: 0 <= k < |hs| && hs[k].kind == 1 ==>
                                CanLoad(hs[k], file, old(loader.machine.free)))
  {
    hide Describes, Executable, IsElf64, SegmentsOf, AsTold, CanLoad, Loadable, NothingDropped, Clean, AppliedAll,
         LoadsFrom, Loader.Valid, HasMb1, HasMb2, U32At, U64At;
    ghost var mem0, free0, segs := loader.machine.mem, loader.machine.free, LoadsFrom(hs, 0);
    DescribedFile(file, is64, h, hs);
    DescribedClass(file, is64, h, hs);
    if NothingDropped(segs) {
      AllCanLoad(hs, file, free0);
    }
    r := LoadKernel(loader, file);
    if r.Loaded? {
      forall a: nat
        ensures AsTold(hs, file, mem0, loader.machine.mem, a)
      {
        ImageAsTold(mem0, hs, file, a);
      }
    }
  }

  lemma DescribedClass(file: seq<byte>, is64: bool, h: FileFields, hs: seq<Fields>)
    requires Describes(file, is64, h, hs)
    ensures 4 < |file| && (file[4] == 2 <==> is64)
  {
    HeaderReadsBack(file, is64, h);
  }
}
