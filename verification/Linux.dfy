/** Booting Linux through the EFI handover protocol: where the pieces of a bzImage
    go, and every byte of the page that tells the kernel about them. */
module Linux {
  import opened Bytes
  import opened Machine

  const SETUP_SECTS: nat := 0x1F1
  const BOOT_FLAG: nat := 0x1FE
  const HEADER_LENGTH: nat := 0x201
  const HEADER_MAGIC: nat := 0x202
  const VERSION: nat := 0x206
  const TYPE_OF_LOADER: nat := 0x210
  const LOADFLAGS: nat := 0x211
  const CODE32_START: nat := 0x214
  const RAMDISK_IMAGE: nat := 0x218
  const RAMDISK_SIZE: nat := 0x21C
  const CMD_LINE_PTR: nat := 0x228
  const KERNEL_ALIGNMENT: nat := 0x230
  const RELOCATABLE: nat := 0x234
  const XLOADFLAGS: nat := 0x236
  const CMDLINE_SIZE: nat := 0x238
  const PREF_ADDRESS: nat := 0x258
  const INIT_SIZE: nat := 0x260
  const HANDOVER_OFFSET: nat := 0x264

  const BOOT_FLAG_MAGIC: u16 := 0xAA55
  const HDRS_MAGIC: u32 := 0x5372_6448
  const MIN_VERSION: u16 := 0x020B
  const LOADER_UNKNOWN: byte := 0xFF
  const HANDOVER_64_OFFSET: nat := 512
  const PARAMS_SIZE: nat := 4096

  datatype Status = NotFound | LoadError | Unsupported | OutOfResources

  /* ---- reading a file that may come in pieces ---- */

  datatype ReadAnswer = Read(n: nat) | Failed

  /** Bytes the firmware delivers from its `k`th answer on, while `left` are asked
      for: it never delivers more than that, and an empty or failed read ends it. */
  function Delivered(answers: nat -> ReadAnswer, k: nat, left: nat): (total: nat)
    ensures total <= left
    decreases left
  {
    if left == 0 then 0
    else match answers(k)
      case Failed => 0
      case Read(n) => if n == 0 then 0 else Min(n, left) + Delivered(answers, k + 1, left - Min(n, left))
  }

  function Sum(ns: seq<nat>): nat { if ns == [] then 0 else ns[0] + Sum(ns[1..]) }

  /** Reads that are not empty add up, however short each is: once they come to what was
      asked for that much is delivered, and an empty or failed read before then leaves it
      at what they came to. */
  lemma {:induction false} ReadsAddUp(answers: nat -> ReadAnswer, k: nat, left: nat, ns: seq<nat>)
    requires forall j :: 0 <= j < |ns| ==> ns[j] > 0 && answers(k + j) == Read(ns[j])
    ensures left <= Sum(ns) ==> Delivered(answers, k, left) == left
    ensures Sum(ns) < left && (answers(k + |ns|) == Failed || answers(k + |ns|) == Read(0)) ==>
              Delivered(answers, k, left) == Sum(ns)
    decreases |ns|
  {
    if ns != [] && left > 0 {
      assert answers(k) == answers(k + 0) == Read(ns[0]);
      assert forall j :: 0 <= j < |ns[1..]| ==> answers(k + 1 + j) == answers(k + (1 + j)) == Read(ns[1..][j]);
      assert answers(k + 1 + |ns[1..]|) == answers(k + |ns|);
      ReadsAddUp(answers, k + 1, left - Min(ns[0], left), ns[1..]);
    }
  }

  /** A file on the boot volume: its bytes, and how the firmware answers reads of it. */
  datatype OnDisk = OnDisk(content: seq<byte>, answers: nat -> ReadAnswer)

  /** What comes of reading a file, None standing for one that could not be opened. */
  function FileRead(file: Option<OnDisk>): Option<seq<byte>>
  {
    match file
    case None => None
    case Some(OnDisk(content, answers)) =>
      if Delivered(answers, 0, |content|) == |content| then Some(content) else None
  }

  /** `read_file`: the whole file, or nothing; never a file with zeros where a short
      read stopped. */
  method ReadFile(file: Option<OnDisk>) returns (r: Option<seq<byte>>)
    ensures r == FileRead(file)
  {
    if file.None? {
      return None;
    }
    var OnDisk(content, answers) := file.value;
    var size := |content|;
    var buf := Zeros(size);
    var done, k := 0, 0;
    while done < size
      invariant done <= size == |buf| && buf[..done] == content[..done]
      invariant done + Delivered(answers, k, size - done) == Delivered(answers, 0, size)
      decreases size - done
    {
      match answers(k) {
        case Failed => break;
        case Read(n) =>
          if n == 0 {
            break;
          }
          var got := Min(n, size - done);
          buf := buf[..done] + content[done..done + got] + buf[done + got..];
          done, k := done + got, k + 1;
      }
    }
    if done != size {
      return None;
    }
    assert buf == buf[..done] == content[..done] == content;
    r := Some(buf);
  }

  /* ---- the setup header ---- */

  function SetupSects(image: seq<byte>): nat
    requires 0x1000 <= |image|
  {
    if image[SETUP_SECTS] == 0 then 4 else image[SETUP_SECTS]
  }

  function KernelOffset(image: seq<byte>): nat
    requires 0x1000 <= |image|
  {
    (SetupSects(image) + 1) * 512
  }

  /** `xloadflags & XLF_EFI_HANDOVER_64`. */
  predicate HasHandover(image: seq<byte>)
    requires 0x1000 <= |image|
  {
    U16At(image, XLOADFLAGS) / 8 % 2 == 1
  }

  /** Why a file is not booted, if it is not. */
  function Refusal(image: seq<byte>): Option<Status>
  {
    if |image| < 0x1000 then Some(LoadError)
    else if U16At(image, BOOT_FLAG) != BOOT_FLAG_MAGIC || U32At(image, HEADER_MAGIC) != HDRS_MAGIC then Some(LoadError)
    else if U16At(image, VERSION) < MIN_VERSION then Some(Unsupported)
    else if !HasHandover(image) then Some(Unsupported)
    else if |image| <= KernelOffset(image) then Some(LoadError)
    else None
  }

  predicate Bootable(image: seq<byte>) { Refusal(image).None? }

  /** In bytes: the boot sector's signature, "HdrS", protocol 2.11 or later, bit 3 of
      the extended load flags, and something after the setup sectors. */
  lemma BootableMeans(image: seq<byte>)
    ensures Bootable(image) <==>
            && 0x1000 <= |image|
            && image[0x1FE] == 0x55 && image[0x1FF] == 0xAA
            && image[0x202] == 0x48 && image[0x203] == 0x64 && image[0x204] == 0x72 && image[0x205] == 0x53
            && (image[0x207] > 2 || (image[0x207] == 2 && image[0x206] >= 11))
            && image[0x236] / 8 % 2 == 1
            && |image| > 512 + 512 * (if image[0x1F1] == 0 then 4 else image[0x1F1] as int)
  {
    if 0x1000 <= |image| {
      HandoverBit(image[0x236], image[0x237]);
    }
  }

  /** Why the others are not: too short, unmarked, or nothing after the setup sectors is a
      load error; marked and long enough, but too old or without a 64-bit handover entry,
      is unsupported; and there is no other refusal. */
  lemma RefusalMeans(image: seq<byte>)
    ensures Refusal(image) == Some(Unsupported) <==>
            && 0x1000 <= |image|
            && image[0x1FE] == 0x55 && image[0x1FF] == 0xAA
            && image[0x202] == 0x48 && image[0x203] == 0x64 && image[0x204] == 0x72 && image[0x205] == 0x53
            && (image[0x207] < 2 || (image[0x207] == 2 && image[0x206] < 11) || image[0x236] / 8 % 2 == 0)
    ensures Refusal(image).None? || Refusal(image) == Some(Unsupported) || Refusal(image) == Some(LoadError)
  {
    if 0x1000 <= |image| {
      HandoverBit(image[0x236], image[0x237]);
    }
  }

  lemma HandoverBit(low: byte, high: byte)
    ensures (low + 0x100 * (high as int)) / 8 % 2 == low / 8 % 2
  {
    assert (low + 0x100 * (high as int)) / 8 == low / 8 + 2 * (16 * (high as int));
  }

  function KernelBytes(image: seq<byte>): (s: seq<byte>)
    requires Bootable(image)
    ensures s != []
  {
    image[KernelOffset(image)..]
  }

  /** What the kernel needs in memory. */
  function Need(image: seq<byte>): (n: nat)
    requires Bootable(image)
    ensures n >= |KernelBytes(image)| > 0
  {
    Max(U32At(image, INIT_SIZE), |KernelBytes(image)|)
  }

  predicate Relocatable(image: seq<byte>)
    requires Bootable(image)
  {
    image[RELOCATABLE] != 0
  }

  /** The kernel's region of memory once it is loaded. */
  function KernelRegion(image: seq<byte>): (s: seq<byte>)
    requires Bootable(image)
    ensures |s| == Need(image)
  {
    KernelBytes(image) + Zeros(Need(image) - |KernelBytes(image)|)
  }

  /** The command line as it is handed over: cut to the length the kernel allows,
      and NUL-terminated. */
  function CommandLine(image: seq<byte>, cmdline: seq<byte>): (s: seq<byte>)
    requires Bootable(image)
    ensures s != []
  {
    var max := U32At(image, CMDLINE_SIZE);
    (if max > 0 && |cmdline| > max then cmdline[..max] else cmdline) + [0]
  }

  /** What the kernel reads there: the command line it was given, or as much of it as
      it allows. */
  lemma CommandLineReads(image: seq<byte>, cmdline: seq<byte>)
    requires Bootable(image) && NoNul(cmdline)
    ensures var max := U32At(image, 0x238);
            CStr(CommandLine(image, cmdline), 0)
            == cmdline[..if max == 0 then |cmdline| else Min(|cmdline|, max)]
  {
    hide Refusal, U32At;
    var line := CommandLine(image, cmdline);
    var kept := line[..|line| - 1];
    assert line[0..|kept|] == kept;
    CStrReadsBack(line, 0, kept);
  }

  /* ---- boot_params, byte by byte ---- */

  /** Where the setup header stops. */
  function HeaderEnd(image: seq<byte>): (end: nat)
    requires 0x1000 <= |image|
    ensures HEADER_MAGIC <= end <= Min(|image|, PARAMS_SIZE)
  {
    Min(Min(HEADER_MAGIC + image[HEADER_LENGTH], |image|), PARAMS_SIZE)
  }

  function SetBit0(b: byte): byte { if b % 2 == 0 then b + 1 else b }

  /** A byte of the page before anything is patched: the file's, inside the header. */
  function Copied(image: seq<byte>, o: nat): byte
    requires 0x1000 <= |image|
  {
    if SETUP_SECTS <= o < HeaderEnd(image) then image[o] else 0
  }

  datatype Ramdisk = Ramdisk(addr: nat, size: nat)

  function ParamsByte(image: seq<byte>, kernel: nat, cmd: nat, ramdisk: Option<Ramdisk>, o: nat): byte
    requires 0x1000 <= |image| && o < PARAMS_SIZE
  {
    if o == TYPE_OF_LOADER then LOADER_UNKNOWN
    else if o == LOADFLAGS then SetBit0(Copied(image, o))
    else if CODE32_START <= o < CODE32_START + 4 then Le32(Low32(kernel))[o - CODE32_START]
    else if ramdisk.Some? && RAMDISK_IMAGE <= o < RAMDISK_IMAGE + 4 then
      Le32(Low32(ramdisk.value.addr))[o - RAMDISK_IMAGE]
    else if ramdisk.Some? && RAMDISK_SIZE <= o < RAMDISK_SIZE + 4 then
      Le32(Low32(ramdisk.value.size))[o - RAMDISK_SIZE]
    else if CMD_LINE_PTR <= o < CMD_LINE_PTR + 4 then Le32(Low32(cmd))[o - CMD_LINE_PTR]
    else Copied(image, o)
  }

  function Params(image: seq<byte>, kernel: nat, cmd: nat, ramdisk: Option<Ramdisk>): (page: seq<byte>)
    requires 0x1000 <= |image|
    ensures |page| == PARAMS_SIZE
  {
    seq(PARAMS_SIZE, o requires 0 <= o < PARAMS_SIZE => ParamsByte(image, kernel, cmd, ramdisk, o))
  }

  /* ---- placement ---- */

  /** Pages an allocation of so many bytes takes. */
  function LowPages(bytes: nat): (pages: nat)
    ensures pages > 0 && bytes <= 4096 * pages && (pages == 1 || 4096 * (pages - 1) < bytes)
  {
    Max(PagesFor(bytes), 1)
  }

  /** No block below 4 GiB is free for so many bytes. */
  ghost predicate NoRoom(free: set<nat>, bytes: nat) { NoRun(free, LowPages(bytes)) }

  /** Pages below 4 GiB, at least one. */
  method AllocLow(fw: Firmware, bytes: nat) returns (r: Option<nat>, ghost block: Block)
    modifies fw`free
    ensures block.Set() <= old(fw.free) && fw.free == old(fw.free) - block.Set()
    ensures r.Some? ==>
              && block.pages == LowPages(bytes) > 0 && block.Low()
              && r.value == PAGE * block.first && block.Covers(r.value, bytes)
    ensures r.None? ==> block == NO_BLOCK
    ensures r.None? <==> NoRoom(old(fw.free), bytes)
  {
    hide Run;
    r, block := fw.AllocateLow(LowPages(bytes));
  }

  /** `next_multiple_of`. */
  function NextMultiple(a: nat, m: nat): nat
    requires m > 0
  {
    if a % m == 0 then a else a + (m - a % m)
  }

  lemma NextMultipleIs(a: nat, m: nat)
    requires m > 0
    ensures a <= NextMultiple(a, m) < a + m
    ensures NextMultiple(a, m) % m == 0
  {
    if a % m != 0 {
      var q := a / m;
      assert a == m * q + a % m;
      assert NextMultiple(a, m) == m * (q + 1) by { TimesStep(m, q); }
      ModuloIs(m * (q + 1), m, q + 1, 0);
    }
  }

  /** There is nowhere for the kernel: no room for it and its alignment, or its one
      address is not a page's or not free. */
  ghost predicate NoPlace(free: set<nat>, image: seq<byte>)
    requires Bootable(image)
  {
    if Relocatable(image) then NoRoom(free, Need(image) + U32At(image, KERNEL_ALIGNMENT))
    else
      var pref := U64At(image, PREF_ADDRESS);
      pref % PAGE != 0 || !(Run(pref / PAGE, PagesFor(Need(image))) <= free)
  }

  function KernelPages(image: seq<byte>): nat
    requires Bootable(image)
  {
    if Relocatable(image) then LowPages(Need(image) + U32At(image, KERNEL_ALIGNMENT)) else PagesFor(Need(image))
  }

  /** Where the kernel goes: in a block large enough to be aligned inside by hand, or
      at the one address it asks for. */
  method PlaceKernel(fw: Firmware, image: seq<byte>) returns (r: Option<nat>, ghost block: Block)
    requires Bootable(image)
    modifies fw`free
    ensures block.Set() <= old(fw.free) && fw.free == old(fw.free) - block.Set()
    ensures r.Some? ==> block.pages == KernelPages(image) > 0 && block.Covers(r.value, Need(image))
    ensures r.Some? && Relocatable(image) ==>
              && block.Low()
              && (U32At(image, KERNEL_ALIGNMENT) > 0 ==> r.value % U32At(image, KERNEL_ALIGNMENT) == 0)
    ensures r.Some? && !Relocatable(image) ==> r.value == PAGE * block.first == U64At(image, PREF_ADDRESS)
    ensures r.None? ==> block == NO_BLOCK
    ensures r.None? <==> NoPlace(old(fw.free), image)
  {
    hide Run, U32At, U64At, NoRun;
    assert |image| >= 0x1000;
    var need, alignment := Need(image), U32At(image, KERNEL_ALIGNMENT);
    block := NO_BLOCK;
    if Relocatable(image) {
      var p;
      p, block := AllocLow(fw, need + alignment);
      if p.None? {
        return None, block;
      }
      if alignment > 1 {
        NextMultipleIs(p.value, alignment);
        r := Some(NextMultiple(p.value, alignment));
      } else {
        r := p;
      }
    } else {
      // The firmware grants only whole pages at a page's address.
      var pref, pages := U64At(image, PREF_ADDRESS), PagesFor(need);
      if pref % PAGE != 0 {
        return None, block;
      }
      var ok := fw.AllocateAt(pref / PAGE, pages);
      if !ok {
        return None, block;
      }
      block := Block(pref / PAGE, pages);
      r := Some(pref);
    }
  }

  /* ---- memory, block by block ---- */

  /** Zeroes the kernel's region and copies the kernel into it. */
  method CopyKernel(fw: Firmware, image: seq<byte>, kernel: nat, ghost kb: Block)
    requires Bootable(image) && kb.Covers(kernel, Need(image))
    modifies fw`mem
    ensures Lies(fw.mem, kernel, KernelRegion(image)) && OnlyIn(old(fw.mem), fw.mem, kb.Set())
  {
    hide Stored, Lies, OnlyIn, Need, KernelBytes;
    var need, bytes := Need(image), KernelBytes(image);
    ghost var m0 := fw.mem;
    fw.Clear(kernel, need);
    ghost var m1 := fw.mem;
    StoredLies(m0, kernel, Zeros(need));
    StoredOnlyIn(m0, kernel, Zeros(need), kb);
    fw.CopyTo(kernel, bytes);
    LiesSpliced(m1, kernel, Zeros(need), 0, bytes);
    StoredOnlyIn(m1, kernel, bytes, kb);
    OnlyInTwice(m0, m1, fw.mem, kb.Set(), kb.Set());
    assert Splice(Zeros(need), 0, bytes) == KernelRegion(image);
  }

  /** The page with nothing patched yet. */
  function Unpatched(image: seq<byte>): (page: seq<byte>)
    requires 0x1000 <= |image|
    ensures |page| == PARAMS_SIZE
  {
    seq(PARAMS_SIZE, o requires 0 <= o < PARAMS_SIZE => Copied(image, o))
  }

  /** Zeroes the page and copies the setup header to where it was in the file. */
  method StartParams(fw: Firmware, image: seq<byte>, params: nat, ghost pb: Block)
    requires 0x1000 <= |image| && pb.Covers(params, PARAMS_SIZE)
    modifies fw`mem
    ensures Lies(fw.mem, params, Unpatched(image)) && OnlyIn(old(fw.mem), fw.mem, pb.Set())
  {
    hide Stored, Lies, OnlyIn, HeaderEnd;
    ghost var m0 := fw.mem;
    fw.Clear(params, PARAMS_SIZE);
    ghost var m1 := fw.mem;
    StoredLies(m0, params, Zeros(PARAMS_SIZE));
    StoredOnlyIn(m0, params, Zeros(PARAMS_SIZE), pb);
    var hdrEnd := HeaderEnd(image);
    var header := image[SETUP_SECTS..hdrEnd];
    fw.CopyTo(params + SETUP_SECTS, header);
    LiesSpliced(m1, params, Zeros(PARAMS_SIZE), SETUP_SECTS, header);
    StoredOnlyIn(m1, params + SETUP_SECTS, header, pb);
    OnlyInTwice(m0, m1, fw.mem, pb.Set(), pb.Set());
    assert Splice(Zeros(PARAMS_SIZE), SETUP_SECTS, header) == Unpatched(image);
  }

  /** Patches the page at `o`. */
  method Patch(fw: Firmware, params: nat, o: nat, s: seq<byte>, ghost page: seq<byte>, ghost pb: Block)
    requires |page| == PARAMS_SIZE && o + |s| <= PARAMS_SIZE && Lies(fw.mem, params, page)
    requires pb.Covers(params, PARAMS_SIZE)
    modifies fw`mem
    ensures Lies(fw.mem, params, Splice(page, o, s)) && OnlyIn(old(fw.mem), fw.mem, pb.Set())
  {
    hide Stored, Lies, OnlyIn;
    ghost var m := fw.mem;
    fw.CopyTo(params + o, s);
    LiesSpliced(m, params, page, o, s);
    StoredOnlyIn(m, params + o, s, pb);
  }

  /** The page once its command line and, perhaps, its ramdisk are known. */
  function WithFiles(image: seq<byte>, cmd: nat, ramdisk: Option<Ramdisk>): (page: seq<byte>)
    requires 0x1000 <= |image|
    ensures |page| == PARAMS_SIZE
  {
    var page := Splice(Unpatched(image), CMD_LINE_PTR, Le32(Low32(cmd)));
    if ramdisk.None? then page
    else Splice(Splice(page, RAMDISK_IMAGE, Le32(Low32(ramdisk.value.addr))),
                RAMDISK_SIZE, Le32(Low32(ramdisk.value.size)))
  }

  /** The last three patches: loader type, load flags, and where the kernel is. */
  method FinishParams(fw: Firmware, image: seq<byte>, params: nat, kernel: nat,
                      ghost cmd: nat, ghost ramdisk: Option<Ramdisk>, ghost pb: Block)
    requires 0x1000 <= |image| && Lies(fw.mem, params, WithFiles(image, cmd, ramdisk))
    requires pb.Covers(params, PARAMS_SIZE)
    modifies fw`mem
    ensures Lies(fw.mem, params, Params(image, kernel, cmd, ramdisk))
    ensures OnlyIn(old(fw.mem), fw.mem, pb.Set())
  {
    hide Lies, OnlyIn, HeaderEnd, Le32;
    ghost var m0 := fw.mem;
    ghost var p0 := WithFiles(image, cmd, ramdisk);
    Patch(fw, params, TYPE_OF_LOADER, [LOADER_UNKNOWN], p0, pb);
    ghost var m1, p1 := fw.mem, Splice(p0, TYPE_OF_LOADER, [LOADER_UNKNOWN]);
    LiesAt(fw.mem, params, p1, LOADFLAGS);
    var flags := SetBit0(fw.mem[params + LOADFLAGS]);
    Patch(fw, params, LOADFLAGS, [flags], p1, pb);
    ghost var m2, p2 := fw.mem, Splice(p1, LOADFLAGS, [flags]);
    Patch(fw, params, CODE32_START, Le32(Low32(kernel)), p2, pb);
    OnlyInTwice(m0, m1, m2, pb.Set(), pb.Set());
    OnlyInTwice(m0, m2, fw.mem, pb.Set(), pb.Set());
    PatchedPage(image, kernel, cmd, ramdisk);
  }

  lemma PatchedPage(image: seq<byte>, kernel: nat, cmd: nat, ramdisk: Option<Ramdisk>)
    requires 0x1000 <= |image|
    ensures var p1 := Splice(WithFiles(image, cmd, ramdisk), TYPE_OF_LOADER, [LOADER_UNKNOWN]);
            Splice(Splice(p1, LOADFLAGS, [SetBit0(p1[LOADFLAGS])]), CODE32_START, Le32(Low32(kernel)))
            == Params(image, kernel, cmd, ramdisk)
  {
    hide Le32, HeaderEnd;
    var p0 := WithFiles(image, cmd, ramdisk);
    var p1 := Splice(p0, TYPE_OF_LOADER, [LOADER_UNKNOWN]);
    var p := Splice(Splice(p1, LOADFLAGS, [SetBit0(p1[LOADFLAGS])]), CODE32_START, Le32(Low32(kernel)));
    forall o | 0 <= o < PARAMS_SIZE
      ensures p[o] == ParamsByte(image, kernel, cmd, ramdisk, o)
    {
      PatchedByte(image, kernel, cmd, ramdisk, o);
    }
  }

  lemma SpliceAt(b: seq<byte>, at: nat, s: seq<byte>, o: nat)
    requires at + |s| <= |b| && o < |b|
    ensures Splice(b, at, s)[o] == if at <= o < at + |s| then s[o - at] else b[o]
  {
  }

  lemma PatchedByte(image: seq<byte>, kernel: nat, cmd: nat, ramdisk: Option<Ramdisk>, o: nat)
    requires 0x1000 <= |image| && o < PARAMS_SIZE
    ensures var p1 := Splice(WithFiles(image, cmd, ramdisk), TYPE_OF_LOADER, [LOADER_UNKNOWN]);
            Splice(Splice(p1, LOADFLAGS, [SetBit0(p1[LOADFLAGS])]), CODE32_START, Le32(Low32(kernel)))[o]
            == ParamsByte(image, kernel, cmd, ramdisk, o)
  {
    hide Le32, HeaderEnd, Copied, Splice;
    var p0 := WithFiles(image, cmd, ramdisk);
    var p1 := Splice(p0, TYPE_OF_LOADER, [LOADER_UNKNOWN]);
    var flags := [SetBit0(p1[LOADFLAGS])];
    var u := Unpatched(image);
    var v := Splice(u, CMD_LINE_PTR, Le32(Low32(cmd)));
    SpliceAt(Splice(p1, LOADFLAGS, flags), CODE32_START, Le32(Low32(kernel)), o);
    SpliceAt(p1, LOADFLAGS, flags, o);
    SpliceAt(p0, TYPE_OF_LOADER, [LOADER_UNKNOWN], o);
    SpliceAt(p0, TYPE_OF_LOADER, [LOADER_UNKNOWN], LOADFLAGS);
    SpliceAt(u, CMD_LINE_PTR, Le32(Low32(cmd)), o);
    SpliceAt(u, CMD_LINE_PTR, Le32(Low32(cmd)), LOADFLAGS);
    if ramdisk.Some? {
      var w := Splice(v, RAMDISK_IMAGE, Le32(Low32(ramdisk.value.addr)));
      SpliceAt(v, RAMDISK_IMAGE, Le32(Low32(ramdisk.value.addr)), o);
      SpliceAt(v, RAMDISK_IMAGE, Le32(Low32(ramdisk.value.addr)), LOADFLAGS);
      SpliceAt(w, RAMDISK_SIZE, Le32(Low32(ramdisk.value.size)), o);
      SpliceAt(w, RAMDISK_SIZE, Le32(Low32(ramdisk.value.size)), LOADFLAGS);
    }
  }

  /* ---- what a boot comes to ---- */

  /** Refused, or handed over: the entry point called, and where everything lies. */
  datatype Outcome =
    | Refused(status: Status)
    | HandedOver(entry: nat, kernel: nat, params: nat, cmd: nat, ramdisk: Option<Ramdisk>)

  /** The four regions a handover leaves, each with exactly its contents. */
  ghost predicate Laid(m: map<nat, byte>, image: seq<byte>, cmdline: seq<byte>, initrd: Option<seq<byte>>,
                       kernel: nat, params: nat, cmd: nat, ramdisk: Option<Ramdisk>)
    requires Bootable(image)
  {
    && Lies(m, kernel, KernelRegion(image))
    && Lies(m, params, Params(image, kernel, cmd, ramdisk))
    && Lies(m, cmd, CommandLine(image, cmdline))
    && (ramdisk.Some? ==>
          initrd.Some? && ramdisk.value.size == |initrd.value| && Lies(m, ramdisk.value.addr, initrd.value))
  }

  /** Pairwise disjoint, and all but an unmovable kernel below 4 GiB. */
  ghost predicate Placed(image: seq<byte>, cmdline: seq<byte>, kernel: nat, params: nat, cmd: nat,
                         ramdisk: Option<Ramdisk>)
    requires Bootable(image)
  {
    var n := |CommandLine(image, cmdline)|;
    && Apart(kernel, Need(image), params, PARAMS_SIZE) && Apart(kernel, Need(image), cmd, n)
    && Apart(params, PARAMS_SIZE, cmd, n)
    && params + PARAMS_SIZE <= TWO_32 && cmd + n <= TWO_32
    && (ramdisk.Some? ==>
          var r := ramdisk.value;
          && Apart(kernel, Need(image), r.addr, r.size) && Apart(params, PARAMS_SIZE, r.addr, r.size)
          && Apart(cmd, n, r.addr, r.size)
          && r.addr + r.size <= TWO_32 && r.addr < TWO_32 && r.size < TWO_32)
    && (if Relocatable(image) then
          && kernel + Need(image) <= TWO_32
          && (U32At(image, KERNEL_ALIGNMENT) > 0 ==> kernel % U32At(image, KERNEL_ALIGNMENT) == 0)
        else kernel == U64At(image, PREF_ADDRESS))
  }

  /** The four words the loader puts on the page, as the kernel reads them. */
  lemma WordsReadBack(image: seq<byte>, kernel: nat, cmd: nat, ramdisk: Option<Ramdisk>)
    requires 0x1000 <= |image|
    ensures var page := Params(image, kernel, cmd, ramdisk);
            && U32At(page, CODE32_START) == Low32(kernel) && U32At(page, CMD_LINE_PTR) == Low32(cmd)
            && (ramdisk.Some? ==> U32At(page, RAMDISK_IMAGE) == Low32(ramdisk.value.addr)
                                  && U32At(page, RAMDISK_SIZE) == Low32(ramdisk.value.size))
  {
    hide Le32, U32At, HeaderEnd, Low32;
    var page := Params(image, kernel, cmd, ramdisk);
    assert page[CMD_LINE_PTR..CMD_LINE_PTR + 4] == Le32(Low32(cmd));
    ReadBack32(page, CMD_LINE_PTR, Low32(cmd));
    assert page[CODE32_START..CODE32_START + 4] == Le32(Low32(kernel));
    ReadBack32(page, CODE32_START, Low32(kernel));
    if ramdisk.Some? {
      assert page[RAMDISK_IMAGE..RAMDISK_IMAGE + 4] == Le32(Low32(ramdisk.value.addr));
      assert page[RAMDISK_SIZE..RAMDISK_SIZE + 4] == Le32(Low32(ramdisk.value.size));
      ReadBack32(page, RAMDISK_IMAGE, Low32(ramdisk.value.addr));
      ReadBack32(page, RAMDISK_SIZE, Low32(ramdisk.value.size));
    }
  }

  /** No field the loader fills in is at this offset. */
  predicate Untouched(o: nat, ramdisk: Option<Ramdisk>)
  {
    || o < 0x210 || 0x212 <= o < 0x214 || (ramdisk.None? && 0x218 <= o < 0x220)
    || 0x220 <= o < 0x228 || 0x22C <= o
  }

  /** The page by the numbers: what is patched, what is copied, and nothing else. */
  lemma PageMeans(image: seq<byte>, kernel: nat, cmd: nat, ramdisk: Option<Ramdisk>, o: nat)
    requires 0x1000 <= |image| && o < 4096
    ensures var page := Params(image, kernel, cmd, ramdisk);
            var copied: byte := if 0x1F1 <= o < 0x202 + image[0x201] as int then image[o] else 0;
            && |page| == 4096 && page[0x210] == 0xFF
            && U32At(page, 0x214) == kernel % 0x1_0000_0000 && U32At(page, 0x228) == cmd % 0x1_0000_0000
            && (ramdisk.Some? ==> U32At(page, 0x218) == ramdisk.value.addr % 0x1_0000_0000
                                  && U32At(page, 0x21C) == ramdisk.value.size % 0x1_0000_0000)
            && (o == 0x211 ==> page[o] == if copied % 2 == 1 then copied else copied + 1)
            && (Untouched(o, ramdisk) ==> page[o] == copied)
  {
    WordsReadBack(image, kernel, cmd, ramdisk);
    Low32Is(kernel);
    Low32Is(cmd);
    if ramdisk.Some? {
      Low32Is(ramdisk.value.addr);
      Low32Is(ramdisk.value.size);
    }
    PageByte(image, kernel, cmd, ramdisk, o);
    hide Params, HeaderEnd, U32At, Low32;
  }

  lemma PageByte(image: seq<byte>, kernel: nat, cmd: nat, ramdisk: Option<Ramdisk>, o: nat)
    requires 0x1000 <= |image| && o < 4096
    ensures var page := Params(image, kernel, cmd, ramdisk);
            var copied: byte := if 0x1F1 <= o < 0x202 + image[0x201] as int then image[o] else 0;
            && |page| == 4096 && page[0x210] == 0xFF
            && (o == 0x211 ==> page[o] == if copied % 2 == 1 then copied else copied + 1)
            && (Untouched(o, ramdisk) ==> page[o] == copied)
  {
    hide Le32, Low32;
  }

  lemma FlagRead(image: seq<byte>, kernel: nat, cmd: nat, ramdisk: Option<Ramdisk>)
    requires 0x1000 <= |image|
    ensures Params(image, kernel, cmd, ramdisk)[LOADFLAGS] % 2 == 1
  {
    hide HeaderEnd;
  }

  /** After any handover the kernel reads the true addresses from its page, except that
      `code32_start` is wrong for a kernel that cannot be moved and asks for a place at or
      above 4 GiB, and only for such a one. */
  lemma ParamsReadBack(image: seq<byte>, cmdline: seq<byte>, kernel: nat, params: nat, cmd: nat,
                       ramdisk: Option<Ramdisk>)
    requires Bootable(image) && Placed(image, cmdline, kernel, params, cmd, ramdisk)
    ensures var page := Params(image, kernel, cmd, ramdisk);
            && U32At(page, CMD_LINE_PTR) == cmd
            && (ramdisk.Some? ==> U32At(page, RAMDISK_IMAGE) == ramdisk.value.addr
                                  && U32At(page, RAMDISK_SIZE) == ramdisk.value.size)
            && (U32At(page, CODE32_START) == kernel <==> Relocatable(image) || U64At(image, PREF_ADDRESS) < TWO_32)
            && page[LOADFLAGS] % 2 == 1
  {
    assert 0x1000 <= |image|;
    hide U32At, U64At, Refusal, Params, CommandLine;
    WordsReadBack(image, kernel, cmd, ramdisk);
    FlagRead(image, kernel, cmd, ramdisk);
  }

  /** The blocks granted for the four regions, in the order they are asked for. */
  datatype Grants = Grants(kernel: Block, params: Block, cmd: Block, ramdisk: Block)
  {
    function Pages(): set<nat> { kernel.Set() + params.Set() + cmd.Set() + ramdisk.Set() }

    /** Each is taken from what those before it left, and nothing else is taken. */
    ghost predicate Account(free0: set<nat>, free: set<nat>)
    {
      && kernel.Set() <= free0 && params.Set() <= free0 - kernel.Set()
      && cmd.Set() <= free0 - kernel.Set() - params.Set()
      && ramdisk.Set() <= free0 - kernel.Set() - params.Set() - cmd.Set()
      && free == free0 - kernel.Set() - params.Set() - cmd.Set() - ramdisk.Set()
    }
  }

  /** Each of the three allocations a handover needs is made, at its size, exactly if there
      is room for it after those before it; the first that cannot be made ends it. */
  ghost predicate Basics(free0: set<nat>, image: seq<byte>, cmdline: seq<byte>, kb: Block, pb: Block, cb: Block,
                         placed: bool)
    requires Bootable(image)
  {
    var free1 := free0 - kb.Set();
    var free2 := free1 - pb.Set();
    var size := |CommandLine(image, cmdline)|;
    if NoPlace(free0, image) then !placed && kb == pb == cb == NO_BLOCK
    else
      && kb.pages == KernelPages(image) > 0
      && (if Relocatable(image) then kb.Low() else PAGE * kb.first == U64At(image, PREF_ADDRESS))
      && if NoRoom(free1, PARAMS_SIZE) then !placed && pb == cb == NO_BLOCK
         else
           && pb.pages == LowPages(PARAMS_SIZE) && pb.Low()
           && if NoRoom(free2, size) then !placed && cb == NO_BLOCK
              else placed && cb.pages == LowPages(size) && cb.Low()
  }

  /** What booting a good image does: it is refused exactly if one of the three allocations
      cannot be made; the ramdisk is there exactly if it was read and there is room left for
      it; every region is whole, apart from the others, and nothing else in memory changes. */
  ghost predicate Booted(r: Outcome, g: Grants, image: seq<byte>, initrd: Option<seq<byte>>, cmdline: seq<byte>,
                         free0: set<nat>, free: set<nat>, mem0: map<nat, byte>, mem: map<nat, byte>)
    requires Bootable(image)
  {
    && g.Account(free0, free) && OnlyIn(mem0, mem, g.Pages())
    && Basics(free0, image, cmdline, g.kernel, g.params, g.cmd, r.HandedOver?)
    && match r
       case Refused(status) => status == OutOfResources && g.ramdisk == NO_BLOCK
       case HandedOver(entry, kernel, params, cmd, ramdisk) =>
         && entry == kernel + U32At(image, HANDOVER_OFFSET) + HANDOVER_64_OFFSET
         && Laid(mem, image, cmdline, initrd, kernel, params, cmd, ramdisk)
         && Placed(image, cmdline, kernel, params, cmd, ramdisk)
         && g.kernel.Covers(kernel, Need(image)) && g.params.Covers(params, PARAMS_SIZE)
         && g.cmd.Covers(cmd, |CommandLine(image, cmdline)|)
         && WithRamdisk(free0 - g.kernel.Set() - g.params.Set() - g.cmd.Set(), initrd, g.ramdisk, ramdisk)
  }

  ghost predicate WithRamdisk(free: set<nat>, initrd: Option<seq<byte>>, block: Block, ramdisk: Option<Ramdisk>)
  {
    if initrd.None? || NoRoom(free, |initrd.value|) then ramdisk.None? && block == NO_BLOCK
    else ramdisk.Some? && block.pages == LowPages(|initrd.value|) && block.Covers(ramdisk.value.addr, |initrd.value|)
  }

  /** Loads the initrd, if it can be read and there is room for it. */
  method LoadInitrd(fw: Firmware, file: Option<OnDisk>, params: nat, ghost pb: Block, ghost page: seq<byte>)
    returns (ramdisk: Option<Ramdisk>, ghost block: Block)
    requires |page| == PARAMS_SIZE && Lies(fw.mem, params, page)
    requires pb.Covers(params, PARAMS_SIZE) && pb.Set() !! fw.free
    modifies fw
    ensures block.Set() <= old(fw.free) && fw.free == old(fw.free) - block.Set()
    ensures WithRamdisk(old(fw.free), FileRead(file), block, ramdisk)
    ensures ramdisk.Some? ==>
              && FileRead(file).Some? && ramdisk.value.size == |FileRead(file).value|
              && block.pages > 0 && block.Low() && ramdisk.value.addr == PAGE * block.first
              && block.Covers(ramdisk.value.addr, ramdisk.value.size)
              && Lies(fw.mem, ramdisk.value.addr, FileRead(file).value)
              && Lies(fw.mem, params,
                      Splice(Splice(page, RAMDISK_IMAGE, Le32(Low32(ramdisk.value.addr))),
                             RAMDISK_SIZE, Le32(Low32(ramdisk.value.size))))
    ensures ramdisk.None? ==> fw.mem == old(fw.mem)
    ensures OnlyIn(old(fw.mem), fw.mem, block.Set() + pb.Set())
  {
    hide Lies, Le32, Run, Splice, Stored, NoRoom, FileRead, LowPages, OnlyIn;
    ramdisk, block := None, NO_BLOCK;
    ghost var m0 := fw.mem;
    NothingChanged(m0, block.Set() + pb.Set());
    var initrd := ReadFile(file);
    if initrd.None? {
      return;
    }
    var bytes := initrd.value;
    var at;
    at, block := AllocLow(fw, |bytes|);
    if at.None? {
      return;
    }
    var mem := at.value;
    fw.CopyTo(mem, bytes);
    ghost var m1 := fw.mem;
    StoredLies(m0, mem, bytes);
    StoredOnlyIn(m0, mem, bytes, block);
    LiesKept(m0, m1, block.Set(), pb, params, page);
    Patch(fw, params, RAMDISK_IMAGE, Le32(Low32(mem)), page, pb);
    ghost var m2 := fw.mem;
    Patch(fw, params, RAMDISK_SIZE, Le32(Low32(|bytes|)), Splice(page, RAMDISK_IMAGE, Le32(Low32(mem))), pb);
    OnlyInTwice(m1, m2, fw.mem, pb.Set(), pb.Set());
    LiesKept(m1, fw.mem, pb.Set(), block, mem, bytes);
    OnlyInTwice(m0, m1, fw.mem, block.Set(), pb.Set());
    ramdisk := Some(Ramdisk(mem, |bytes|));
  }

  datatype Spot = Spot(kernel: nat, params: nat, cmd: nat)

  /** The kernel, the page with its header and command-line pointer, and the command
      line: three blocks, and what lies in them. */
  method LayBasics(fw: Firmware, image: seq<byte>, cmdline: seq<byte>)
    returns (spot: Option<Spot>, ghost kb: Block, ghost pb: Block, ghost cb: Block)
    requires Bootable(image)
    modifies fw
    ensures Basics(old(fw.free), image, cmdline, kb, pb, cb, spot.Some?)
    ensures kb.Set() <= old(fw.free) && pb.Set() <= old(fw.free) - kb.Set()
    ensures cb.Set() <= old(fw.free) - kb.Set() - pb.Set()
    ensures fw.free == old(fw.free) - kb.Set() - pb.Set() - cb.Set()
    ensures OnlyIn(old(fw.mem), fw.mem, kb.Set() + pb.Set() + cb.Set())
    ensures spot.Some? ==>
              var at := spot.value;
              && Lies(fw.mem, at.kernel, KernelRegion(image))
              && Lies(fw.mem, at.params, WithFiles(image, at.cmd, None))
              && Lies(fw.mem, at.cmd, CommandLine(image, cmdline))
              && kb.pages > 0 && pb.pages > 0 && cb.pages > 0
              && kb.Covers(at.kernel, Need(image)) && pb.Covers(at.params, PARAMS_SIZE)
              && cb.Covers(at.cmd, |CommandLine(image, cmdline)|)
              && Placed(image, cmdline, at.kernel, at.params, at.cmd, None)
  {
    hide Lies, OnlyIn, Run, Stored, Splice, Need, KernelBytes, U32At, U64At, Params, Unpatched, CommandLine,
         Relocatable, Le32, NoPlace, NoRoom, KernelPages, LowPages;
    spot, kb, pb, cb := None, NO_BLOCK, NO_BLOCK, NO_BLOCK;
    ghost var m0 := fw.mem;
    NothingChanged(m0, kb.Set() + pb.Set() + cb.Set());
    var kernel;
    kernel, kb := PlaceKernel(fw, image);
    if kernel.None? {
      return;
    }
    var k := kernel.value;
    CopyKernel(fw, image, k, kb);
    ghost var m1 := fw.mem;

    var params;
    params, pb := AllocLow(fw, PARAMS_SIZE);
    if params.None? {
      assert kb.Set() + pb.Set() + cb.Set() == kb.Set();
      return;
    }
    var p := params.value;
    StartParams(fw, image, p, pb);
    ghost var m2 := fw.mem;
    OnlyInTwice(m0, m1, m2, kb.Set(), pb.Set());
    BlocksApart(kb, pb, k, Need(image), p, PARAMS_SIZE);
    LiesKept(m1, m2, pb.Set(), kb, k, KernelRegion(image));

    var cl := CommandLine(image, cmdline);
    var cmd;
    cmd, cb := AllocLow(fw, |cl|);
    if cmd.None? {
      assert kb.Set() + pb.Set() + cb.Set() == kb.Set() + pb.Set();
      return;
    }
    var c := cmd.value;
    fw.CopyTo(c, cl);
    ghost var m3 := fw.mem;
    StoredLies(m2, c, cl);
    StoredOnlyIn(m2, c, cl, cb);
    BlocksApart(kb, cb, k, Need(image), c, |cl|);
    BlocksApart(pb, cb, p, PARAMS_SIZE, c, |cl|);
    LiesKept(m2, m3, cb.Set(), pb, p, Unpatched(image));
    Patch(fw, p, CMD_LINE_PTR, Le32(Low32(c)), Unpatched(image), pb);
    OnlyInTwice(m2, m3, fw.mem, cb.Set(), pb.Set());
    LiesKept(m2, fw.mem, cb.Set() + pb.Set(), kb, k, KernelRegion(image));
    LiesKept(m3, fw.mem, pb.Set(), cb, c, cl);
    OnlyInTwice(m0, m2, fw.mem, kb.Set() + pb.Set(), cb.Set() + pb.Set());
    assert kb.Set() + pb.Set() + (cb.Set() + pb.Set()) == kb.Set() + pb.Set() + cb.Set();
    spot := Some(Spot(k, p, c));
  }

  /** `boot`. A file that cannot be read or is no bzImage is refused before anything is
      asked for or written. */
  method Boot(fw: Firmware, file: Option<OnDisk>, initrd: Option<OnDisk>, cmdline: seq<byte>)
    returns (r: Outcome, ghost g: Grants)
    modifies fw
    ensures FileRead(file).None? ==> r == Refused(NotFound) && fw.free == old(fw.free) && fw.mem == old(fw.mem)
    ensures FileRead(file).Some? && Refusal(FileRead(file).value).Some? ==>
              r == Refused(Refusal(FileRead(file).value).value) && fw.free == old(fw.free) && fw.mem == old(fw.mem)
    ensures FileRead(file).Some? && Bootable(FileRead(file).value) ==>
              Booted(r, g, FileRead(file).value, FileRead(initrd), cmdline, old(fw.free), fw.free, old(fw.mem), fw.mem)
  {
    hide Lies, OnlyIn, Run, Stored, Splice, Need, KernelBytes, U32At, U64At, Params, Unpatched, CommandLine,
         Relocatable, Le32, NoPlace, NoRoom, FileRead, Basics, WithRamdisk;
    g := Grants(NO_BLOCK, NO_BLOCK, NO_BLOCK, NO_BLOCK);
    var read := ReadFile(file);
    if read.None? {
      return Refused(NotFound), g;
    }
    var image := read.value;
    var refusal := Refusal(image);
    if refusal.Some? {
      return Refused(refusal.value), g;
    }
    ghost var m0 := fw.mem;
    var spot, kb, pb, cb := LayBasics(fw, image, cmdline);
    g := Grants(kb, pb, cb, NO_BLOCK);
    ghost var m1 := fw.mem;
    if spot.None? {
      assert g.Pages() == kb.Set() + pb.Set() + cb.Set();
      return Refused(OutOfResources), g;
    }
    var Spot(k, p, c) := spot.value;
    ghost var n, free3 := |CommandLine(image, cmdline)|, fw.free;
    var ramdisk, rb := LoadInitrd(fw, initrd, p, pb, WithFiles(image, c, None));
    g := Grants(kb, pb, cb, rb);
    if ramdisk.Some? {
      var rd := ramdisk.value;
      BlocksApart(kb, rb, k, Need(image), rd.addr, rd.size);
      BlocksApart(pb, rb, p, PARAMS_SIZE, rd.addr, rd.size);
      BlocksApart(cb, rb, c, n, rd.addr, rd.size);
    }
    ghost var m2 := fw.mem;
    FinishParams(fw, image, p, k, c, ramdisk, pb);
    OnlyInTwice(m1, m2, fw.mem, rb.Set() + pb.Set(), pb.Set());
    assert rb.Set() + pb.Set() + pb.Set() == rb.Set() + pb.Set();
    LiesKept(m1, fw.mem, rb.Set() + pb.Set(), kb, k, KernelRegion(image));
    LiesKept(m1, fw.mem, rb.Set() + pb.Set(), cb, c, CommandLine(image, cmdline));
    OnlyInTwice(m0, m1, fw.mem, kb.Set() + pb.Set() + cb.Set(), rb.Set() + pb.Set());
    assert kb.Set() + pb.Set() + cb.Set() + (rb.Set() + pb.Set()) == g.Pages();
    if ramdisk.Some? {
      LiesKept(m2, fw.mem, pb.Set(), rb, ramdisk.value.addr, FileRead(initrd).value);
    }
    r := HandedOver(k + U32At(image, HANDOVER_OFFSET) + HANDOVER_64_OFFSET, k, p, c, ramdisk);
  }

  /** Of every handover, in the image's own bytes: the file's part of the kernel lies at the
      address entered through, zeros after it up to the size the header asks for; that
      whole extent, the larger of the two and no more, is the kernel's alone; and where it
      may lie, and where it is entered, are as the header says. */
  lemma KernelExtent(r: Outcome, g: Grants, image: seq<byte>, initrd: Option<seq<byte>>, cmdline: seq<byte>,
                     free0: set<nat>, free: set<nat>, mem0: map<nat, byte>, mem: map<nat, byte>)
    requires Bootable(image) && r.HandedOver? && Booted(r, g, image, initrd, cmdline, free0, free, mem0, mem)
    ensures var start := 512 * (1 + if image[0x1F1] == 0 then 4 else image[0x1F1] as int);
            start < |image|
    ensures var start := 512 * (1 + if image[0x1F1] == 0 then 4 else image[0x1F1] as int);
            var size := if U32At(image, 0x260) < |image| - start then |image| - start else U32At(image, 0x260);
            && g.kernel.Covers(r.kernel, size)
            && Lies(mem, r.kernel, image[start..] + Zeros(size - (|image| - start)))
            && Apart(r.kernel, size, r.params, 4096)
            && Apart(r.kernel, size, r.cmd, |CommandLine(image, cmdline)|)
            && (r.ramdisk.Some? ==> Apart(r.kernel, size, r.ramdisk.value.addr, r.ramdisk.value.size))
            && (image[0x234] != 0 ==> r.kernel + size <= 0x1_0000_0000)
    ensures image[0x234] != 0 && U32At(image, 0x230) > 0 ==> r.kernel % U32At(image, 0x230) == 0
    ensures image[0x234] == 0 ==> r.kernel == U64At(image, 0x258)
    ensures r.entry == r.kernel + U32At(image, 0x264) + 512
  {
    hide U32At, U64At, Lies, OnlyIn, Params, CommandLine, WithRamdisk, Basics, Run;
    assert 0x1000 <= |image|;
  }

  /* ---- a kernel that is told it lies at zero ---- */

  /** A setup sector and a kernel of seven more, unmovable, that asks for 4 GiB. */
  function HighByte(o: nat): byte
  {
    match o
    case 0x1F1 => 1
    case 0x1FE => 0x55
    case 0x1FF => 0xAA
    case 0x202 => 0x48
    case 0x203 => 0x64
    case 0x204 => 0x72
    case 0x205 => 0x53
    case 0x206 => 0x0B
    case 0x207 => 2
    case 0x236 => 8
    case 0x25C => 1
    case _ => 0
  }

  function HighImage(): (image: seq<byte>)
    ensures |image| == 0x1000 && forall o :: 0 <= o < 0x1000 ==> image[o] == HighByte(o)
  {
    seq(0x1000, o requires 0 <= o < 0x1000 => HighByte(o))
  }

  lemma HighImageBoots()
    ensures Bootable(HighImage()) && !Relocatable(HighImage())
  {
    hide Refusal, HighImage;
    BootableMeans(HighImage());
  }

  lemma HighImageAsks()
    ensures var image := HighImage();
            Bootable(image) && U64At(image, PREF_ADDRESS) == TWO_32
            && PagesFor(Need(image)) == 1 && LowPages(|CommandLine(image, [])|) == 1
  {
    HighImageBoots();
    hide Refusal, HighImage;
  }

  /** Where page 0x10_0000 is free and two more are left, such a kernel is handed over, and
      told it lies at address zero. */
  method HighKernelMistold(fw: Firmware, file: OnDisk) returns (r: Outcome, ghost g: Grants)
    requires fw.free == {1, 2, 0x10_0000} && FileRead(Some(file)) == Some(HighImage())
    modifies fw
    ensures r.HandedOver? && r.kernel == TWO_32
    ensures Lies(fw.mem, r.params, Params(HighImage(), r.kernel, r.cmd, r.ramdisk))
    ensures U32At(Params(HighImage(), r.kernel, r.cmd, r.ramdisk), CODE32_START) == 0
  {
    hide Refusal, Need, U32At, U64At, Params, CommandLine, FileRead, OnlyIn, Lies, HighImage;
    HighImageBoots();
    HighImageAsks();
    ghost var free0 := fw.free;
    r, g := Boot(fw, Some(file), None, []);
    assert Run(0x10_0000, 1) == {0x10_0000} && Run(1, 1) == {1} && Run(2, 1) == {2};
    assert g.kernel.Set() == {0x10_0000};
    WordsReadBack(HighImage(), r.kernel, r.cmd, r.ramdisk);
  }
}
