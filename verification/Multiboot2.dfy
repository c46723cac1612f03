/** Multiboot2 boot information (section 3.6 of the Multiboot2 Specification 2.0):
    the tags, a reader of them that knows nothing of the writer, the writer, and
    what the one recovers of what the other was given. */
module Multiboot2 {
  import opened Bytes
  import opened MemoryMap
  import opened Names

  const TAG_END: u32 := 0
  const TAG_MODULE: u32 := 3
  const TAG_MMAP: u32 := 6
  const TAG_FRAMEBUFFER: u32 := 8
  const TAG_ACPI_OLD: u32 := 14
  const TAG_ACPI_NEW: u32 := 15

  const MMAP_ENTRY: nat := 24
  const FB_TAG: nat := 37
  const RSDP_V1: nat := 20
  const RSDP_V2: nat := 36

  datatype FbInfo = FbInfo(addr: u64, pitch: u32, width: u32, height: u32, bpp: byte, fbType: byte,
                           redPos: byte, redSize: byte, greenPos: byte, greenSize: byte,
                           bluePos: byte, blueSize: byte)

  /** A copy of the firmware's root pointer: twenty bytes or thirty-six. */
  type Rsdp = s: seq<byte> | |s| == RSDP_V1 || |s| == RSDP_V2 witness Zeros(RSDP_V1)

  datatype Tag =
    | Mmap(regions: seq<Region>)
    | Module(start: u32, end: u32, name: seq<byte>)
    | Framebuffer(fb: FbInfo)
    | AcpiOld(rsdp: seq<byte>)
    | AcpiNew(rsdp: seq<byte>)

  /* ---- the reader, in the numbers of section 3.6 ---- */

  /** What walking the tags comes to: those met, and whether an END tag stood
      where the structure's total size says it stops. */
  datatype Walk = Walk(tags: seq<Tag>, ended: bool) | Malformed

  function ReadRegions(s: seq<byte>, stride: nat): Option<seq<Region>>
    requires 24 <= stride
    decreases |s|
  {
    if s == [] then Some([])
    else if |s| < stride then None
    else match ReadRegions(s[stride..], stride)
      case None => None
      case Some(rest) => Some([Region(U64At(s, 0), U64At(s, 8), U32At(s, 16))] + rest)
  }

  /** The tag in `t`, which is as long as the size it gives. */
  function ReadTag(t: seq<byte>): Option<Tag>
    requires 8 <= |t|
  {
    var kind := U32At(t, 0);
    if kind == 6 && 16 <= |t| && 24 <= U32At(t, 8) then
      match ReadRegions(t[16..], U32At(t, 8))
      case None => None
      case Some(regions) => Some(Mmap(regions))
    else if kind == 3 && 16 <= |t| && Terminated(t, 16) then
      Some(Module(U32At(t, 8), U32At(t, 12), CStr(t, 16)))
    else if kind == 8 && 37 <= |t| then
      Some(Framebuffer(FbInfo(U64At(t, 8), U32At(t, 16), U32At(t, 20), U32At(t, 24), t[28], t[29],
                              t[31], t[32], t[33], t[34], t[35], t[36])))
    else if kind == 14 && |t| == 28 then Some(AcpiOld(t[8..]))
    else if kind == 15 && |t| == 44 then Some(AcpiNew(t[8..]))
    else None
  }

  /** Walks the tags in `s`, each step the tag's size rounded up to 8. */
  function WalkTags(s: seq<byte>): Walk
    decreases |s|
  {
    if s == [] then Walk([], false)
    else if |s| < 8 then Malformed
    else
      var size := U32At(s, 4);
      if U32At(s, 0) == 0 then
        if size == 8 == |s| then Walk([], true) else Malformed
      else if size < 8 || |s| < Align8(size) then Malformed
      else match (ReadTag(s[..size]), WalkTags(s[Align8(size)..]))
        case (Some(tag), Walk(tags, ended)) => Walk([tag] + tags, ended)
        case _ => Malformed
  }

  /** Reads the structure at the start of `b`. */
  function Read(b: seq<byte>): Walk
  {
    if |b| < 8 || U32At(b, 0) < 8 || |b| < U32At(b, 0) then Malformed
    else WalkTags(b[8..U32At(b, 0)])
  }

  /* ---- what is written ---- */

  function RegionBytes(r: Region): (s: seq<byte>)
    ensures |s| == MMAP_ENTRY
  {
    Le64(r.base) + Le64(r.length) + Le32(r.kind) + Le32(0)
  }

  function RegionsBytes(rs: seq<Region>): (s: seq<byte>)
    ensures |s| == MMAP_ENTRY * |rs|
  {
    FlatLength(RegionBytes, rs, MMAP_ENTRY);
    Flat(RegionBytes, rs)
  }

  function FbBytes(fb: FbInfo): (s: seq<byte>)
    ensures |s| == FB_TAG - 8
  {
    Le64(fb.addr) + Le32(fb.pitch) + Le32(fb.width) + Le32(fb.height) +
    [fb.bpp, fb.fbType, 0, fb.redPos, fb.redSize, fb.greenPos, fb.greenSize, fb.bluePos, fb.blueSize]
  }

  function KindOf(tag: Tag): u32
  {
    match tag
    case Mmap(_) => TAG_MMAP
    case Module(_, _, _) => TAG_MODULE
    case Framebuffer(_) => TAG_FRAMEBUFFER
    case AcpiOld(_) => TAG_ACPI_OLD
    case AcpiNew(_) => TAG_ACPI_NEW
  }

  function Payload(tag: Tag): seq<byte>
  {
    match tag
    case Mmap(rs) => Le32(MMAP_ENTRY) + Le32(0) + RegionsBytes(rs)
    case Module(start, end, name) => Le32(start) + Le32(end) + name + [0]
    case Framebuffer(fb) => FbBytes(fb)
    case AcpiOld(rsdp) => rsdp
    case AcpiNew(rsdp) => rsdp
  }

  function SizeOf(tag: Tag): nat { 8 + |Payload(tag)| }

  predicate WellFormed(tag: Tag)
  {
    && SizeOf(tag) <= INFO_SIZE
    && (tag.Module? ==> NoNul(tag.name))
    && (tag.AcpiOld? ==> |tag.rsdp| == RSDP_V1)
    && (tag.AcpiNew? ==> |tag.rsdp| == RSDP_V2)
  }

  function TagBytes(tag: Tag): (s: seq<byte>)
    ensures |s| == SizeOf(tag)
  {
    Le32(KindOf(tag)) + Le32(Low32(SizeOf(tag))) + Payload(tag)
  }

  function Padded(tag: Tag): (s: seq<byte>)
    ensures |s| == Align8(SizeOf(tag))
  {
    TagBytes(tag) + Zeros(Align8(SizeOf(tag)) - SizeOf(tag))
  }

  function TagsBytes(tags: seq<Tag>): (s: seq<byte>)
  {
    Flat(Padded, tags)
  }

  /* ---- reading what was written ---- */

  lemma RegionReadsBack(r: Region, rest: seq<byte>)
    ensures var s := RegionBytes(r) + rest;
            Region(U64At(s, 0), U64At(s, 8), U32At(s, 16)) == r && s[MMAP_ENTRY..] == rest
  {
    var s := RegionBytes(r) + rest;
    assert s[0..8] == Le64(r.base);
    assert s[8..16] == Le64(r.length);
    assert s[16..20] == Le32(r.kind);
    ReadBack64(s, 0, r.base);
    ReadBack64(s, 8, r.length);
    ReadBack32(s, 16, r.kind);
  }

  lemma {:induction false} RegionsReadBack(rs: seq<Region>)
    ensures ReadRegions(RegionsBytes(rs), MMAP_ENTRY) == Some(rs)
  {
    if rs != [] {
      RegionReadsBack(rs[0], RegionsBytes(rs[1..]));
      RegionsReadBack(rs[1..]);
      assert rs == [rs[0]] + rs[1..];
    }
  }

  lemma HeadReadsBack(kind: u32, size: u32, payload: seq<byte>)
    ensures var t := Le32(kind) + Le32(size) + payload;
            U32At(t, 0) == kind && U32At(t, 4) == size && t[8..] == payload
  {
    var t := Le32(kind) + Le32(size) + payload;
    assert t[0..4] == Le32(kind);
    assert t[4..8] == Le32(size);
    ReadBack32(t, 0, kind);
    ReadBack32(t, 4, size);
  }

  lemma TagHeadReadsBack(tag: Tag)
    requires WellFormed(tag)
    ensures var t := TagBytes(tag); U32At(t, 0) == KindOf(tag) && U32At(t, 4) == SizeOf(tag) && t[8..] == Payload(tag)
  {
    HeadReadsBack(KindOf(tag), SizeOf(tag), Payload(tag));
  }

  lemma MmapReadsBack(tag: Tag)
    requires WellFormed(tag) && tag.Mmap?
    ensures ReadTag(TagBytes(tag)) == Some(tag)
  {
    TagHeadReadsBack(tag);
    var t := TagBytes(tag);
    assert t[8..12] == t[8..][..4] == Le32(MMAP_ENTRY);
    ReadBack32(t, 8, MMAP_ENTRY);
    assert t[16..] == t[8..][8..] == RegionsBytes(tag.regions);
    RegionsReadBack(tag.regions);
  }

  lemma ModuleReadsBack(tag: Tag)
    requires WellFormed(tag) && tag.Module?
    ensures ReadTag(TagBytes(tag)) == Some(tag)
  {
    hide Le32;
    TagHeadReadsBack(tag);
    var t, n := TagBytes(tag), |tag.name|;
    assert t[8..12] == t[8..][..4] == Le32(tag.start);
    assert t[12..16] == t[8..][4..8] == Le32(tag.end);
    ReadBack32(t, 8, tag.start);
    ReadBack32(t, 12, tag.end);
    assert t[16..16 + n] == t[8..][8..8 + n] == tag.name;
    assert t[16 + n] == t[8..][8 + n] == 0;
    CStrReadsBack(t, 16, tag.name);
  }

  lemma FramebufferReadsBack(tag: Tag)
    requires WellFormed(tag) && tag.Framebuffer?
    ensures ReadTag(TagBytes(tag)) == Some(tag)
  {
    hide Le32, Le64;
    TagHeadReadsBack(tag);
    var t, fb := TagBytes(tag), tag.fb;
    var p := t[8..];
    assert p == FbBytes(fb);
    assert t[8..16] == p[..8] == Le64(fb.addr);
    assert t[16..20] == p[8..12] == Le32(fb.pitch);
    assert t[20..24] == p[12..16] == Le32(fb.width);
    assert t[24..28] == p[16..20] == Le32(fb.height);
    ReadBack64(t, 8, fb.addr);
    ReadBack32(t, 16, fb.pitch);
    ReadBack32(t, 20, fb.width);
    ReadBack32(t, 24, fb.height);
    assert t[28..] == p[20..] == [fb.bpp, fb.fbType, 0, fb.redPos, fb.redSize, fb.greenPos, fb.greenSize,
                                  fb.bluePos, fb.blueSize];
    var q := t[28..];
    assert t[28] == q[0] && t[29] == q[1] && t[31] == q[3] && t[32] == q[4] && t[33] == q[5];
    assert t[34] == q[6] && t[35] == q[7] && t[36] == q[8];
  }

  lemma TagReadsBack(tag: Tag)
    requires WellFormed(tag)
    ensures ReadTag(TagBytes(tag)) == Some(tag)
  {
    match tag
    case Mmap(_) => MmapReadsBack(tag);
    case Module(_, _, _) => ModuleReadsBack(tag);
    case Framebuffer(_) => FramebufferReadsBack(tag);
    case AcpiOld(_) => TagHeadReadsBack(tag);
    case AcpiNew(_) => TagHeadReadsBack(tag);
  }

  function EndBytes(): (s: seq<byte>)
    ensures |s| == 8
  {
    Le32(TAG_END) + Le32(8)
  }

  lemma WalkStep(tag: Tag, rest: seq<byte>)
    requires WellFormed(tag)
    ensures var s, size := Padded(tag) + rest, SizeOf(tag);
            && Align8(size) <= |s|
            && U32At(s, 0) == KindOf(tag) && U32At(s, 4) == size
            && s[..size] == TagBytes(tag) && s[Align8(size)..] == rest
  {
    var s, size := Padded(tag) + rest, SizeOf(tag);
    TagHeadReadsBack(tag);
    assert s[..size] == TagBytes(tag);
    assert forall i :: 0 <= i < 8 ==> s[i] == TagBytes(tag)[i];
  }

  lemma WalkUnfolds(s: seq<byte>, tag: Tag, rest: seq<byte>, tags: seq<Tag>, ended: bool)
    requires 8 <= |s| && U32At(s, 0) != TAG_END
    requires 8 <= U32At(s, 4) && Align8(U32At(s, 4)) <= |s|
    requires ReadTag(s[..U32At(s, 4)]) == Some(tag)
    requires s[Align8(U32At(s, 4))..] == rest && WalkTags(rest) == Walk(tags, ended)
    ensures WalkTags(s) == Walk([tag] + tags, ended)
  {
  }

  lemma WalkReadsTag(tag: Tag, rest: seq<byte>, tags: seq<Tag>, ended: bool)
    requires WellFormed(tag) && WalkTags(rest) == Walk(tags, ended)
    ensures WalkTags(Padded(tag) + rest) == Walk([tag] + tags, ended)
  {
    WalkStep(tag, rest);
    TagReadsBack(tag);
    WalkUnfolds(Padded(tag) + rest, tag, rest, tags, ended);
  }

  lemma WalkEnds()
    ensures WalkTags(EndBytes()) == Walk([], true)
  {
    var s := EndBytes();
    assert s[0..4] == Le32(TAG_END) && s[4..8] == Le32(8);
    ReadBack32(s, 0, TAG_END);
    ReadBack32(s, 4, 8);
  }

  /** Tags written one after another are the tags walked, and the walk says
      whether an END tag followed them. */
  lemma {:induction false} WalkReadsBack(tags: seq<Tag>, tail: seq<byte>)
    requires forall t :: t in tags ==> WellFormed(t)
    requires tail == [] || tail == EndBytes()
    ensures WalkTags(TagsBytes(tags) + tail) == Walk(tags, tail != [])
    decreases |tags|
  {
    hide Padded, ReadTag, Align8, WellFormed, U32At, Le32;
    if tags == [] {
      assert TagsBytes(tags) + tail == tail;
      WalkEnds();
    } else {
      var tag, rest := tags[0], TagsBytes(tags[1..]) + tail;
      assert TagsBytes(tags) + tail == Padded(tag) + rest;
      WalkReadsBack(tags[1..], tail);
      WalkReadsTag(tag, rest, tags[1..], tail != []);
      assert tags == [tag] + tags[1..];
    }
  }

  /** The same of a whole block: total size, reserved word, tags, and perhaps END. */
  lemma ReadReadsBack(b: seq<byte>, total: u32, tags: seq<Tag>, tail: seq<byte>)
    requires forall t :: t in tags ==> WellFormed(t)
    requires tail == [] || tail == EndBytes()
    requires total == 8 + |TagsBytes(tags)| + |tail|
    requires Holds(b, Le32(total) + Le32(0) + TagsBytes(tags) + tail)
    ensures Read(b) == Walk(tags, tail != [])
  {
    hide Padded, Le32, WalkTags;
    var body := TagsBytes(tags) + tail;
    var s := Le32(total) + Le32(0) + body;
    assert Le32(total) + Le32(0) + TagsBytes(tags) + tail == s;
    assert b[..total] == s;
    assert b[0..4] == s[0..4] == Le32(total);
    ReadBack32(b, 0, total);
    assert b[8..total] == s[8..] == body;
    WalkReadsBack(tags, tail);
  }
}
