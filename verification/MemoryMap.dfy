/** The firmware's memory map, as both Multiboot structures report it. */
module MemoryMap {
  import opened Bytes

  /** The firmware memory types the loader tells apart; the rest are `Other`. */
  datatype EfiType =
    | Conventional | LoaderCode | LoaderData | BootServicesCode | BootServicesData
    | AcpiReclaim | AcpiNonVolatile | Other(code: u32)

  datatype Descriptor = Descriptor(ty: EfiType, start: u64, pages: u64)
  {
    /** `page_count * 4096`, which a release build lets wrap. */
    function Length(): u64 { Low64(pages * 4096) }

    predicate Available() { EfiMemtypeToMb(ty) == 1 }
  }

  function EfiMemtypeToMb(ty: EfiType): u32
  {
    match ty
    case Conventional | LoaderCode | LoaderData | BootServicesCode | BootServicesData => 1
    case AcpiReclaim => 3
    case AcpiNonVolatile => 4
    case Other(_) => 2
  }

  /** Where boot information is written: four pages the firmware set aside, lying
      wholly below 4 GiB. */
  const INFO_SIZE: nat := 4 * 4096

  predicate Reserved(at: nat) { 0 < at && at + INFO_SIZE <= TWO_32 }

  /** One region as a kernel reads it back. */
  datatype Region = Region(base: u64, length: u64, kind: u32)

  function RegionOf(d: Descriptor): Region
  {
    Region(d.start, d.Length(), EfiMemtypeToMb(d.ty))
  }

  /** What a kernel is to make of a descriptor: its place, its length in pages of 4096
      bytes, and its kind as both specifications number them. */
  ghost predicate ToldAs(r: Region, d: Descriptor)
  {
    && r.base == d.start && r.length == d.pages * 4096 % 0x1_0000_0000_0000_0000
    && (r.kind == 1 <==>
          || d.ty.Conventional? || d.ty.LoaderCode? || d.ty.LoaderData?
          || d.ty.BootServicesCode? || d.ty.BootServicesData?)
    && (r.kind == 3 <==> d.ty.AcpiReclaim?)
    && (r.kind == 4 <==> d.ty.AcpiNonVolatile?)
    && (r.kind == 2 <==> d.ty.Other?)
  }

  lemma RegionTold(d: Descriptor)
    ensures ToldAs(RegionOf(d), d)
  {
    Low64Is(d.pages * 4096);
  }

  function Regions(ds: seq<Descriptor>): (rs: seq<Region>)
    ensures |rs| == |ds| && forall i :: 0 <= i < |ds| ==> rs[i] == RegionOf(ds[i])
  {
    seq(|ds|, i requires 0 <= i < |ds| => RegionOf(ds[i]))
  }
}
