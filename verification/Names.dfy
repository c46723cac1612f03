/** The table of module names, and the records whose pointers lead into it. */
module Names {
  import opened Bytes

  const CAP: nat := 4096
  const QUESTION: byte := 0x3F

  /* ---- what a run of names leaves in the table ---- */

  /** Length of a 16-bit name up to its first NUL. */
  function NameLen(name: seq<u16>): (n: nat)
    ensures n <= |name|
    ensures forall i :: 0 <= i < n ==> name[i] != 0
    ensures n < |name| ==> name[n] == 0
  {
    if name == [] || name[0] == 0 then 0 else 1 + NameLen(name[1..])
  }

  function AsciiUnit(u: u16): byte { if u < 128 then u else QUESTION }

  /** The name up to its first NUL, one byte a unit, `?` for what is not ASCII. */
  function Ascii(name: seq<u16>): (s: seq<byte>)
    ensures NoNul(s)
  {
    seq(NameLen(name), i requires 0 <= i < NameLen(name) => AsciiUnit(name[i]))
  }

  /** The name as the table keeps it, unit by unit: up to the first NUL, ASCII as itself and
      anything else as `?`. */
  lemma AsciiMeans(name: seq<u16>, n: nat)
    requires n <= |name| && (forall i :: 0 <= i < n ==> name[i] != 0) && (n < |name| ==> name[n] == 0)
    ensures |Ascii(name)| == n
    ensures forall i :: 0 <= i < n ==> Ascii(name)[i] == if name[i] <= 0x7F then name[i] else 0x3F
  {
  }

  /** Bytes that the first `n` names, each with its terminator, would take in an
      endless table. */
  function Total(names: seq<seq<byte>>, n: nat): nat
    requires n <= |names|
  {
    if n == 0 then 0 else Total(names, n - 1) + |names[n - 1]| + 1
  }

  lemma {:induction false} TotalMonotone(names: seq<seq<byte>>, i: nat, n: nat)
    requires i < n <= |names|
    ensures Total(names, i) + |names[i]| + 1 <= Total(names, n)
    decreases n
  {
    if i < n - 1 {
      TotalMonotone(names, i, n - 1);
    }
  }

  lemma {:induction false} TotalOfPrefix(names: seq<seq<byte>>, longer: seq<seq<byte>>, n: nat)
    requires names <= longer && n <= |names|
    ensures Total(longer, n) == Total(names, n)
  {
    if n > 0 {
      TotalOfPrefix(names, longer, n - 1);
    }
  }

  /** Where the pointer returned for the `i`th name of a run points. */
  function Offset(names: seq<seq<byte>>, i: nat): (o: nat)
    requires i < |names|
    ensures o < CAP
  {
    Min(Total(names, i), CAP - 1)
  }

  /** The part of the `i`th name of a run there is room for. */
  function Kept(names: seq<seq<byte>>, i: nat): (s: seq<byte>)
    requires i < |names|
  {
    names[i][..Min(|names[i]|, Max(0, CAP - 1 - Total(names, i)))]
  }

  /** A NUL-terminated string lies at `o`. */
  ghost predicate Slot(b: seq<byte>, o: nat, s: seq<byte>)
  {
    o + |s| < |b| && b[o..o + |s|] == s && NoNul(s) && b[o + |s|] == 0
  }

  lemma SlotReads(b: seq<byte>, o: nat, s: seq<byte>)
    requires Slot(b, o, s)
    ensures Terminated(b, o) && CStr(b, o) == s
  {
    CStrReadsBack(b, o, s);
  }

  lemma SlotOfPrefix(b: seq<byte>, n: nat, o: nat, s: seq<byte>)
    requires n <= |b| && Slot(b[..n], o, s)
    ensures Slot(b, o, s)
  {
    SliceOfSlice(b, 0, n, o, o + |s|);
    assert b[0..n] == b[..n];
  }

  /** Names are all kept whole exactly as long as they fit together. */
  lemma KeptWhole(names: seq<seq<byte>>, i: nat)
    requires i < |names|
    ensures Total(names, |names|) <= 4096 ==> Kept(names, i) == names[i] && Offset(names, i) == Total(names, i)
    ensures names[i] != [] ==> (Kept(names, i) == names[i] <==> Total(names, i + 1) <= 4096)
  {
    TotalMonotone(names, i, |names|);
    assert Kept(names, i) == names[i] <==> |Kept(names, i)| == |names[i]|;
  }

  /** The used part of the table: every name of the run has its slot in it, and
      a terminator ends it. */
  ghost predicate Packed(b: seq<byte>, names: seq<seq<byte>>)
  {
    && |b| == Min(Total(names, |names|), CAP)
    && (b != [] ==> b[|b| - 1] == 0)
    && (forall i {:trigger Kept(names, i)} :: 0 <= i < |names| ==> Slot(b, Offset(names, i), Kept(names, i)))
  }

  /* ---- the table ---- */

  class NameTable {
    const buf: array<byte>
    /** The address the buffer lies at. */
    const at: u64
    var pos: nat
    /** Every name stored so far, as ASCII and before any was cut short. */
    ghost var stored: seq<seq<byte>>

    ghost predicate Valid(): (valid: bool)
      reads this, buf
      ensures valid ==> at + CAP <= TWO_64
    {
      && buf.Length == CAP
      && at + CAP <= TWO_64
      && pos <= CAP
      && Packed(buf[..pos], stored)
    }

    constructor (at: u64)
      requires at + CAP <= TWO_64
      ensures Valid() && stored == [] && this.at == at && fresh(buf)
    {
      buf := new byte[CAP](_ => 0);
      this.at := at;
      pos := 0;
      stored := [];
    }

    /** Every pointer of a run still leads to its own name, NUL and all. */
    lemma NamesSurvive(i: nat)
      requires Valid() && i < |stored|
      ensures Terminated(buf[..], Offset(stored, i))
      ensures CStr(buf[..], Offset(stored, i)) == Kept(stored, i)
    {
      var o, s := Offset(stored, i), Kept(stored, i);
      assert Slot(buf[..pos], o, s);
      assert buf[..pos] == buf[..][..pos];
      SlotOfPrefix(buf[..], pos, o, s);
      SlotReads(buf[..], o, s);
    }

    method StoreName(name: seq<u16>) returns (ptr: u64)
      requires Valid()
      modifies this, buf
      ensures Valid()
      ensures stored == old(stored) + [Ascii(name)]
      ensures ptr == at + Offset(stored, |stored| - 1)
    {
      ghost var used := buf[..pos];
      ghost var ascii := Ascii(name);
      if pos >= CAP {
        FullTableKeepsSlots(used, stored, ascii);
        stored := stored + [ascii];
        return at + (CAP - 1);
      }
      var written := CopyAscii(buf, pos, name);
      NewNameTakesItsSlot(used, stored, ascii, written);
      ptr := at + pos;
      pos := pos + written + 1;
      stored := stored + [ascii];
    }
  }

  /** The copying loop of `store_name`, with the terminator it ends by writing. */
  method CopyAscii(buf: array<byte>, pos: nat, name: seq<u16>) returns (written: nat)
    requires buf.Length == CAP && pos < CAP
    modifies buf
    ensures written == Min(|Ascii(name)|, 4095 - pos)
    ensures buf[..pos + written + 1] == old(buf[..pos]) + Ascii(name)[..written] + [0]
  {
    ghost var used := buf[..pos];
    ghost var ascii := Ascii(name);
    written := 0;
    for i := 0 to |name|
      invariant written == i <= |ascii|
      invariant pos + written <= CAP - 1
      invariant buf[..pos + written] == used + ascii[..written]
    {
      var val := name[i];
      if val == 0 {
        break;
      }
      // Leave one byte for the terminator.
      if pos + written >= CAP - 1 {
        break;
      }
      buf[pos + written] := if val < 128 then val else QUESTION;
      written := written + 1;
    }
    buf[pos + written] := 0;
  }

  /** Growing the used part of the table leaves the names in it where they were. */
  lemma EarlierNamesKeepTheirSlots(b: seq<byte>, c: seq<byte>, names: seq<seq<byte>>, name: seq<byte>)
    requires b <= c
    requires forall i {:trigger Kept(names, i)} :: 0 <= i < |names| ==> Slot(b, Offset(names, i), Kept(names, i))
    ensures forall i {:trigger Kept(names + [name], i)} :: 0 <= i < |names| ==>
              Slot(c, Offset(names + [name], i), Kept(names + [name], i))
  {
    forall i | 0 <= i < |names|
      ensures Slot(c, Offset(names + [name], i), Kept(names + [name], i))
    {
      TotalOfPrefix(names, names + [name], i);
      assert Slot(b, Offset(names, i), Kept(names, i)) && c[..|b|] == b;
      SlotOfPrefix(c, |b|, Offset(names, i), Kept(names, i));
    }
  }

  /** One more name after those that filled `b`: it is cut to the room left. */
  lemma NewNameTakesItsSlot(b: seq<byte>, names: seq<seq<byte>>, name: seq<byte>, written: nat)
    requires Packed(b, names) && NoNul(name)
    requires |b| < CAP && written == Min(|name|, CAP - 1 - |b|)
    ensures Packed(b + name[..written] + [0], names + [name])
    ensures Offset(names + [name], |names|) == |b|
  {
    var names', c := names + [name], b + name[..written] + [0];
    EarlierNamesKeepTheirSlots(b, c, names, name);
    TotalOfPrefix(names, names', |names|);
    assert Kept(names', |names|) == name[..written];
    assert c[|b|..|b| + written] == name[..written];
  }

  /** In a full table every further name is the empty one its last byte ends. */
  lemma FullTableKeepsSlots(b: seq<byte>, names: seq<seq<byte>>, name: seq<byte>)
    requires Packed(b, names) && NoNul(name) && |b| == CAP
    ensures Packed(b, names + [name])
    ensures Offset(names + [name], |names|) == 4095
  {
    var names' := names + [name];
    EarlierNamesKeepTheirSlots(b, b, names, name);
    TotalOfPrefix(names, names', |names|);
  }

  /* ---- a module as its record describes it ---- */

  datatype ModuleInfo = ModuleInfo(namePtr: u64, physStart: u64, size: u64)

  /** A module to report, with the name its pointer leads to. */
  datatype Named = Named(name: seq<byte>, start: u64, size: u64)

  /** `m`'s record, followed through its pointer into the name table `b` at `at`,
      is the module `named`. */
  ghost predicate LeadsTo(m: ModuleInfo, named: Named, b: seq<byte>, at: u64)
  {
    && at <= m.namePtr
    && Terminated(b, m.namePtr - at)
    && named == Named(CStr(b, m.namePtr - at), m.physStart, m.size)
  }

  lemma NulStep(b: seq<byte>, o: nat)
    requires o < |b|
    ensures NulFrom(b, o) == if b[o] == 0 then o else NulFrom(b, o + 1)
  {
  }

  lemma StringIs(b: seq<byte>, o: nat)
    requires o <= |b|
    ensures CStr(b, o) == b[o..NulFrom(b, o)]
  {
  }

  /** Length of the string at `o`, by looking for its NUL. */
  method NameLength(names: array<byte>, o: nat) returns (n: nat)
    requires Terminated(names[..], o)
    ensures o + n < names.Length && names[o + n] == 0 && names[..][o..o + n] == CStr(names[..], o)
  {
    n := 0;
    ghost var b := names[..];
    hide NulFrom, CStr;
    while names[o + n] != 0
      invariant o + n < names.Length && NulFrom(b, o + n) == NulFrom(b, o) < names.Length
      decreases names.Length - n
    {
      NulStep(b, o + n);
      n := n + 1;
    }
    NulStep(b, o + n);
    StringIs(b, o);
  }

  lemma NamedNoNul(modules: seq<ModuleInfo>, named: seq<Named>, b: seq<byte>, at: u64)
    requires |named| == |modules|
    requires forall i :: 0 <= i < |modules| ==> LeadsTo(modules[i], named[i], b, at)
    ensures forall i :: 0 <= i < |named| ==> NoNul(named[i].name)
  {
    forall i | 0 <= i < |named|
      ensures NoNul(named[i].name)
    {
      assert LeadsTo(modules[i], named[i], b, at);
    }
  }
}
