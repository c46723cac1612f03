/** Writing a configuration out, and reading back the same one. */
module ConfigText {
  import opened Bytes
  import opened Text
  import opened Config
  import opened ConfigLaws

  const INDENT: string := "    "

  /* ---- one line ---- */

  function Line(pad: string, directive: string, arg: string): string { pad + directive + " " + arg }

  predicate Word(s: string)
  {
    s != [] && forall i :: 0 <= i < |s| ==> !IsSpace(s[i]) && s[i] != '#' && s[i] != '\n'
  }

  /** Text that survives being an argument: no comment sign, no line feed, and no
      space at either end. */
  predicate Plain(s: string) { Trimmed(s) && Without(s, '#') && Without(s, '\n') }

  predicate Spaces(s: string) { forall i :: 0 <= i < |s| ==> s[i] == ' ' }

  lemma NoComment(raw: string)
    requires Without(raw, '#')
    ensures Clean(raw) == Trim(raw)
  {
    var k := IndexOf(raw, '#');
    assert raw[..|raw|] == raw;
  }

  lemma TrimLine(pad: string, directive: string, arg: string)
    requires Spaces(pad) && Word(directive) && Plain(arg)
    ensures Trim(Line(pad, directive, arg)) == if arg == "" then directive else directive + " " + arg
  {
    var s := directive + " " + arg;
    assert Line(pad, directive, arg) == pad + s;
    TrimStartSpaces(pad, s);
    assert s[0] == directive[0];
    assert TrimStart(s) == s;
    if arg == "" {
      assert s[..|s| - 1] == directive;
      assert TrimEnd(directive) == directive;
    } else {
      assert s[|s| - 1] == arg[|arg| - 1];
    }
  }

  lemma SplitWords(directive: string, arg: string)
    requires Word(directive) && Plain(arg)
    ensures Split(if arg == "" then directive else directive + " " + arg) == (directive, arg)
  {
    var line := if arg == "" then directive else directive + " " + arg;
    assert forall i :: 0 <= i < |directive| ==> line[i] == directive[i];
    TrimmedIsTrim(line);
    assert arg != "" ==> line[|directive|] == ' ' && IsSpace(' ');
    assert FirstSpace(line) == |directive|;
    if arg != "" {
      assert line[|directive|..] == " " + arg;
      TrimStartSpaces(" ", arg);
      TrimmedIsTrim(arg);
      assert line[..|directive|] == directive;
    }
  }

  /** A line written from a directive and an argument reads as that directive and
      that argument, however far it is indented. */
  lemma LineReadsBack(pad: string, directive: string, arg: string, st: State)
    requires Spaces(pad) && Word(directive) && Plain(arg)
    ensures Step(st, Line(pad, directive, arg)) == Apply(st, directive, arg)
    ensures Without(Line(pad, directive, arg), '\n') && StripCr(Line(pad, directive, arg)) == Line(pad, directive, arg)
  {
    hide Clean, Split, Apply, Trim;
    var raw := Line(pad, directive, arg);
    assert forall c :: c != ' ' && Without(directive, c) && Without(arg, c) ==> Without(raw, c);
    NoComment(raw);
    TrimLine(pad, directive, arg);
    SplitWords(directive, arg);
  }

  /* ---- a whole configuration ---- */

  predicate GoodPath(p: string) { Plain(p) && Usable(p) }

  predicate GoodEntry(e: Entry)
  {
    && Plain(e.title)
    && match e.target
       case Multiboot(kernel, modules) =>
         kernel != "" && GoodPath(kernel) && (modules.Some? ==> GoodPath(modules.value))
       case Chainload(path, device) => GoodPath(path) && device.None?
       case Linux(image, initrd, cmdline) =>
         GoodPath(image) && (initrd.Some? ==> GoodPath(initrd.value)) && Plain(cmdline)
  }

  /** A configuration a file can say: its default is one of its entries, and there is
      nothing in it that a line cannot hold. */
  predicate Sayable(cfg: Config)
  {
    && (if cfg.entries == [] then cfg.default == 0 else cfg.default < |cfg.entries|)
    && |cfg.entries| < TWO_64
    && forall i :: 0 <= i < |cfg.entries| ==> GoodEntry(cfg.entries[i])
  }

  function EntryLines(e: Entry): seq<string>
  {
    [Line("", "entry", e.title)] +
    match e.target
    case Multiboot(kernel, modules) =>
      [Line(INDENT, "multiboot", kernel)] + (if modules.Some? then [Line(INDENT, "modules", modules.value)] else [])
    case Chainload(path, _) => [Line(INDENT, "chainload", path)]
    case Linux(image, initrd, cmdline) =>
      [Line(INDENT, "linux", image)] + (if initrd.Some? then [Line(INDENT, "initrd", initrd.value)] else [])
      + [Line(INDENT, "options", cmdline)]
  }

  function EntriesLines(entries: seq<Entry>): seq<string>
  {
    if entries == [] then []
    else EntriesLines(entries[..|entries| - 1]) + EntryLines(entries[|entries| - 1])
  }

  /** The default by its title where a title says it, and by its number where not:
      for a title that reads as a number or that an earlier entry has too. */
  function DefaultText(cfg: Config): string
    requires Sayable(cfg)
  {
    if cfg.entries != [] && ParseU64(cfg.entries[cfg.default].title).None?
       && Position(cfg.entries, cfg.entries[cfg.default].title) == Some(cfg.default)
    then cfg.entries[cfg.default].title
    else Decimal(cfg.default)
  }

  function HeadLines(cfg: Config): seq<string>
    requires Sayable(cfg)
  {
    [Line("", "timeout", Decimal(cfg.timeout)), Line("", "autodetect", if cfg.autodetect then "on" else "off"),
     Line("", "default", DefaultText(cfg))]
  }

  function Render(cfg: Config): string
    requires Sayable(cfg)
  {
    Join(HeadLines(cfg) + EntriesLines(cfg.entries))
  }

  /* ---- reading it back ---- */

  lemma FoldOne(st: State, line: string)
    ensures Fold(st, [line]) == Step(st, line)
  {
    assert [line][..0] == [];
    assert Fold(st, []) == st;
  }

  lemma FoldTwo(st: State, first: string, second: string)
    ensures Fold(st, [first, second]) == Step(Step(st, first), second)
  {
    hide Step;
    FoldOne(st, first);
    FoldSnoc(st, [first], second);
    assert [first] + [second] == [first, second];
  }

  /** The state with its last entry given another target. */
  function Aimed(st: State, t: Target): State
    requires st.cfg.entries != []
  {
    var n := |st.cfg.entries| - 1;
    st.(cfg := st.cfg.(entries := st.cfg.entries[n := st.cfg.entries[n].(target := t)]))
  }

  lemma OwnLine(st: State, directive: string, arg: string)
    requires st.cfg.entries != [] && Word(directive) && Plain(arg) && !Global(directive)
    ensures Step(st, Line(INDENT, directive, arg))
            == Aimed(st, Retarget(st.cfg.entries[|st.cfg.entries| - 1].target, directive, arg))
  {
    hide Retarget, Step;
    LineReadsBack(INDENT, directive, arg, st);
  }

  function Begun(st: State, title: string): State
  {
    st.(cfg := st.cfg.(entries := st.cfg.entries + [Entry(title, UNFILLED)]))
  }

  lemma EntryBegins(st: State, title: string)
    requires Plain(title)
    ensures Step(st, Line("", "entry", title)) == Begun(st, title)
  {
    hide Step;
    LineReadsBack("", "entry", title, st);
  }

  lemma AimedTwice(st: State, title: string, t: Target, u: Target)
    ensures Aimed(Aimed(Begun(st, title), t), u) == Aimed(Begun(st, title), u)
    ensures Aimed(Begun(st, title), t).cfg.entries[|st.cfg.entries|] == Entry(title, t)
    ensures Aimed(Begun(st, title), t)
            == st.(cfg := st.cfg.(entries := st.cfg.entries + [Entry(title, t)]))
  {
  }

  /** An entry's lines add that entry. */
  lemma EntryReadsBack(st: State, e: Entry)
    requires GoodEntry(e)
    ensures Fold(st, EntryLines(e)) == st.(cfg := st.cfg.(entries := st.cfg.entries + [e]))
  {
    hide Step, Line, Aimed, Begun, Plain, Usable, EntryLines, Fold;
    AimedTwice(st, e.title, e.target, e.target);
    assert e == Entry(e.title, e.target);
    match e.target {
      case Multiboot(kernel, modules) =>
        MultibootReadsBack(st, e.title, kernel, modules);
      case Chainload(path, _) =>
        ChainloadReadsBack(st, e.title, path);
      case Linux(image, initrd, cmdline) =>
        LinuxReadsBack(st, e.title, image, initrd, cmdline);
    }
  }

  lemma BegunTarget(st: State, title: string)
    ensures Begun(st, title).cfg.entries != []
    ensures Begun(st, title).cfg.entries[|Begun(st, title).cfg.entries| - 1].target == UNFILLED
  {
  }

  lemma AimedTarget(st: State, t: Target)
    requires st.cfg.entries != []
    ensures |Aimed(st, t).cfg.entries| == |st.cfg.entries|
    ensures Aimed(st, t).cfg.entries[|st.cfg.entries| - 1].target == t
  {
  }

  lemma MultibootReadsBack(st: State, title: string, kernel: string, modules: Option<string>)
    requires Plain(title) && GoodPath(kernel) && (modules.Some? ==> GoodPath(modules.value))
    ensures Fold(st, EntryLines(Entry(title, Multiboot(kernel, modules))))
            == Aimed(Begun(st, title), Multiboot(kernel, modules))
  {
    hide Step, Line, Aimed, Begun, Plain, Usable;
    EntryBegins(st, title);
    BegunTarget(st, title);
    var s0, l0, l1 := Begun(st, title), Line("", "entry", title), Line(INDENT, "multiboot", kernel);
    var s1 := Aimed(s0, Multiboot(kernel, None));
    assert Word("multiboot") && Word("modules");
    OwnLine(s0, "multiboot", kernel);
    FoldTwo(st, l0, l1);
    AimedTarget(s0, Multiboot(kernel, None));
    if modules.Some? {
      var l2 := Line(INDENT, "modules", modules.value);
      OwnLine(s1, "modules", modules.value);
      FoldSnoc(st, [l0, l1], l2);
      assert [l0] + ([l1] + [l2]) == [l0, l1] + [l2];
      AimedTwice(st, title, Multiboot(kernel, None), Multiboot(kernel, modules));
    } else {
      assert [l0] + ([l1] + []) == [l0, l1];
    }
  }

  lemma ChainloadReadsBack(st: State, title: string, path: string)
    requires Plain(title) && GoodPath(path)
    ensures Fold(st, EntryLines(Entry(title, Chainload(path, None)))) == Aimed(Begun(st, title), Chainload(path, None))
  {
    hide Step, Line, Aimed, Begun, Plain, Usable;
    EntryBegins(st, title);
    BegunTarget(st, title);
    assert Word("chainload");
    OwnLine(Begun(st, title), "chainload", path);
    FoldTwo(st, Line("", "entry", title), Line(INDENT, "chainload", path));
  }

  lemma LinuxReadsBack(st: State, title: string, image: string, initrd: Option<string>, cmdline: string)
    requires Plain(title) && GoodPath(image) && (initrd.Some? ==> GoodPath(initrd.value)) && Plain(cmdline)
    ensures Fold(st, EntryLines(Entry(title, Linux(image, initrd, cmdline))))
            == Aimed(Begun(st, title), Linux(image, initrd, cmdline))
  {
    hide Step, Line, Aimed, Begun, Plain, Usable, Fold, Retarget;
    LinuxFilesReadBack(st, title, image, initrd);
    assert Word("options");
    var files := LinuxFileLines(title, image, initrd);
    BegunTarget(st, title);
    var s2 := Aimed(Begun(st, title), Linux(image, initrd, ""));
    AimedTarget(Begun(st, title), Linux(image, initrd, ""));
    OwnLine(s2, "options", cmdline);
    OptionsRetarget(image, initrd, cmdline);
    FoldSnoc(st, files, Line(INDENT, "options", cmdline));
    assert EntryLines(Entry(title, Linux(image, initrd, cmdline))) == files + [Line(INDENT, "options", cmdline)];
    AimedTwice(st, title, Linux(image, initrd, ""), Linux(image, initrd, cmdline));
  }

  lemma OptionsRetarget(image: string, initrd: Option<string>, cmdline: string)
    ensures Retarget(Linux(image, initrd, ""), "options", cmdline) == Linux(image, initrd, cmdline)
  {
  }

  function LinuxFileLines(title: string, image: string, initrd: Option<string>): seq<string>
  {
    [Line("", "entry", title), Line(INDENT, "linux", image)]
    + if initrd.Some? then [Line(INDENT, "initrd", initrd.value)] else []
  }

  lemma LinuxFilesReadBack(st: State, title: string, image: string, initrd: Option<string>)
    requires Plain(title) && GoodPath(image) && (initrd.Some? ==> GoodPath(initrd.value))
    ensures Fold(st, LinuxFileLines(title, image, initrd)) == Aimed(Begun(st, title), Linux(image, initrd, ""))
  {
    hide Step, Line, Aimed, Begun, Plain, Usable;
    EntryBegins(st, title);
    BegunTarget(st, title);
    assert Word("linux") && Word("initrd");
    var s0, l0, l1 := Begun(st, title), Line("", "entry", title), Line(INDENT, "linux", image);
    var t1 := Linux(image, None, "");
    OwnLine(s0, "linux", image);
    FoldTwo(st, l0, l1);
    AimedTarget(s0, t1);
    if initrd.Some? {
      OwnLine(Aimed(s0, t1), "initrd", initrd.value);
      FoldSnoc(st, [l0, l1], Line(INDENT, "initrd", initrd.value));
      AimedTwice(st, title, t1, Linux(image, initrd, ""));
    } else {
      assert [l0, l1] + [] == [l0, l1];
    }
  }

  lemma {:induction false} EntriesReadBack(st: State, entries: seq<Entry>)
    requires st.cfg.entries == [] && forall i :: 0 <= i < |entries| ==> GoodEntry(entries[i])
    ensures Fold(st, EntriesLines(entries)) == st.(cfg := st.cfg.(entries := entries))
  {
    hide Step, EntryLines, GoodEntry;
    if entries == [] {
    } else {
      var front, last := entries[..|entries| - 1], entries[|entries| - 1];
      EntriesReadBack(st, front);
      FoldConcat(st, EntriesLines(front), EntryLines(last));
      EntryReadsBack(st.(cfg := st.cfg.(entries := front)), last);
      assert front + [last] == entries;
    }
  }

  lemma HeadReadsBack(cfg: Config)
    requires Sayable(cfg)
    ensures var text := DefaultText(cfg);
            Fold(START, HeadLines(cfg)) ==
            if ParseU64(text).Some?
            then State(Config(cfg.timeout, cfg.default, [], cfg.autodetect), None)
            else State(Config(cfg.timeout, 0, [], cfg.autodetect), Some(text))
  {
    hide Step, Line, Plain, ParseU64, Decimal;
    var text, l := DefaultText(cfg), HeadLines(cfg);
    var on := if cfg.autodetect then "on" else "off";
    DefaultPlain(cfg);
    DecimalPlain(cfg.timeout);
    DecimalParses(cfg.timeout);
    DecimalParses(cfg.default);
    assert Plain("on") && Plain("off") by { PlainSwitch(); }
    assert Word("timeout") && Word("autodetect") && Word("default");
    var s1 := Apply(START, "timeout", Decimal(cfg.timeout));
    var s2 := Apply(s1, "autodetect", on);
    LineReadsBack("", "timeout", Decimal(cfg.timeout), START);
    LineReadsBack("", "autodetect", on, s1);
    LineReadsBack("", "default", text, s2);
    FoldTwo(START, l[0], l[1]);
    FoldSnoc(START, [l[0], l[1]], l[2]);
    assert l == [l[0], l[1]] + [l[2]];
  }

  lemma PlainSwitch()
    ensures Plain("on") && Plain("off")
  {
    assert "on"[0] == 'o' && "on"[1] == 'n' && "off"[0] == 'o' && "off"[2] == 'f';
  }

  lemma DecimalPlain(n: nat)
    ensures Plain(Decimal(n))
  {
    var s := Decimal(n);
    assert IsDigit(s[0]) && IsDigit(s[|s| - 1]);
  }

  lemma DefaultPlain(cfg: Config)
    requires Sayable(cfg)
    ensures Plain(DefaultText(cfg))
  {
    hide Plain, Decimal;
    DecimalPlain(cfg.default);
    assert cfg.entries != [] ==> GoodEntry(cfg.entries[cfg.default]);
  }

  lemma {:induction false} EntriesLinesClean(entries: seq<Entry>)
    requires forall i :: 0 <= i < |entries| ==> GoodEntry(entries[i])
    ensures forall i :: 0 <= i < |EntriesLines(entries)| ==>
              Without(EntriesLines(entries)[i], '\n') && StripCr(EntriesLines(entries)[i]) == EntriesLines(entries)[i]
  {
    hide EntryLines, GoodEntry, Without, StripCr;
    if entries != [] {
      EntriesLinesClean(entries[..|entries| - 1]);
      EntryLinesClean(entries[|entries| - 1]);
    }
  }

  lemma EntryLinesClean(e: Entry)
    requires GoodEntry(e)
    ensures forall i :: 0 <= i < |EntryLines(e)| ==>
              Without(EntryLines(e)[i], '\n') && StripCr(EntryLines(e)[i]) == EntryLines(e)[i]
  {
    hide Step, Line, Plain, Without, StripCr, Apply;
    assert Word("entry") && Word("multiboot") && Word("modules") && Word("chainload") && Word("linux")
        && Word("initrd") && Word("options");
    LineReadsBack("", "entry", e.title, START);
    match e.target {
      case Multiboot(kernel, modules) =>
        LineReadsBack(INDENT, "multiboot", kernel, START);
        if modules.Some? { LineReadsBack(INDENT, "modules", modules.value, START); }
      case Chainload(path, _) =>
        LineReadsBack(INDENT, "chainload", path, START);
      case Linux(image, initrd, cmdline) =>
        LineReadsBack(INDENT, "linux", image, START);
        if initrd.Some? { LineReadsBack(INDENT, "initrd", initrd.value, START); }
        LineReadsBack(INDENT, "options", cmdline, START);
    }
  }

  lemma HeadLinesClean(cfg: Config)
    requires Sayable(cfg)
    ensures forall i :: 0 <= i < |HeadLines(cfg)| ==>
              Without(HeadLines(cfg)[i], '\n') && StripCr(HeadLines(cfg)[i]) == HeadLines(cfg)[i]
  {
    hide Step, Line, Plain, Without, StripCr, Apply, Decimal, DefaultText;
    assert Word("timeout") && Word("autodetect") && Word("default");
    PlainSwitch();
    DefaultPlain(cfg);
    DecimalPlain(cfg.timeout);
    LineReadsBack("", "timeout", Decimal(cfg.timeout), START);
    LineReadsBack("", "autodetect", if cfg.autodetect then "on" else "off", START);
    LineReadsBack("", "default", DefaultText(cfg), START);
  }

  lemma GoodEntriesKept(entries: seq<Entry>)
    requires forall i :: 0 <= i < |entries| ==> GoodEntry(entries[i])
    ensures Kept(entries) == entries
  {
    forall i | 0 <= i < |entries|
      ensures Filled(entries[i])
    {
      assert GoodEntry(entries[i]);
    }
    KeptAll(entries);
  }

  /** The round trip: a configuration written out parses to itself. */
  lemma RenderParses(cfg: Config)
    requires Sayable(cfg)
    ensures Parsed(Render(cfg)) == cfg
  {
    hide Fold, HeadLines, EntriesLines, Lines, Join, GoodEntry, Without, StripCr, Kept, ParseU64, Decimal;
    var head, entries := HeadLines(cfg), EntriesLines(cfg.entries);
    HeadLinesClean(cfg);
    EntriesLinesClean(cfg.entries);
    LinesOfJoin(head + entries);
    FoldConcat(START, head, entries);
    HeadReadsBack(cfg);
    EntriesReadBack(Fold(START, head), cfg.entries);
    GoodEntriesKept(cfg.entries);
    DecimalParses(cfg.default);
  }
}
