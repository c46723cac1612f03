/** What each line of a configuration says, whatever its spacing and comments, in terms of
    the configuration that comes of it. */
module ConfigLines {
  import opened Bytes
  import opened Text
  import opened Config
  import opened ConfigLaws
  import opened ConfigText

  /* ---- spacing and comments ---- */

  lemma FirstComment(s: string, t: string)
    requires Without(s, '#')
    ensures IndexOf(s + "#" + t, '#') == |s| && (s + "#" + t)[..|s|] == s
  {
    var raw := s + "#" + t;
    assert raw[|s|] == '#';
    assert forall i :: 0 <= i < |s| ==> raw[i] == s[i];
  }

  /** A comment and the spaces around a line make no difference to it. */
  lemma SpacedLine(before: string, s: string, after: string, rest: string)
    requires White(before) && White(after) && Without(s, '#') && (rest == "" || rest[0] == '#')
    ensures Clean(before + s + after + rest) == Clean(s)
  {
    hide Trim;
    var bare := before + s + after;
    NoSign(before);
    NoSign(after);
    TrimAround(before, s, after);
    NoComment(s);
    if rest == "" {
      assert bare + rest == bare;
      NoComment(bare);
    } else {
      assert bare + rest == bare + "#" + rest[1..];
      FirstComment(bare, rest[1..]);
    }
  }

  lemma NoSign(s: string)
    requires White(s)
    ensures Without(s, '#')
  {
    forall i | 0 <= i < |s|
      ensures s[i] != '#'
    {
      WhiteIsSpace(s[i]);
    }
  }

  lemma SameStep(before: seq<string>, a: string, b: string, after: seq<string>)
    requires Step(Fold(START, before), a) == Step(Fold(START, before), b)
    ensures ParsedLines(before + [a] + after) == ParsedLines(before + [b] + after)
  {
    hide Step, Finish;
    FoldConcat(START, before + [a], after);
    FoldConcat(START, before + [b], after);
    FoldSnoc(START, before, a);
    FoldSnoc(START, before, b);
  }

  /** Anything from the first `#` of a line on may be left off. */
  lemma CommentDropped(before: seq<string>, s: string, t: string, after: seq<string>)
    requires Without(s, '#')
    ensures ParsedLines(before + [s + "#" + t] + after) == ParsedLines(before + [s] + after)
  {
    hide Clean, Apply;
    SpacedLine("", s, "", "#" + t);
    assert "" + s + "" + ("#" + t) == s + "#" + t;
    SameStep(before, s + "#" + t, s, after);
  }

  /** White space at either end of what a line says may be left off. */
  lemma SpaceDropped(before: seq<string>, left: string, s: string, right: string, after: seq<string>)
    requires White(left) && White(right) && Without(s, '#')
    ensures ParsedLines(before + [left + s + right] + after) == ParsedLines(before + [s] + after)
  {
    hide Clean, Apply;
    SpacedLine(left, s, right, "");
    assert left + s + right + "" == left + s + right;
    SameStep(before, left + s + right, s, after);
  }

  /** A line of white space, with or without a comment, may be deleted. */
  lemma BlankDeleted(before: seq<string>, s: string, rest: string, after: seq<string>)
    requires White(s) && (rest == "" || rest[0] == '#')
    ensures ParsedLines(before + [s + rest] + after) == ParsedLines(before + after)
  {
    hide Clean, Apply, Finish;
    SpacedLine(s, "", "", rest);
    assert s + "" + "" + rest == s + rest;
    EmptyLine();
    FoldConcat(START, before + [s + rest], after);
    FoldConcat(START, before, after);
    FoldSnoc(START, before, s + rest);
  }

  lemma EmptyLine()
    ensures Clean("") == ""
  {
    assert ""[..0] == "" && Trim("") == "";
  }

  /** What a line says: its first word is the directive, the rest the argument, whatever
      white space stands before, between and after them, and whatever comment follows. */
  lemma AnyLine(left: string, directive: string, gap: string, arg: string, right: string, rest: string)
    requires White(left) && White(gap) && White(right) && (rest == "" || rest[0] == '#')
    requires Word(directive) && Plain(arg) && (arg != "" ==> gap != "")
    ensures var raw := left + directive + gap + arg + right + rest;
            && Clean(raw) != "" && Split(Clean(raw)) == (directive, arg)
            && forall st :: Step(st, raw) == Apply(st, directive, arg)
  {
    hide Apply, Plain, White, Clean, Split;
    if arg == "" {
      WhiteTogether(gap, right);
      assert left + directive + gap + arg + right + rest == left + directive + (gap + right) + rest;
      LoneWord(left, directive, gap + right, rest);
    } else {
      var s := directive + (gap + arg);
      assert left + directive + gap + arg + right + rest == left + s + right + rest;
      SaysClean(s, directive, gap, arg);
      SpacedLine(left, s, right, rest);
      SplitAt(directive, gap, arg);
    }
  }

  lemma LoneWord(left: string, directive: string, right: string, rest: string)
    requires White(left) && White(right) && (rest == "" || rest[0] == '#') && Word(directive)
    ensures Clean(left + directive + right + rest) == directive && Split(directive) == (directive, "")
  {
    assert White("") && Plain("");
    hide Plain, White, Clean, Split;
    assert directive + ("" + "") == directive;
    SaysClean(directive, directive, "", "");
    SpacedLine(left, directive, right, rest);
    SplitAt(directive, "", "");
  }

  lemma WhiteTogether(a: string, b: string)
    requires White(a) && White(b)
    ensures White(a + b)
  {
  }

  lemma SaysClean(s: string, directive: string, gap: string, arg: string)
    requires Word(directive) && White(gap) && Plain(arg) && (arg == "" <==> gap == "") && s == directive + (gap + arg)
    ensures Clean(s) == s && s != "" && Without(s, '#')
  {
    hide White, Trim;
    NoSign(gap);
    assert s[0] == directive[0];
    assert s[|s| - 1] == if arg == "" then directive[|directive| - 1] else arg[|arg| - 1];
    TrimmedIsTrim(s);
    NoComment(s);
  }

  lemma SplitAt(directive: string, gap: string, arg: string)
    requires Word(directive) && White(gap) && Plain(arg) && (arg == "" <==> gap == "")
    ensures Split(directive + (gap + arg)) == (directive, arg)
  {
    hide White;
    var line := directive + (gap + arg);
    AllSpace(gap);
    assert line[0] == directive[0];
    assert line[|line| - 1] == if arg == "" then directive[|directive| - 1] else arg[|arg| - 1];
    assert forall i :: 0 <= i < |directive| ==> line[i] == directive[i];
    TrimmedIsTrim(line);
    if arg != "" {
      assert line[|directive|] == gap[0];
      assert FirstSpace(line) == |directive|;
      assert line[|directive|..] == gap + arg && line[..|directive|] == directive;
      TrimStartSpaces(gap, arg);
      TrimmedIsTrim(arg);
    } else {
      assert line == directive;
      assert FirstSpace(line) == |line|;
    }
  }

  /* ---- what the directives say ---- */

  lemma OneLine(directive: string, arg: string)
    requires Word(directive) && Plain(arg)
    ensures ParsedLines([Line("", directive, arg)]) == Finish(Apply(START, directive, arg))
  {
    hide Step, Plain, Apply, Finish, Line;
    FoldOne(START, Line("", directive, arg));
    LineReadsBack("", directive, arg, START);
  }

  /** A file that says nothing, and one that says one thing for the whole menu. */
  lemma OneLineFiles(arg: string)
    requires Plain(arg)
    ensures ParsedLines([]) == Config(5, 0, [], true)
    ensures ParsedLines([Line("", "timeout", arg)])
            == Config(if ParseU64(arg).Some? then ParseU64(arg).value else 5, 0, [], true)
    ensures ParsedLines([Line("", "autodetect", arg)])
            == Config(5, 0, [], arg != "off" && arg != "no" && arg != "false" && arg != "0")
    ensures ParsedLines([Line("", "default", arg)]) == Config(5, 0, [], true)
    ensures ParsedLines([Line("", "entry", arg)]) == Config(5, 0, [], true)
  {
    NothingSaid();
    TimeoutFile(arg);
    AutodetectFile(arg);
    DefaultFile(arg);
    EntryFile(arg);
    hide ParsedLines, ParseU64, Plain, Line;
  }

  lemma TimeoutFile(arg: string)
    requires Plain(arg)
    ensures ParsedLines([Line("", "timeout", arg)])
            == Config(if ParseU64(arg).Some? then ParseU64(arg).value else 5, 0, [], true)
  {
    assert Word("timeout");
    hide ParsedLines, ParseU64, Plain, Line, Finish, Word;
    OneLine("timeout", arg);
    NoEntries(if ParseU64(arg).Some? then ParseU64(arg).value else 5, 0, true, None);
  }

  lemma AutodetectFile(arg: string)
    requires Plain(arg)
    ensures ParsedLines([Line("", "autodetect", arg)])
            == Config(5, 0, [], arg != "off" && arg != "no" && arg != "false" && arg != "0")
  {
    assert Word("autodetect");
    hide ParsedLines, Plain, Line, Finish, Word;
    OneLine("autodetect", arg);
    NoEntries(5, 0, arg != "off" && arg != "no" && arg != "false" && arg != "0", None);
  }

  lemma DefaultFile(arg: string)
    requires Plain(arg)
    ensures ParsedLines([Line("", "default", arg)]) == Config(5, 0, [], true)
  {
    assert Word("default");
    hide ParsedLines, ParseU64, Plain, Line, Finish, Word;
    OneLine("default", arg);
    NoEntries(5, if ParseU64(arg).Some? then ParseU64(arg).value else 0, true,
              if ParseU64(arg).Some? then None else Some(arg));
  }

  lemma EntryFile(arg: string)
    requires Plain(arg)
    ensures ParsedLines([Line("", "entry", arg)]) == Config(5, 0, [], true)
  {
    assert Word("entry");
    hide ParsedLines, Plain, Line, Finish, Word;
    OneLine("entry", arg);
    OnlyUnfilled(arg);
    assert [] + [Entry(arg, UNFILLED)] == [Entry(arg, UNFILLED)];
  }

  lemma NoEntries(timeout: u64, default: nat, autodetect: bool, title: Option<string>)
    ensures Finish(State(Config(timeout, default, [], autodetect), title)) == Config(timeout, 0, [], autodetect)
  {
  }

  lemma OnlyUnfilled(title: string)
    ensures Finish(State(Config(5, 0, [Entry(title, UNFILLED)], true), None)) == Config(5, 0, [], true)
  {
    KeptOne(Entry(title, UNFILLED));
  }

  lemma NothingSaid()
    ensures ParsedLines([]) == Config(5, 0, [], true)
  {
  }

  /** A path the firmware's 16-bit strings can hold. */
  predicate Holdable(arg: string) { forall i :: 0 <= i < |arg| ==> arg[i] as int != 0 && arg[i] as int <= 0xFFFF }

  /** What an entry's own directives make of it: the last of `multiboot`, `chainload` and
      `linux` with a path that can be held says what kind of entry it is, and starts it
      afresh; the others fill in an entry of their own kind and no other. */
  function Becomes(t: Target, directive: string, arg: string): Target
  {
    var path := if Holdable(arg) then Some(arg) else None;
    match t
    case Multiboot(kernel, modules) =>
      if directive == "modules" then Multiboot(kernel, path) else Starts(t, directive, arg)
    case Chainload(_, _) => Starts(t, directive, arg)
    case Linux(image, initrd, cmdline) =>
      if directive == "initrd" then Linux(image, path, cmdline)
      else if directive == "options" then Linux(image, initrd, arg)
      else Starts(t, directive, arg)
  }

  function Starts(t: Target, directive: string, arg: string): Target
  {
    if !Holdable(arg) then t
    else if directive == "multiboot" then Multiboot(arg, None)
    else if directive == "chainload" then Chainload(arg, None)
    else if directive == "linux" then Linux(arg, None, "")
    else t
  }

  lemma OwnDirectives(st: State, directive: string, arg: string)
    requires Word(directive) && Plain(arg) && st.cfg.entries != []
    requires directive != "timeout" && directive != "autodetect" && directive != "default" && directive != "entry"
    ensures var n, e := |st.cfg.entries| - 1, st.cfg.entries[|st.cfg.entries| - 1];
            Step(st, "    " + directive + " " + arg)
            == st.(cfg := st.cfg.(entries := st.cfg.entries[..n] + [Entry(e.title, Becomes(e.target, directive, arg))]))
  {
    hide Step, Plain;
    OwnLine(st, directive, arg);
    var n := |st.cfg.entries| - 1;
    assert Retarget(st.cfg.entries[n].target, directive, arg) == Becomes(st.cfg.entries[n].target, directive, arg);
  }

  /** Before the first entry they say nothing. */
  lemma NoEntryYet(st: State, directive: string, arg: string)
    requires Word(directive) && Plain(arg) && st.cfg.entries == []
    requires directive != "timeout" && directive != "autodetect" && directive != "default" && directive != "entry"
    ensures Step(st, "    " + directive + " " + arg) == st
  {
    hide Step, Plain;
    LineReadsBack(INDENT, directive, arg, st);
  }

  /** Which entries are kept: all but those of a Multiboot kernel that has no name. With
      their order kept, that says what becomes of any list. */
  lemma KeptOne(e: Entry)
    ensures Kept([e]) == if exists modules :: e.target == Multiboot("", modules) then [] else [e]
    ensures Kept([]) == []
  {
    assert [e][..0] == [];
    if e.target.Multiboot? && e.target.kernel == "" {
      assert e.target == Multiboot("", e.target.modules);
    }
  }

  /** Which entry is the default: the first of the last title named, if an entry has it;
      else the last number given, if there are so many; else the first. Which of the two
      lines comes first makes no difference. */
  lemma DefaultMeans(cfg: Config, n: u64, title: string, k: nat)
    requires Sayable(cfg) && Plain(title) && ParseU64(title) == None && k <= |cfg.entries|
    requires forall i :: 0 <= i < k ==> cfg.entries[i].title != title
    requires k < |cfg.entries| ==> cfg.entries[k].title == title
    ensures var number, name := Line("", "default", Decimal(n)), Line("", "default", title);
            var es := EntriesLines(cfg.entries);
            && ParsedLines(es + [number]) == Config(5, if n < |cfg.entries| then n else 0, cfg.entries, true)
            && ParsedLines(es + [name]) == Config(5, if k < |cfg.entries| then k else 0, cfg.entries, true)
            && ParsedLines(es + [number] + [name]) == ParsedLines(es + [name] + [number])
               == Config(5, if k < |cfg.entries| then k else if n < |cfg.entries| then n else 0, cfg.entries, true)
  {
    hide Step, ParseU64, Plain, Decimal, EntriesLines, GoodEntry, Line, Fold, Finish;
    var es, number, name := EntriesLines(cfg.entries), Line("", "default", Decimal(n)), Line("", "default", title);
    EntriesReadBack(START, cfg.entries);
    GoodEntriesKept(cfg.entries);
    var st := Fold(START, es);
    DefaultLines(st, n, title);
    DefaultLines(Step(st, name), n, title);
    DefaultLines(Step(st, number), n, title);
    FoldSnoc(START, es, number);
    FoldSnoc(START, es, name);
    FoldSnoc(START, es + [number], name);
    FoldSnoc(START, es + [name], number);
    Settled(cfg.entries, n, None, title, k);
    Settled(cfg.entries, 0, Some(title), title, k);
    Settled(cfg.entries, n, Some(title), title, k);
  }

  lemma DefaultLines(st: State, n: u64, title: string)
    requires Plain(title) && ParseU64(title) == None
    ensures Step(st, Line("", "default", Decimal(n))) == st.(cfg := st.cfg.(default := n))
    ensures Step(st, Line("", "default", title)) == st.(defaultTitle := Some(title))
  {
    assert Word("default");
    hide Step, ParseU64, Plain, Decimal, Line, Word;
    DecimalParses(n);
    DecimalPlain(n);
    LineReadsBack("", "default", Decimal(n), st);
    LineReadsBack("", "default", title, st);
  }

  lemma Settled(entries: seq<Entry>, n: nat, named: Option<string>, title: string, k: nat)
    requires Kept(entries) == entries && k <= |entries| && (named.Some? ==> named.value == title)
    requires forall i :: 0 <= i < k ==> entries[i].title != title
    requires k < |entries| ==> entries[k].title == title
    ensures Finish(State(Config(5, n, entries, true), named))
            == Config(5, if named.Some? && k < |entries| then k else if n < |entries| then n else 0, entries, true)
  {
    hide Kept;
  }

  /* ---- every parsed configuration can be said ---- */

  lemma CleanPlain(raw: string)
    requires Without(raw, '\n')
    ensures Plain(Clean(raw))
  {
    TrimLeaves(raw[..IndexOf(raw, '#')]);
  }

  lemma SplitPlain(line: string)
    requires Plain(line)
    ensures Plain(Split(line).1)
  {
    hide Trim;
    TrimmedIsTrim(line);
    var i := FirstSpace(line);
    if i < |line| {
      TrimLeaves(line[i..]);
    }
  }

  /** An entry as it may stand while the file is read: perhaps with no kernel yet. */
  predicate Begun(e: Entry)
  {
    || GoodEntry(e)
    || (Plain(e.title) && e.target.Multiboot? && e.target.kernel == ""
        && (e.target.modules.Some? ==> GoodPath(e.target.modules.value)))
  }

  lemma RetargetBegun(e: Entry, directive: string, arg: string)
    requires Begun(e) && Plain(arg)
    ensures Begun(e.(target := Retarget(e.target, directive, arg)))
  {
    assert Plain("");
    hide Plain, Usable;
  }

  lemma StepBegun(st: State, raw: string)
    requires Without(raw, '\n') && forall i :: 0 <= i < |st.cfg.entries| ==> Begun(st.cfg.entries[i])
    ensures var es := Step(st, raw).cfg.entries;
            |es| <= |st.cfg.entries| + 1 && forall i :: 0 <= i < |es| ==> Begun(es[i])
  {
    hide Clean, Split, Plain, Usable, Retarget, Begun;
    var line := Clean(raw);
    CleanPlain(raw);
    SplitPlain(line);
    var (directive, arg) := Split(line);
    UnfilledBegun(arg);
    if st.cfg.entries != [] {
      RetargetBegun(st.cfg.entries[|st.cfg.entries| - 1], directive, arg);
    }
  }

  lemma UnfilledBegun(title: string)
    requires Plain(title)
    ensures Begun(Entry(title, UNFILLED))
  {
    assert Entry(title, UNFILLED).target == Multiboot("", None);
  }

  lemma {:induction false} FoldBegun(lines: seq<string>)
    requires forall i :: 0 <= i < |lines| ==> Without(lines[i], '\n')
    ensures var es := Fold(START, lines).cfg.entries;
            |es| <= |lines| && forall i :: 0 <= i < |es| ==> Begun(es[i])
  {
    hide Step, Begun;
    if lines != [] {
      FoldBegun(lines[..|lines| - 1]);
      StepBegun(Fold(START, lines[..|lines| - 1]), lines[|lines| - 1]);
    }
  }

  lemma {:induction false} KeptGood(entries: seq<Entry>)
    requires forall i :: 0 <= i < |entries| ==> Begun(entries[i])
    ensures |Kept(entries)| <= |entries|
    ensures forall i :: 0 <= i < |Kept(entries)| ==> GoodEntry(Kept(entries)[i])
  {
    hide GoodEntry;
    if entries != [] {
      KeptGood(entries[..|entries| - 1]);
    }
  }

  /** Whatever the file, what is parsed of it is a configuration a file can say: so the
      sayable configurations are exactly those that parsing comes to. */
  lemma ParsedIsSayable(text: string)
    requires |text| < 0x1_0000_0000_0000_0000
    ensures Sayable(Parsed(text))
  {
    hide Lines, Fold, GoodEntry, Begun, Kept, Position;
    var lines := Lines(text);
    LinesClean(text);
    FoldBegun(lines);
    KeptGood(Fold(START, lines).cfg.entries);
  }

  /** Writing out what was parsed, and parsing that, comes to the same again. */
  lemma ParsedSettles(text: string)
    requires |text| < 0x1_0000_0000_0000_0000
    ensures Sayable(Parsed(text)) && Parsed(Render(Parsed(text))) == Parsed(text)
  {
    hide Parsed, Render, Sayable;
    ParsedIsSayable(text);
    RenderParses(Parsed(text));
  }

  /* ---- which lines are of which kind ---- */

  /** A default line is one whose first word is `default`, however it is spaced. */
  lemma DefaultLine(left: string, directive: string, gap: string, arg: string, right: string, rest: string)
    requires White(left) && White(gap) && White(right) && (rest == "" || rest[0] == '#')
    requires Word(directive) && Plain(arg) && (arg != "" ==> gap != "")
    ensures IsDefault(left + directive + gap + arg + right + rest) <==> directive == "default"
    ensures !IsDefault(left + rest)
  {
    hide Clean, Split, Plain, White, Word;
    AnyLine(left, directive, gap, arg, right, rest);
    BlankCleans(left, rest);
  }

  lemma BlankCleans(s: string, rest: string)
    requires White(s) && (rest == "" || rest[0] == '#')
    ensures Clean(s + rest) == ""
  {
    hide Clean;
    SpacedLine(s, "", "", rest);
    assert s + "" + "" + rest == s + rest;
    EmptyLine();
  }

  /** Which lines say nothing, after others: those of no known directive, those of an
      entry's own before any entry, a part of another kind of entry than the one before,
      and a kind of entry with a path that cannot be held. */
  lemma IgnoredLine(st: State, left: string, directive: string, gap: string, arg: string, right: string, rest: string)
    requires White(left) && White(gap) && White(right) && (rest == "" || rest[0] == '#')
    requires Word(directive) && Plain(arg) && (arg != "" ==> gap != "")
    ensures Ignored(st, left + rest)
    ensures Ignored(st, left + directive + gap + arg + right + rest) <==>
            match directive
            case "timeout" | "autodetect" | "default" | "entry" => false
            case "multiboot" | "chainload" | "linux" => st.cfg.entries == [] || !Holdable(arg)
            case "modules" => st.cfg.entries == [] || !st.cfg.entries[|st.cfg.entries| - 1].target.Multiboot?
            case "initrd" | "options" => st.cfg.entries == [] || !st.cfg.entries[|st.cfg.entries| - 1].target.Linux?
            case _ => true
  {
    hide Clean, Split, Plain, White, Word;
    AnyLine(left, directive, gap, arg, right, rest);
    BlankCleans(left, rest);
  }
}
