/** `\bang.cfg`: what a configuration is, the parser as the code has it, and the
    same parser as a fold over lines. */
module Config {
  import opened Bytes
  import opened Text

  type Handle = nat

  datatype Target =
    | Multiboot(kernel: string, modules: Option<string>)
    | Chainload(path: string, device: Option<Handle>)
    | Linux(image: string, initrd: Option<string>, cmdline: string)

  datatype Entry = Entry(title: string, target: Target)

  datatype Config = Config(timeout: u64, default: nat, entries: seq<Entry>, autodetect: bool)

  const UNFILLED: Target := Multiboot("", None)

  /* ---- one line ---- */

  /** A line without its comment and the space around it. */
  function Clean(raw: string): string { Trim(raw[..IndexOf(raw, '#')]) }

  function Split(text: string): (string, string)
  {
    var line := Trim(text);
    var i := FirstSpace(line);
    if i < |line| then (line[..i], Trim(line[i..])) else (line, "")
  }

  /** What can be written in the firmware's 16-bit strings: no NUL, and nothing past
      the characters one unit holds. */
  predicate Usable(arg: string)
  {
    forall i :: 0 <= i < |arg| ==> 0 < arg[i] as int <= 0xFFFF
  }

  function Path(arg: string): Option<string> { if Usable(arg) then Some(arg) else None }

  /** What an entry's own directive makes of its target. */
  function Retarget(t: Target, directive: string, arg: string): Target
  {
    if directive == "multiboot" && Usable(arg) then Multiboot(arg, None)
    else if directive == "modules" && t.Multiboot? then t.(modules := Path(arg))
    else if directive == "chainload" && Usable(arg) then Chainload(arg, None)
    else if directive == "linux" && Usable(arg) then Linux(arg, None, "")
    else if directive == "initrd" && t.Linux? then t.(initrd := Path(arg))
    else if directive == "options" && t.Linux? then t.(cmdline := arg)
    else t
  }

  /** What has been read so far; a default given by title waits for the end. */
  datatype State = State(cfg: Config, defaultTitle: Option<string>)

  const START: State := State(Config(5, 0, [], true), None)

  function Apply(st: State, directive: string, arg: string): State
  {
    var cfg := st.cfg;
    if directive == "timeout" then
      st.(cfg := cfg.(timeout := if ParseU64(arg).Some? then ParseU64(arg).value else 5))
    else if directive == "autodetect" then
      st.(cfg := cfg.(autodetect := !(arg == "off" || arg == "no" || arg == "false" || arg == "0")))
    else if directive == "default" then
      if ParseU64(arg).Some? then st.(cfg := cfg.(default := ParseU64(arg).value))
      else st.(defaultTitle := Some(arg))
    else if directive == "entry" then
      st.(cfg := cfg.(entries := cfg.entries + [Entry(arg, UNFILLED)]))
    else if cfg.entries == [] then st
    else
      var n := |cfg.entries| - 1;
      var entry := cfg.entries[n];
      st.(cfg := cfg.(entries := cfg.entries[n := entry.(target := Retarget(entry.target, directive, arg))]))
  }

  function Step(st: State, raw: string): State
  {
    var line := Clean(raw);
    if line == "" then st else Apply(st, Split(line).0, Split(line).1)
  }

  function Fold(st: State, lines: seq<string>): State
  {
    if lines == [] then st else Step(Fold(st, lines[..|lines| - 1]), lines[|lines| - 1])
  }

  /* ---- the end of the file ---- */

  predicate Filled(e: Entry) { e.target.Multiboot? ==> e.target.kernel != "" }

  function Kept(entries: seq<Entry>): (kept: seq<Entry>)
  {
    if entries == [] then []
    else
      var last := entries[|entries| - 1];
      Kept(entries[..|entries| - 1]) + if Filled(last) then [last] else []
  }

  /** The index of the first entry of that title. */
  function Position(entries: seq<Entry>, title: string): (r: Option<nat>)
    ensures r.Some? ==> r.value < |entries| && entries[r.value].title == title
    ensures forall i :: 0 <= i < (if r.Some? then r.value else |entries|) ==> entries[i].title != title
  {
    if entries == [] then None
    else
      var n := |entries| - 1;
      var r := Position(entries[..n], title);
      if r.Some? then r else if entries[n].title == title then Some(n) else None
  }

  function Finish(st: State): Config
  {
    var entries := Kept(st.cfg.entries);
    var named := if st.defaultTitle.Some? then Position(entries, st.defaultTitle.value) else None;
    var default := if named.Some? then named.value else st.cfg.default;
    st.cfg.(entries := entries, default := if default >= |entries| then 0 else default)
  }

  function ParsedLines(lines: seq<string>): Config { Finish(Fold(START, lines)) }

  function Parsed(text: string): Config { ParsedLines(Lines(text)) }

  /* ---- the code ---- */

  /** `parse`, updating the configuration as it goes. */
  method Parse(text: string) returns (cfg: Config)
    ensures cfg == Parsed(text)
  {
    hide Clean, Split, Lines, ParseU64, Usable;
    cfg := Config(5, 0, [], true);
    var defaultTitle: Option<string> := None;
    var lines := Lines(text);
    for k := 0 to |lines|
      invariant State(cfg, defaultTitle) == Fold(START, lines[..k])
    {
      assert lines[..k + 1][..k] == lines[..k];
      var line := Clean(lines[k]);
      if line == "" {
        continue;
      }
      var (directive, arg) := Split(line);
      if directive == "timeout" {
        var n := ParseU64(arg);
        cfg := cfg.(timeout := if n.Some? then n.value else 5);
      } else if directive == "autodetect" {
        cfg := cfg.(autodetect := !(arg == "off" || arg == "no" || arg == "false" || arg == "0"));
      } else if directive == "default" {
        var n := ParseU64(arg);
        if n.Some? {
          cfg := cfg.(default := n.value);
        } else {
          defaultTitle := Some(arg);
        }
      } else if directive == "entry" {
        cfg := cfg.(entries := cfg.entries + [Entry(arg, UNFILLED)]);
      } else {
        if |cfg.entries| == 0 {
          continue;
        }
        var last := |cfg.entries| - 1;
        var target := Redirect(cfg.entries[last].target, directive, arg);
        cfg := cfg.(entries := cfg.entries[last := cfg.entries[last].(target := target)]);
      }
    }
    assert lines[..|lines|] == lines;
    cfg := Settle(cfg, defaultTitle);
  }

  /** The inner match: what an entry's own directive does to its target. */
  method Redirect(target: Target, directive: string, arg: string) returns (r: Target)
    ensures r == Retarget(target, directive, arg)
  {
    r := target;
    match directive {
      case "multiboot" =>
        var p := Path(arg);
        if p.Some? { r := Multiboot(p.value, None); }
      case "modules" =>
        if target.Multiboot? { r := target.(modules := Path(arg)); }
      case "chainload" =>
        var p := Path(arg);
        if p.Some? { r := Chainload(p.value, None); }
      case "linux" =>
        var p := Path(arg);
        if p.Some? { r := Linux(p.value, None, ""); }
      case "initrd" =>
        if target.Linux? { r := target.(initrd := Path(arg)); }
      case "options" =>
        if target.Linux? { r := target.(cmdline := arg); }
      case _ =>
    }
  }

  /** After the last line: unfilled entries go, and the default is settled. */
  method Settle(read: Config, defaultTitle: Option<string>) returns (cfg: Config)
    ensures cfg == Finish(State(read, defaultTitle))
  {
    cfg := read;
    var kept := [];
    for i := 0 to |cfg.entries|
      invariant kept == Kept(cfg.entries[..i])
    {
      assert cfg.entries[..i + 1][..i] == cfg.entries[..i];
      if cfg.entries[i].target.Multiboot? && |cfg.entries[i].target.kernel| == 0 {
        continue;
      }
      kept := kept + [cfg.entries[i]];
    }
    assert cfg.entries[..|cfg.entries|] == cfg.entries;
    cfg := cfg.(entries := kept);
    if defaultTitle.Some? {
      var found := Find(cfg.entries, defaultTitle.value);
      if found.Some? {
        cfg := cfg.(default := found.value);
      }
    }
    if cfg.default >= |cfg.entries| {
      cfg := cfg.(default := 0);
    }
  }

  method Find(entries: seq<Entry>, title: string) returns (r: Option<nat>)
    ensures r == Position(entries, title)
  {
    for i := 0 to |entries|
      invariant forall j :: 0 <= j < i ==> entries[j].title != title
    {
      if entries[i].title == title {
        return Some(i);
      }
    }
    r := None;
  }
}
