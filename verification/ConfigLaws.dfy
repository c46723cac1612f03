/** What holds of every parsed configuration: which lines do not matter, where a
    default may stand, and that a configuration written out is read back. */
module ConfigLaws {
  import opened Bytes
  import opened Text
  import opened Config

  lemma FoldSnoc(st: State, lines: seq<string>, line: string)
    ensures Fold(st, lines + [line]) == Step(Fold(st, lines), line)
  {
    assert (lines + [line])[..|lines|] == lines;
  }

  lemma {:induction false} FoldConcat(st: State, a: seq<string>, b: seq<string>)
    ensures Fold(st, a + b) == Fold(Fold(st, a), b)
    decreases |b|
  {
    hide Step;
    if b == [] {
      assert a + b == a;
    } else {
      var front := b[..|b| - 1];
      FoldConcat(st, a, front);
      assert a + b == (a + front) + [b[|b| - 1]];
      FoldSnoc(st, a + front, b[|b| - 1]);
    }
  }

  /* ---- lines that do not matter ---- */

  predicate Global(directive: string)
  {
    directive == "timeout" || directive == "autodetect" || directive == "default" || directive == "entry"
  }

  /** A directive of an entry that does nothing to a target: unknown, for another
      kind of entry, or naming a path that cannot be used. */
  predicate Misapplied(t: Target, directive: string, arg: string)
  {
    if directive == "multiboot" || directive == "chainload" || directive == "linux" then !Usable(arg)
    else if directive == "modules" then !t.Multiboot?
    else if directive == "initrd" || directive == "options" then !t.Linux?
    else true
  }

  /** A line with nothing to say after these: blank, only a comment, unrecognised,
      misapplied, or an entry's directive with no entry yet. */
  predicate Ignored(after: State, raw: string)
  {
    var line := Clean(raw);
    var (directive, arg) := Split(line);
    var entries := after.cfg.entries;
    line == "" || (!Global(directive) && (entries != [] ==> Misapplied(entries[|entries| - 1].target, directive, arg)))
  }

  lemma IgnoredDoesNothing(st: State, raw: string)
    requires Ignored(st, raw)
    ensures Step(st, raw) == st
  {
    hide Clean, Split, Usable;
  }

  /** Deleting such a line anywhere changes nothing. */
  lemma DeleteIgnored(before: seq<string>, line: string, after: seq<string>)
    requires Ignored(Fold(START, before), line)
    ensures ParsedLines(before + [line] + after) == ParsedLines(before + after)
  {
    hide Step, Ignored, Finish;
    FoldConcat(START, before + [line], after);
    FoldConcat(START, before, after);
    FoldSnoc(START, before, line);
    IgnoredDoesNothing(Fold(START, before), line);
  }

  /* ---- where the default stands ---- */

  predicate IsDefault(raw: string) { Clean(raw) != "" && Split(Clean(raw)).0 == "default" }

  lemma DefaultCommutes(st: State, d: string, line: string)
    requires IsDefault(d) && !IsDefault(line)
    ensures Step(Step(st, d), line) == Step(Step(st, line), d)
  {
    hide Clean, Split, ParseU64, Retarget;
  }

  lemma {:induction false} DefaultToEnd(st: State, d: string, lines: seq<string>)
    requires IsDefault(d) && forall i :: 0 <= i < |lines| ==> !IsDefault(lines[i])
    ensures Fold(Step(st, d), lines) == Step(Fold(st, lines), d)
  {
    hide Step, IsDefault;
    if lines != [] {
      var front, last := lines[..|lines| - 1], lines[|lines| - 1];
      DefaultToEnd(st, d, front);
      DefaultCommutes(Fold(st, front), d, last);
    }
  }

  /** The only `default` line of a file may stand anywhere in it. */
  lemma DefaultStandsAnywhere(a: seq<string>, b: seq<string>, c: seq<string>, e: seq<string>, d: string)
    requires IsDefault(d) && a + b == c + e
    requires forall i :: 0 <= i < |a + b| ==> !IsDefault((a + b)[i])
    ensures ParsedLines(a + [d] + b) == ParsedLines(c + [d] + e)
  {
    hide Step, IsDefault, Finish;
    DefaultFromAnywhere(a, b, d);
    DefaultFromAnywhere(c, e, d);
  }

  lemma DefaultFromAnywhere(a: seq<string>, b: seq<string>, d: string)
    requires IsDefault(d) && forall i :: 0 <= i < |a + b| ==> !IsDefault((a + b)[i])
    ensures Fold(START, a + [d] + b) == Step(Fold(START, a + b), d)
  {
    hide Step, IsDefault;
    FoldConcat(START, a + [d], b);
    FoldSnoc(START, a, d);
    FoldConcat(START, a, b);
    forall i | 0 <= i < |b|
      ensures !IsDefault(b[i])
    {
      assert b[i] == (a + b)[|a| + i];
    }
    DefaultToEnd(Fold(START, a), d, b);
  }

  /* ---- what the end of the file makes sure of ---- */

  lemma {:induction false} KeptFilled(entries: seq<Entry>)
    ensures forall i :: 0 <= i < |Kept(entries)| ==> Filled(Kept(entries)[i])
  {
    hide Filled;
    if entries != [] {
      KeptFilled(entries[..|entries| - 1]);
    }
  }

  /** Entries are dropped one by one, so those kept stand in the order written. */
  lemma {:induction false} KeptInOrder(a: seq<Entry>, b: seq<Entry>)
    ensures Kept(a + b) == Kept(a) + Kept(b)
    decreases |b|
  {
    hide Filled;
    if b == [] {
      assert a + b == a;
    } else {
      KeptInOrder(a, b[..|b| - 1]);
      assert (a + b)[..|a + b| - 1] == a + b[..|b| - 1];
    }
  }

  lemma {:induction false} KeptAll(entries: seq<Entry>)
    requires forall i :: 0 <= i < |entries| ==> Filled(entries[i])
    ensures Kept(entries) == entries
  {
    hide Filled;
    if entries != [] {
      KeptAll(entries[..|entries| - 1]);
    }
  }

  /** No entry boots into nothing, the default is an entry whenever there is one, and
      a default by title is the first kept entry of that title if there is any. */
  lemma ParsedIsSound(lines: seq<string>)
    ensures var cfg := ParsedLines(lines);
            && (forall i :: 0 <= i < |cfg.entries| && cfg.entries[i].target.Multiboot? ==>
                  cfg.entries[i].target.kernel != "")
            && (if cfg.entries == [] then cfg.default == 0 else cfg.default < |cfg.entries|)
            && (forall k :: 0 <= k < |cfg.entries| && Fold(START, lines).defaultTitle == Some(cfg.entries[k].title)
                  ==> cfg.default <= k && cfg.entries[cfg.default].title == cfg.entries[k].title)
  {
    hide Fold;
    KeptFilled(Fold(START, lines).cfg.entries);
  }
}
