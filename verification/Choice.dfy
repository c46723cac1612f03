/** Choosing an entry: the menu's loop as a state machine over whatever keys and ticks
    come, what every run of it does, and the loop itself on its console. */
module Choice {
  import opened Bytes
  import opened Text
  import opened Config
  import opened Menu

  datatype Key = Up | Down | Printable(c: char) | OtherKey

  /** One turn of the loop finds a key waiting or none. */
  type Polls = seq<Option<Key>>

  datatype State =
    | Waiting(selected: nat, counting: bool, remaining: u64, ticks: nat)
    | Chosen(index: nat)

  /* ---- one turn ---- */

  predicate Enter(k: Key) { k.Printable? && (k.c == '\r' || k.c == '\n') }

  /** The entry a digit picks directly, if it is one of the `n`. */
  function Picked(k: Key, n: nat): (r: Option<nat>)
    ensures r.Some? ==> r.value < n
  {
    if k.Printable? && '1' <= k.c <= '9' && (k.c as int - '0' as int) <= n then Some(k.c as int - '0' as int - 1)
    else None
  }

  function Moved(k: Key, selected: nat, n: nat): nat
    requires n > 0
  {
    if k.Up? then (if selected == 0 then n - 1 else selected - 1)
    else if k.Down? then (selected + 1) % n
    else selected
  }

  function Poll(s: State, key: Option<Key>, n: nat): State
    requires n > 0
  {
    if s.Chosen? then s
    else if key.Some? then
      if Enter(key.value) then Chosen(s.selected)
      else if Picked(key.value, n).Some? then Chosen(Picked(key.value, n).value)
      else s.(selected := Moved(key.value, s.selected, n), counting := false)
    else if !s.counting then s
    else if (s.ticks + 1) % 10 != 0 then s.(ticks := s.ticks + 1)
    else if s.remaining <= 1 then Chosen(s.selected)
    else s.(ticks := s.ticks + 1, remaining := s.remaining - 1)
  }

  function Begin(cfg: Config): State { Waiting(cfg.default, true, cfg.timeout, 0) }

  /** The state after the first `k` turns. */
  function Run(cfg: Config, polls: Polls, k: nat): State
    requires cfg.entries != [] && k <= |polls|
  {
    if k == 0 then Begin(cfg) else Poll(Run(cfg, polls, k - 1), polls[k - 1], |cfg.entries|)
  }

  /* ---- every run ---- */

  /** A configuration the menu is shown for. */
  predicate Shown(cfg: Config)
  {
    |cfg.entries| > 1 && cfg.timeout > 0 && cfg.default < |cfg.entries|
  }

  function Ups(polls: Polls, k: nat): nat
    requires k <= |polls|
  {
    if k == 0 then 0 else Ups(polls, k - 1) + if polls[k - 1] == Some(Up) then 1 else 0
  }

  function Downs(polls: Polls, k: nat): nat
    requires k <= |polls|
  {
    if k == 0 then 0 else Downs(polls, k - 1) + if polls[k - 1] == Some(Down) then 1 else 0
  }

  predicate Quiet(polls: Polls, k: nat)
    requires k <= |polls|
  {
    forall i :: 0 <= i < k ==> polls[i].None?
  }

  lemma StepModulo(x: int, n: nat)
    requires n > 0
    ensures (x % n + 1) % n == (x + 1) % n
    ensures (if x % n == 0 then n - 1 else x % n - 1) == (x - 1) % n
  {
    var q, r := x / n, x % n;
    assert x == n * q + r;
    if r + 1 < n {
      ModuloIs(x + 1, n, q, r + 1);
      ModuloIs(r + 1, n, 0, r + 1);
    } else {
      assert n * (q + 1) == n * q + n;
      ModuloIs(x + 1, n, q + 1, 0);
      ModuloIs(n, n, 1, 0);
    }
    if r == 0 {
      assert n * (q - 1) == n * q - n;
      ModuloIs(x - 1, n, q - 1, n - 1);
    } else {
      ModuloIs(x - 1, n, q, r - 1);
    }
  }

  /** As long as nothing is chosen the selection is the default moved down once for every
      Down and up once for every Up, around the ends of the list. */
  lemma {:induction false} SelectionFollowsKeys(cfg: Config, polls: Polls, k: nat)
    requires Shown(cfg) && k <= |polls| && Run(cfg, polls, k).Waiting?
    ensures Run(cfg, polls, k).selected == (cfg.default + Downs(polls, k) - Ups(polls, k)) % |cfg.entries|
    ensures Run(cfg, polls, k).selected < |cfg.entries|
  {
    var n := |cfg.entries|;
    if k == 0 {
      ModuloIs(cfg.default, n, 0, cfg.default);
    } else {
      SelectionFollowsKeys(cfg, polls, k - 1);
      StepModulo(cfg.default + Downs(polls, k - 1) - Ups(polls, k - 1), n);
    }
  }

  /** Whatever is chosen is one of the entries. */
  lemma {:induction false} ChosenInRange(cfg: Config, polls: Polls, k: nat)
    requires Shown(cfg) && k <= |polls| && Run(cfg, polls, k).Chosen?
    ensures Run(cfg, polls, k).index < |cfg.entries|
  {
    if k > 0 {
      if Run(cfg, polls, k - 1).Chosen? {
        ChosenInRange(cfg, polls, k - 1);
      } else {
        SelectionFollowsKeys(cfg, polls, k - 1);
      }
    }
  }

  /** With no key at all the loop counts whole seconds of ten turns, and chooses the
      default on turn ten times the timeout, neither sooner nor later. */
  lemma {:induction false} QuietRun(cfg: Config, polls: Polls, k: nat)
    requires Shown(cfg) && k <= |polls| && Quiet(polls, k)
    ensures Run(cfg, polls, k) ==
            if k < 10 * cfg.timeout then Waiting(cfg.default, true, cfg.timeout - k / 10, k)
            else Chosen(cfg.default)
  {
    if k > 0 {
      QuietRun(cfg, polls, k - 1);
      assert polls[k - 1].None?;
    }
  }

  /** Counting goes on exactly as long as no key has been seen. */
  lemma {:induction false} CountsUntilKey(cfg: Config, polls: Polls, k: nat)
    requires Shown(cfg) && k <= |polls| && Run(cfg, polls, k).Waiting?
    ensures Run(cfg, polls, k).counting <==> Quiet(polls, k)
  {
    if k > 0 {
      CountsUntilKey(cfg, polls, k - 1);
      assert Quiet(polls, k) <==> Quiet(polls, k - 1) && polls[k - 1].None?;
    }
  }

  /** Enter boots what is selected: the default, moved once for every arrow before. */
  lemma EnterBootsSelection(cfg: Config, polls: Polls, k: nat, c: char)
    requires |cfg.entries| > 1 && cfg.timeout > 0 && cfg.default < |cfg.entries|
    requires k < |polls| && Run(cfg, polls, k).Waiting? && polls[k] == Some(Printable(c))
    requires c == '\r' || c == '\n'
    ensures Run(cfg, polls, k + 1) == Chosen((cfg.default + Downs(polls, k) - Ups(polls, k)) % |cfg.entries|)
  {
    SelectionFollowsKeys(cfg, polls, k);
  }

  /** Nothing but Enter, the digit of an entry, or the clock running out chooses: a key of
      any other kind leaves the menu waiting, with its clock stopped. */
  lemma OnlyTheseChoose(cfg: Config, polls: Polls, k: nat)
    requires |cfg.entries| > 1 && cfg.timeout > 0 && cfg.default < |cfg.entries|
    requires k < |polls| && Run(cfg, polls, k).Waiting?
    ensures var next, n := Run(cfg, polls, k + 1), |cfg.entries|;
            match polls[k]
            case Some(Printable(c)) =>
              if c == '\r' || c == '\n' then next.Chosen?
              else if '1' <= c <= '9' && c as int - '0' as int <= n then next == Chosen(c as int - '0' as int - 1)
              else next.Waiting? && !next.counting
            case Some(_) => next.Waiting? && !next.counting
            case None => next.Chosen? <==> Quiet(polls, k + 1) && k + 1 == 10 * cfg.timeout
  {
    CountsUntilKey(cfg, polls, k);
    if polls[k].None? && Quiet(polls, k) {
      QuietRun(cfg, polls, k);
      QuietRun(cfg, polls, k + 1);
    }
    assert Quiet(polls, k + 1) <==> Quiet(polls, k) && polls[k].None?;
  }

  /** The list shows entry `i` with the number `i + 1` in front of its title. Typing the
      first digit shown picks that very entry exactly if it is one of the first nine;
      for a later one, another entry is picked. */
  lemma LabelPicksEntry(s: State, entries: seq<Entry>, i: nat)
    requires s.Waiting? && i < |entries|
    ensures var text := EntryTexts(entries, s.selected)[i];
            && text[7..7 + |Decimal(i + 1)|] == Decimal(i + 1)
            && text[7 + |Decimal(i + 1)|..] == ". " + entries[i].title
            && Poll(s, Some(Printable(text[7])), |entries|).Chosen?
            && (Poll(s, Some(Printable(text[7])), |entries|) == Chosen(i) <==> i < 9)
  {
    var text, number := EntryTexts(entries, s.selected)[i], Decimal(i + 1);
    assert text == text[..7] + number + ". " + entries[i].title;
    assert text[7] == number[0] && IsDigit(number[0]) && number[0] != '0';
  }

  /** A choice made on a turn without a key is the countdown's: then there was never a
      key, the time is exactly up, and it is the default that boots. */
  lemma TimedOutBootsDefault(cfg: Config, polls: Polls, k: nat)
    requires Shown(cfg) && 0 < k <= |polls|
    requires Run(cfg, polls, k - 1).Waiting? && polls[k - 1].None? && Run(cfg, polls, k).Chosen?
    ensures Quiet(polls, k) && k == 10 * cfg.timeout && Run(cfg, polls, k) == Chosen(cfg.default)
  {
    CountsUntilKey(cfg, polls, k - 1);
    QuietRun(cfg, polls, k);
    QuietRun(cfg, polls, k - 1);
  }

  /** Once a key has been seen, only a key chooses. */
  lemma {:induction false} KeyStopsClock(cfg: Config, polls: Polls, j: nat, k: nat)
    requires Shown(cfg) && j < k <= |polls| && polls[j].Some? && Run(cfg, polls, j + 1).Waiting?
    requires forall i :: j < i < k ==> polls[i].None?
    ensures Run(cfg, polls, k) == Run(cfg, polls, j + 1)
  {
    if j + 1 < k {
      KeyStopsClock(cfg, polls, j, k - 1);
      CountsUntilKey(cfg, polls, j + 1);
    }
  }

  /* ---- the loop ---- */

  /** Where the menu can go, if there are columns and rows enough for it. */
  method Plan(con: Console, entries: nat) returns (r: Option<Layout>)
    requires con.Valid()
    ensures var layout := Layout(con.row, con.cols, entries);
            r == if layout.Fits(con.rows) then Some(layout) else None
  {
    var layout := Layout(con.row, con.cols, entries);
    if con.cols < 20 || layout.origin + layout.Height() > con.rows {
      return None;
    }
    r := Some(layout);
  }

  /** What the status row says. */
  function Status(cfg: Config, s: State): string
    requires s.Waiting? && s.selected < |cfg.entries|
  {
    if s.counting then CountdownText(cfg.entries[s.selected], s.remaining) else CANCELLED
  }

  /** What the status row says, in full. */
  lemma StatusSays(cfg: Config, s: State)
    requires s.Waiting? && s.selected < |cfg.entries|
    ensures Status(cfg, s) ==
            if s.counting then
              "    booting \"" + cfg.entries[s.selected].title + "\" in " + Decimal(s.remaining) + "s ..."
            else "    (countdown cancelled)"
  {
  }

  /** Where there is a place for the menu, the screen is a fresh drawing of this selection
      and status. */
  ghost predicate Shows(con: Console, layout: Option<Layout>, cfg: Config, selected: nat, status: string, base: Cells)
    reads con
  {
    layout.Some? ==> con.cells == Drawn(base, layout.value, cfg.entries, selected, status)
  }

  /** Where there is a place for the menu, it fits its console. */
  ghost predicate Suits(con: Console, layout: Option<Layout>, cfg: Config)
    reads con
  {
    con.Valid() && |cfg.entries| < TWO_64 - 1
    && (layout.Some? ==>
          layout.value.cols == con.cols && layout.value.Fits(con.rows) && layout.value.entries == |cfg.entries|)
  }

  /** The rows above and below the menu, where there is one, are never written on. */
  ghost predicate RestKept(before: Cells, after: Cells, layout: Option<Layout>)
  {
    layout.Some? ==>
      && |after| == |before|
      && forall i :: 0 <= i < |before| && !(layout.value.origin <= i < layout.value.origin + layout.value.Height())
           ==> after[i] == before[i]
  }

  lemma DrawnKeepsRest(base: Cells, l: Layout, entries: seq<Entry>, selected: nat, status: string)
    requires l.entries == |entries|
    ensures RestKept(base, Drawn(base, l, entries, selected, status), Some(l))
  {
  }

  /** A key that moves the selection repaints the list, where there is one. */
  method Select(con: Console, layout: Option<Layout>, cfg: Config, selected: nat,
                ghost base: Cells, ghost before: nat, ghost status: string)
    requires Suits(con, layout, cfg) && Shows(con, layout, cfg, before, status, base)
    modifies con
    ensures Suits(con, layout, cfg) && Shows(con, layout, cfg, selected, status, base)
  {
    hide Drawn;
    if layout.Some? {
      Repaint(con, layout.value, cfg.entries, selected, base, before, status);
    }
  }

  method Cancel(con: Console, layout: Option<Layout>, cfg: Config, ghost selected: nat, ghost base: Cells,
                ghost status: string)
    requires Suits(con, layout, cfg) && Shows(con, layout, cfg, selected, status, base)
    modifies con
    ensures Suits(con, layout, cfg) && Shows(con, layout, cfg, selected, CANCELLED, base)
  {
    hide Drawn;
    if layout.Some? {
      WriteStatus(con, layout.value, CANCELLED, cfg.entries, selected, base, status);
    }
  }

  method Tick(con: Console, layout: Option<Layout>, cfg: Config, selected: nat, remaining: u64,
              ghost base: Cells, ghost status: string)
    requires Suits(con, layout, cfg) && Shows(con, layout, cfg, selected, status, base) && selected < |cfg.entries|
    modifies con
    ensures Suits(con, layout, cfg)
    ensures Shows(con, layout, cfg, selected, CountdownText(cfg.entries[selected], remaining), base)
  {
    hide Drawn;
    if layout.Some? {
      Countdown(con, layout.value, cfg.entries, selected, remaining, base, status);
    }
  }

  /** The menu put on the screen for the first time, with its countdown. */
  method Open(con: Console, layout: Option<Layout>, cfg: Config)
    requires Suits(con, layout, cfg) && cfg.default < |cfg.entries|
    modifies con
    ensures Suits(con, layout, cfg)
    ensures Shows(con, layout, cfg, cfg.default, CountdownText(cfg.entries[cfg.default], cfg.timeout), old(con.cells))
  {
    hide Drawn;
    if layout.Some? {
      ghost var base := con.cells;
      Draw(con, layout.value, cfg.entries, cfg.default);
      Countdown(con, layout.value, cfg.entries, cfg.default, cfg.timeout, base, "");
    }
  }

  /** `choose`, for as many turns as there are `polls`: None while it still waits. What
      it chooses is what the state machine does, and as long as it waits the screen is
      what a fresh drawing of the machine's state would be. Where the menu has no place
      the code prints a scrolling one, and nothing is said here of what that leaves. */
  method Choose(con: Console, cfg: Config, polls: Polls) returns (r: Option<nat>)
    requires con.Valid() && |cfg.entries| < TWO_64 - 1
    requires |cfg.entries| > 1 ==> cfg.default < |cfg.entries|
    modifies con
    ensures con.Valid()
    ensures |cfg.entries| <= 1 || cfg.timeout == 0 ==> r == Some(cfg.default) && con.cells == old(con.cells)
    ensures |cfg.entries| > 1 && cfg.timeout > 0 ==>
              var fits := 20 <= con.cols && old(con.row) + 5 + |cfg.entries| <= con.rows;
              var layout := if fits then Some(Layout(old(con.row), con.cols, |cfg.entries|)) else None;
              var s := Run(cfg, polls, |polls|);
              && r == (if s.Chosen? then Some(s.index) else None)
              && (s.Waiting? ==> s.selected < |cfg.entries|
                                 && Shows(con, layout, cfg, s.selected, Status(cfg, s), old(con.cells)))
              && RestKept(old(con.cells), con.cells, layout)
  {
    hide Drawn, Run, Shows, RestKept, CountdownText;
    if |cfg.entries| <= 1 || cfg.timeout == 0 {
      return Some(cfg.default);
    }
    ghost var base := con.cells;
    var n := |cfg.entries|;
    var layout := Plan(con, n);
    Open(con, layout, cfg);
    var selected: nat, remaining: u64, counting: bool, ticks: nat := cfg.default, cfg.timeout, true, 0;
    RunBegins(cfg, polls);
    for k := 0 to |polls|
      invariant Suits(con, layout, cfg)
      invariant Run(cfg, polls, k) == Waiting(selected, counting, remaining, ticks)
      invariant selected < n && remaining > 0
      invariant Shows(con, layout, cfg, selected, Status(cfg, Waiting(selected, counting, remaining, ticks)), base)
    {
      RunSteps(cfg, polls, k);
      ghost var status := Status(cfg, Waiting(selected, counting, remaining, ticks));
      if polls[k].Some? {
        var key := polls[k].value;
        if counting {
          counting := false;
          Cancel(con, layout, cfg, selected, base, status);
        }
        if Enter(key) || Picked(key, n).Some? {
          r := Some(if Enter(key) then selected else Picked(key, n).value);
          RunStays(cfg, polls, k + 1, |polls|);
          Leave(con, layout, cfg, selected, CANCELLED, base);
          return;
        }
        if key.Up? || key.Down? {
          var next := Moved(key, selected, n);
          Select(con, layout, cfg, next, base, selected, CANCELLED);
          selected := next;
        }
      }
      if counting {
        ticks := ticks + 1;
        if ticks % 10 == 0 {
          remaining := remaining - 1;
          if remaining == 0 {
            r := Some(selected);
            RunStays(cfg, polls, k + 1, |polls|);
            Leave(con, layout, cfg, selected, status, base);
            return;
          }
          Tick(con, layout, cfg, selected, remaining, base, status);
        }
      }
    }
    r := None;
    ShownKeepsRest(con, layout, cfg, selected, Status(cfg, Waiting(selected, counting, remaining, ticks)), base);
  }

  /** Leaves the cursor below the menu. */
  method Leave(con: Console, layout: Option<Layout>, cfg: Config, ghost selected: nat, ghost status: string,
               ghost base: Cells)
    requires Suits(con, layout, cfg) && Shows(con, layout, cfg, selected, status, base)
    modifies con
    ensures con.Valid() && con.cells == old(con.cells) && RestKept(base, con.cells, layout)
  {
    ShownKeepsRest(con, layout, cfg, selected, status, base);
    if layout.Some? {
      con.SetCursor(0, layout.value.StatusRow() + 1);
    }
  }

  lemma ShownKeepsRest(con: Console, layout: Option<Layout>, cfg: Config, selected: nat, status: string, base: Cells)
    requires Suits(con, layout, cfg) && Shows(con, layout, cfg, selected, status, base)
    ensures RestKept(base, con.cells, layout)
  {
    hide Drawn;
    if layout.Some? {
      DrawnKeepsRest(base, layout.value, cfg.entries, selected, status);
    }
  }

  lemma RunBegins(cfg: Config, polls: Polls)
    requires cfg.entries != []
    ensures Run(cfg, polls, 0) == Begin(cfg)
  {
  }

  lemma RunSteps(cfg: Config, polls: Polls, k: nat)
    requires cfg.entries != [] && k < |polls|
    ensures Run(cfg, polls, k + 1) == Poll(Run(cfg, polls, k), polls[k], |cfg.entries|)
  {
  }

  /** Nothing is reconsidered. */
  lemma {:induction false} RunStays(cfg: Config, polls: Polls, k: nat, m: nat)
    requires cfg.entries != [] && k <= m <= |polls| && Run(cfg, polls, k).Chosen?
    ensures Run(cfg, polls, m) == Run(cfg, polls, k)
    decreases m
  {
    if k < m {
      RunStays(cfg, polls, k, m - 1);
    }
  }
}
