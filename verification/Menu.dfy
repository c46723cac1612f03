/** The menu: a console of character cells, the lines the menu keeps on it, and the
    loop that chooses what to boot. */
module Menu {
  import opened Bytes
  import opened Text
  import opened Config

  /* ---- the console ---- */

  type Cells = seq<seq<char>>

  predicate Grid(cells: Cells, cols: nat, rows: nat)
  {
    |cells| == rows && forall r :: 0 <= r < rows ==> |cells[r]| == cols
  }

  function Blank(n: nat): (s: string)
    ensures |s| == n && forall i :: 0 <= i < n ==> s[i] == ' '
  {
    seq(n, _ => ' ')
  }

  /** What the firmware's text output does: the cursor moves where it is told if that is
      on the screen, and writing past the last column goes on in the next row, which
      past the last row scrolls everything up. */
  class Console {
    const cols: nat
    const rows: nat
    var cells: Cells
    var col: nat
    var row: nat

    ghost predicate Valid()
      reads this
    {
      Grid(cells, cols, rows) && col < cols && row < rows
    }

    constructor (cells: Cells, cols: nat, rows: nat, row: nat)
      requires Grid(cells, cols, rows) && 0 < cols && row < rows
      ensures Valid() && this.cells == cells && this.cols == cols && this.rows == rows && this.row == row
    {
      this.cells, this.cols, this.rows, this.col, this.row := cells, cols, rows, 0, row;
    }

    method SetCursor(c: nat, r: nat)
      requires Valid()
      modifies this`col, this`row
      ensures Valid()
      ensures if c < cols && r < rows then col == c && row == r else col == old(col) && row == old(row)
    {
      if c < cols && r < rows {
        col, row := c, r;
      }
    }

    method PutChar(c: char)
      requires Valid()
      modifies this
      ensures Valid()
      ensures old(col) + 1 < cols ==>
                && row == old(row) && col == old(col) + 1
                && cells == old(cells)[row := old(cells)[row][old(col) := c]]
    {
      cells := cells[row := cells[row][col := c]];
      col := col + 1;
      if col == cols {
        col, row := 0, row + 1;
        if row == rows {
          cells := cells[1..] + [Blank(cols)];
          row := rows - 1;
        }
      }
    }

    /** Text that stops short of the last column lands in its row, and nothing scrolls. */
    method Print(s: string)
      requires Valid()
      modifies this
      ensures Valid()
      ensures old(col) + |s| < cols ==>
                && row == old(row) && col == old(col) + |s|
                && cells == old(cells)[row := old(cells)[row][..old(col)] + s + old(cells)[row][old(col) + |s|..]]
    {
      ghost var fits := col + |s| < cols;
      ghost var c0, line := col, cells[row];
      assert fits ==> line == line[..c0] + s[..0] + line[c0 + 0..];
      for i := 0 to |s|
        invariant Valid()
        invariant fits ==> row == old(row) && col == c0 + i
        invariant fits ==> cells == old(cells)[row := line[..c0] + s[..i] + line[c0 + i..]]
      {
        PutChar(s[i]);
        assert fits ==> (line[..c0] + s[..i] + line[c0 + i..])[c0 + i := s[i]]
                        == line[..c0] + s[..i + 1] + line[c0 + i + 1..];
      }
      assert s[..|s|] == s;
    }
  }

  /* ---- what the menu's rows say ---- */

  /** Where the menu's lines live. */
  datatype Layout = Layout(origin: nat, cols: nat, entries: nat)
  {
    function TitleRow(): nat { origin }
    function EntryRow(i: nat): nat { origin + 2 + i }
    function HintRow(): nat { origin + 3 + entries }
    function StatusRow(): nat { origin + 4 + entries }
    function Height(): nat { 5 + entries }

    predicate Fits(rows: nat) { 20 <= cols && origin + Height() <= rows }
  }

  const TITLE: string := "    Select what to boot:"
  const HINT: string := "    up/down to move, a number to pick, enter to boot"
  const CANCELLED: string := "    (countdown cancelled)"

  function EntryText(e: Entry, i: nat, selected: nat): string
  {
    "     " + [if i == selected then '>' else ' '] + " " + Decimal(i + 1) + ". " + e.title
  }

  function CountdownText(e: Entry, remaining: nat): string
  {
    "    booting \"" + e.title + "\" in " + Decimal(remaining) + "s ..."
  }

  /** `text` cut or filled with spaces to `width`. */
  function Fit(text: string, width: nat): (s: string)
    ensures |s| == width
  {
    if |text| >= width then text[..width] else text + Blank(width - |text|)
  }

  function EntryTexts(entries: seq<Entry>, selected: nat): (ts: seq<string>)
    ensures |ts| == |entries|
  {
    seq(|entries|, i requires 0 <= i < |entries| => EntryText(entries[i], i, selected))
  }

  /** The menu's rows from top to bottom. */
  function MenuTexts(entries: seq<Entry>, selected: nat, status: string): (ts: seq<string>)
    ensures |ts| == 5 + |entries|
  {
    [TITLE, ""] + EntryTexts(entries, selected) + ["", HINT, status]
  }

  /** A row with `text` on it: all of it but the last cell, which is left alone. */
  function Written(was: string, text: string): (r: string)
    ensures |r| == |was|
  {
    if was == [] then [] else Fit(text, |was| - 1) + [was[|was| - 1]]
  }

  /** `cells` with `texts` written on the rows from `top` down. */
  function Overlay(cells: Cells, top: nat, texts: seq<string>): (r: Cells)
    ensures |r| == |cells|
  {
    seq(|cells|, i requires 0 <= i < |cells| =>
      if top <= i < top + |texts| then Written(cells[i], texts[i - top]) else cells[i])
  }

  /** `cells` with the whole menu freshly drawn on them. */
  function Drawn(cells: Cells, l: Layout, entries: seq<Entry>, selected: nat, status: string): Cells
  {
    Overlay(cells, l.origin, MenuTexts(entries, selected, status))
  }

  /** The text a fresh drawing has on the menu's `r`th row, from the top. */
  function RowText(entries: seq<Entry>, selected: nat, status: string, r: nat): string
  {
    if r == 0 then "    Select what to boot:"
    else if 2 <= r < 2 + |entries| then
      (if r - 2 == selected then "     > " else "       ") + Decimal(r - 1) + ". " + entries[r - 2].title
    else if r == 3 + |entries| then "    up/down to move, a number to pick, enter to boot"
    else if r == 4 + |entries| then status
    else ""
  }

  /** Cell by cell: each of the menu's rows carries its text, cut at or filled with spaces
      up to the last column, which is left alone with all the other rows. */
  lemma DrawnCells(cells: Cells, l: Layout, entries: seq<Entry>, selected: nat, status: string, i: nat, c: nat)
    requires i < |cells| && c < |cells[i]|
    ensures var drawn := Drawn(cells, l, entries, selected, status);
            && |drawn| == |cells| && |drawn[i]| == |cells[i]|
            && if l.origin <= i < l.origin + 5 + |entries| && c + 1 < |cells[i]| then
                 var text := RowText(entries, selected, status, i - l.origin);
                 drawn[i][c] == if c < |text| then text[c] else ' '
               else drawn[i][c] == cells[i][c]
  {
    hide Decimal, MenuTexts, RowText, Written;
    if l.origin <= i < l.origin + 5 + |entries| {
      var text := RowText(entries, selected, status, i - l.origin);
      RowSays(entries, selected, status, i - l.origin);
      WrittenCell(cells[i], text, c);
    }
  }

  lemma WrittenCell(was: string, text: string, c: nat)
    requires c < |was|
    ensures Written(was, text)[c] == if c + 1 == |was| then was[c] else if c < |text| then text[c] else ' '
  {
  }

  lemma RowSays(entries: seq<Entry>, selected: nat, status: string, r: nat)
    requires r < 5 + |entries|
    ensures MenuTexts(entries, selected, status)[r] == RowText(entries, selected, status, r)
  {
    hide Decimal;
    if 2 <= r < 2 + |entries| {
      assert MenuTexts(entries, selected, status)[r] == EntryTexts(entries, selected)[r - 2];
      if r - 2 == selected {
        assert "     " + ['>'] + " " == "     > ";
      } else {
        assert "     " + [' '] + " " == "       ";
      }
    }
  }

  lemma WrittenTwice(was: string, a: string, b: string)
    ensures Written(Written(was, a), b) == Written(was, b)
  {
  }

  lemma OverlayGrows(cells: Cells, top: nat, ts: seq<string>, t: string)
    requires top + |ts| < |cells|
    ensures var row := top + |ts|;
            Overlay(cells, top, ts)[row := Written(Overlay(cells, top, ts)[row], t)] == Overlay(cells, top, ts + [t])
  {
    hide Written;
  }

  lemma OverlayBelow(cells: Cells, top: nat, ts: seq<string>, us: seq<string>)
    ensures Overlay(Overlay(cells, top, ts), top + |ts|, us) == Overlay(cells, top, ts + us)
  {
    hide Written;
  }

  /** Writing some of the rows again is as good as having written them so at first. */
  lemma OverlayAgain(cells: Cells, top: nat, ts: seq<string>, us: seq<string>, vs: seq<string>, us': seq<string>)
    requires |us'| == |us|
    ensures Overlay(Overlay(cells, top, ts + us + vs), top + |ts|, us') == Overlay(cells, top, ts + us' + vs)
  {
    hide Written;
    var before, after := Overlay(cells, top, ts + us + vs), Overlay(cells, top, ts + us' + vs);
    var got := Overlay(before, top + |ts|, us');
    forall i | 0 <= i < |cells|
      ensures got[i] == after[i]
    {
      if top + |ts| <= i < top + |ts| + |us| {
        WrittenTwice(cells[i], (ts + us + vs)[i - top], us'[i - top - |ts|]);
      }
    }
  }

  /* ---- drawing ---- */

  method PushNum(s: string, n: nat) returns (t: string)
    requires n < TWO_64
    ensures t == s + Decimal(n)
  {
    if n == 0 {
      return s + "0";
    }
    hide Decimal, Reversed;
    ReversedNothing();
    var digits, len := TakeDigits(n);
    t := s;
    assert s + Decimal(n) == t + Reversed(digits[..len]);
    while len > 0
      invariant len <= 20 && s + Decimal(n) == t + Reversed(digits[..len])
    {
      ReversedSnoc(digits[..len - 1], digits[len - 1]);
      assert digits[..len] == digits[..len - 1] + [digits[len - 1]];
      len := len - 1;
      t := t + [digits[len]];
    }
  }

  /** The digits of a number, last one first; twenty are enough for 64 bits. */
  method TakeDigits(n: nat) returns (digits: array<char>, len: nat)
    requires 0 < n < TWO_64
    ensures digits.Length == 20 && len <= 20 && Decimal(n) == Reversed(digits[..len])
  {
    hide Power10, Decimal, Reversed, Digit;
    digits := new char[20](_ => '0');
    var m: nat;
    m, len := n, 0;
    PowersOfTen();
    ReversedNothing();
    while m > 0
      invariant len <= 20 && m < Power10(20 - len)
      invariant Decimal(n) == (if m == 0 then [] else Decimal(m)) + Reversed(digits[..len])
      decreases m
    {
      PowerStep(20 - len, m);
      DecimalUnfolds(m);
      digits[len] := Digit(m % 10);
      assert digits[..len + 1] == digits[..len] + [Digit(m % 10)];
      ReversedSnoc(digits[..len], Digit(m % 10));
      m := m / 10;
      len := len + 1;
    }
  }

  function Power10(k: nat): (p: nat)
    ensures p > 0
  {
    if k == 0 then 1 else 10 * Power10(k - 1)
  }

  lemma PowersOfTen()
    ensures TWO_64 <= Power10(20)
  {
    assert Power10(5) == 100000;
    assert Power10(10) == 10000000000;
    assert Power10(15) == 1000000000000000;
  }

  lemma PowerStep(k: nat, m: nat)
    requires 0 < m < Power10(k)
    ensures k > 0 && m / 10 < Power10(k - 1)
  {
  }

  function Reversed(s: string): string
  {
    if s == [] then [] else [s[|s| - 1]] + Reversed(s[..|s| - 1])
  }

  lemma ReversedNothing()
    ensures Reversed([]) == []
  {
  }

  lemma ReversedSnoc(s: string, c: char)
    ensures Reversed(s + [c]) == [c] + Reversed(s)
  {
    assert (s + [c])[..|s|] == s;
  }

  lemma DecimalUnfolds(n: nat)
    requires n > 0
    ensures Decimal(n) == (if n / 10 == 0 then [] else Decimal(n / 10)) + [Digit(n % 10)]
  {
  }

  /** Writes one line where it belongs, blanking the rest of its row but the last cell. */
  method WriteLine(con: Console, l: Layout, row: nat, text: string)
    requires con.Valid() && l.cols == con.cols && row < con.rows && 0 < con.cols
    modifies con
    ensures con.Valid()
    ensures con.cells == old(con.cells)[row := Written(old(con.cells)[row], text)]
  {
    var s := Filled(text, l.cols - 1);
    con.SetCursor(0, row);
    ghost var was := con.cells[row];
    con.Print(s);
    assert was[..0] + s + was[0 + |s|..] == Written(was, text);
  }

  /** The loops that cut and pad a line. */
  method Filled(text: string, width: nat) returns (s: string)
    ensures s == Fit(text, width)
  {
    s := "";
    var kept := Min(|text|, width);
    for i := 0 to kept
      invariant s == text[..i]
    {
      s := s + [text[i]];
    }
    assert s == text[..kept] + Blank(0);
    while |s| < width
      invariant kept <= |s| <= width && s == text[..kept] + Blank(|s| - kept)
    {
      assert Blank(|s| + 1 - kept) == Blank(|s| - kept) + [' '];
      s := s + [' '];
    }
  }

  lemma OverlayNothing(cells: Cells, top: nat)
    ensures Overlay(cells, top, []) == cells
  {
  }

  method WriteRow(con: Console, l: Layout, row: nat, text: string, ghost base: Cells, ghost top: nat,
                  ghost ts: seq<string>)
    requires con.Valid() && l.cols == con.cols && 0 < con.cols
    requires con.cells == Overlay(base, top, ts) && row == top + |ts| < con.rows
    modifies con
    ensures con.Valid() && con.cells == Overlay(base, top, ts + [text])
  {
    hide Overlay, Written;
    OverlayGrows(base, top, ts, text);
    WriteLine(con, l, row, text);
  }

  /** Just the list, which is all that changes when the selection moves. */
  method DrawEntries(con: Console, l: Layout, entries: seq<Entry>, selected: nat)
    requires con.Valid() && l.cols == con.cols && l.Fits(con.rows) && l.entries == |entries| < TWO_64 - 1
    modifies con
    ensures con.Valid() && con.cells == Overlay(old(con.cells), l.EntryRow(0), EntryTexts(entries, selected))
  {
    hide Overlay, Decimal;
    ghost var base, all := con.cells, EntryTexts(entries, selected);
    OverlayNothing(base, l.EntryRow(0));
    for i := 0 to |entries|
      invariant con.Valid() && con.cells == Overlay(base, l.EntryRow(0), all[..i])
    {
      var s := "     ";
      s := s + [if i == selected then '>' else ' '];
      s := s + " ";
      s := PushNum(s, i + 1);
      s := s + ".";
      s := s + " ";
      s := s + entries[i].title;
      assert s == EntryText(entries[i], i, selected);
      WriteRow(con, l, l.EntryRow(i), s, base, l.EntryRow(0), all[..i]);
      assert all[..i + 1] == all[..i] + [s];
    }
    assert all[..|entries|] == all;
  }

  /** The whole menu, once. */
  method Draw(con: Console, l: Layout, entries: seq<Entry>, selected: nat)
    requires con.Valid() && l.cols == con.cols && l.Fits(con.rows) && l.entries == |entries| < TWO_64 - 1
    modifies con
    ensures con.Valid() && con.cells == Drawn(old(con.cells), l, entries, selected, "")
  {
    hide Overlay, EntryTexts;
    ghost var base, top, es := con.cells, l.origin, EntryTexts(entries, selected);
    OverlayNothing(base, top);
    WriteRow(con, l, l.TitleRow(), TITLE, base, top, []);
    assert [] + [TITLE] == [TITLE];
    WriteRow(con, l, l.TitleRow() + 1, "", base, top, [TITLE]);
    assert [TITLE] + [""] == [TITLE, ""];
    DrawEntries(con, l, entries, selected);
    OverlayBelow(base, top, [TITLE, ""], es);
    ghost var rows := [TITLE, ""] + es;
    WriteRow(con, l, l.EntryRow(|entries|), "", base, top, rows);
    WriteRow(con, l, l.HintRow(), HINT, base, top, rows + [""]);
    WriteRow(con, l, l.StatusRow(), "", base, top, rows + [""] + [HINT]);
    assert rows + [""] + [HINT] + [""] == MenuTexts(entries, selected, "");
  }

  /** Moving the selection repaints the list and makes the screen a fresh drawing. */
  method Repaint(con: Console, l: Layout, entries: seq<Entry>, selected: nat,
                 ghost base: Cells, ghost before: nat, ghost status: string)
    requires con.Valid() && l.cols == con.cols && l.Fits(con.rows) && l.entries == |entries| < TWO_64 - 1
    requires con.cells == Drawn(base, l, entries, before, status)
    modifies con
    ensures con.Valid() && con.cells == Drawn(base, l, entries, selected, status)
  {
    hide Overlay, EntryTexts;
    OverlayAgain(base, l.origin, [TITLE, ""], EntryTexts(entries, before), ["", HINT, status],
                 EntryTexts(entries, selected));
    DrawEntries(con, l, entries, selected);
  }

  /** Writing the status row leaves the rest of the drawing alone. */
  method WriteStatus(con: Console, l: Layout, text: string,
                     ghost entries: seq<Entry>, ghost selected: nat, ghost base: Cells, ghost status: string)
    requires con.Valid() && l.cols == con.cols && l.Fits(con.rows) && l.entries == |entries|
    requires con.cells == Drawn(base, l, entries, selected, status)
    modifies con
    ensures con.Valid() && con.cells == Drawn(base, l, entries, selected, text)
  {
    hide Overlay, EntryTexts, Written;
    ghost var rows := [TITLE, ""] + EntryTexts(entries, selected) + ["", HINT];
    assert MenuTexts(entries, selected, status) == rows + [status] + [];
    assert MenuTexts(entries, selected, text) == rows + [text] + [];
    ghost var was := con.cells;
    OverlayAgain(base, l.origin, rows, [status], [], [text]);
    OverlayOne(was, l.StatusRow(), text);
    WriteLine(con, l, l.StatusRow(), text);
  }

  lemma OverlayOne(cells: Cells, row: nat, text: string)
    requires row < |cells|
    ensures Overlay(cells, row, [text]) == cells[row := Written(cells[row], text)]
  {
    hide Written;
  }

  method Countdown(con: Console, l: Layout, entries: seq<Entry>, selected: nat, remaining: u64,
                   ghost base: Cells, ghost status: string)
    requires con.Valid() && l.cols == con.cols && l.Fits(con.rows) && l.entries == |entries| && selected < |entries|
    requires con.cells == Drawn(base, l, entries, selected, status)
    modifies con
    ensures con.Valid()
    ensures con.cells == Drawn(base, l, entries, selected, CountdownText(entries[selected], remaining))
  {
    hide Drawn, Decimal;
    var s := "    booting \"";
    s := s + entries[selected].title;
    s := s + "\" in ";
    s := PushNum(s, remaining);
    s := s + "s ...";
    assert s == CountdownText(entries[selected], remaining);
    WriteStatus(con, l, s, entries, selected, base, status);
  }
}
