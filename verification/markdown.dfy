/** Markdown tables as the readings page writes them. A cell is written as
    `" text |"`, a blank cell as `" |"`, and a row is `"|"`, its cells and a
    line break. The parser below reads a row back. */
module Markdown {
  import opened Wrappers

  datatype Cell = Text(text: string) | Blank

  /** A table under a level-two heading: its column names and its body rows. */
  datatype Table = Table(heading: string, columns: seq<string>, rows: seq<seq<Cell>>)

  const Pipe: char := '|'

  /** The text that closes the previous table and opens the next. */
  const Separator: string := "\n---\n\n"

  function CellText(c: Cell): string {
    match c
    case Text(s) => " " + s + " |"
    case Blank => " |"
  }

  function CellsText(cells: seq<Cell>): string {
    if |cells| == 0 then "" else CellText(cells[0]) + CellsText(cells[1..])
  }

  function RowText(cells: seq<Cell>): string {
    "|" + CellsText(cells) + "\n"
  }

  function RowsText(rows: seq<seq<Cell>>): string {
    if |rows| == 0 then "" else RowText(rows[0]) + RowsText(rows[1..])
  }

  function Dashes(n: nat): (r: string)
    ensures |r| == n && forall i :: 0 <= i < n ==> r[i] == '-'
  {
    if n == 0 then "" else "-" + Dashes(n - 1)
  }

  /** The line under the header: each column's name width plus two, in dashes. */
  function RuleText(columns: seq<string>): string {
    "|" + RuleCells(columns) + "\n"
  }

  function RuleCells(columns: seq<string>): string {
    if |columns| == 0 then "" else Dashes(|columns[0]| + 2) + "|" + RuleCells(columns[1..])
  }

  function HeaderCells(columns: seq<string>): (r: seq<Cell>)
    ensures |r| == |columns| && forall i :: 0 <= i < |r| ==> r[i] == Text(columns[i])
  {
    seq(|columns|, i requires 0 <= i < |columns| => Text(columns[i]))
  }

  /** The header line: the column names as text cells. */
  function HeaderText(columns: seq<string>): string {
    "|" + HeaderCellsText(columns) + "\n"
  }

  function HeaderCellsText(columns: seq<string>): string {
    if |columns| == 0 then "" else " " + columns[0] + " |" + HeaderCellsText(columns[1..])
  }

  function TableText(t: Table): string {
    "## " + t.heading + "\n\n" + HeaderText(t.columns) + RuleText(t.columns) + RowsText(t.rows)
  }

  /** Tables in order, with a horizontal rule between consecutive ones. */
  function TablesText(tables: seq<Table>): string {
    if |tables| == 0 then ""
    else if |tables| == 1 then TableText(tables[0])
    else TableText(tables[0]) + Separator + TablesText(tables[1..])
  }

  // ---------------------------------------------------------------------------
  // Reading a row back

  /** No cell text contains the column delimiter. */
  predicate Clean(cells: seq<Cell>) {
    forall i :: 0 <= i < |cells| && cells[i].Text? ==> Pipe !in cells[i].text
  }

  /** The index of the first pipe in `s`, or `|s|` when there is none. */
  function PipeIndex(s: string): (k: nat)
    ensures k <= |s|
    ensures Pipe !in s[..k]
    ensures k < |s| ==> s[k] == Pipe
  {
    if |s| == 0 then 0
    else if s[0] == Pipe then 0
    else
      var k := 1 + PipeIndex(s[1..]);
      assert s[..k] == [s[0]] + s[1..][..k - 1];
      k
  }

  /** The cell a piece of text between two pipes stands for: one space alone is
      a blank cell, text padded by a space on each side is a text cell. */
  function CellOf(piece: string): Option<Cell> {
    if piece == " " then Some(Blank)
    else if |piece| >= 2 && piece[0] == ' ' && piece[|piece| - 1] == ' ' then Some(Text(piece[1..|piece| - 1]))
    else None
  }

  function ParseCells(s: string): Option<seq<Cell>>
    decreases |s|
  {
    if |s| == 0 then Some([])
    else
      var k := PipeIndex(s);
      if k == |s| then None
      else
        match (CellOf(s[..k]), ParseCells(s[k + 1..]))
        case (Some(c), Some(rest)) => Some([c] + rest)
        case _ => None
  }

  /** The cells of one line of a table. */
  function ParseRow(line: string): Option<seq<Cell>> {
    if |line| >= 2 && line[0] == Pipe && line[|line| - 1] == '\n' then ParseCells(line[1..|line| - 1]) else None
  }

  /** The number of pipes in a text. */
  function Pipes(s: string): nat {
    if |s| == 0 then 0 else (if s[0] == Pipe then 1 else 0) + Pipes(s[1..])
  }

  lemma {:induction false} PipesAppend(a: string, b: string)
    ensures Pipes(a + b) == Pipes(a) + Pipes(b)
    decreases |a|
  {
    if |a| == 0 {
      assert a + b == b;
    } else {
      assert (a + b)[1..] == a[1..] + b;
      PipesAppend(a[1..], b);
    }
  }

  lemma {:induction false} NoPipes(s: string)
    requires Pipe !in s
    ensures Pipes(s) == 0
    decreases |s|
  {
    if |s| > 0 {
      assert s[0] in s;
      assert forall c :: c in s[1..] ==> c in s;
      NoPipes(s[1..]);
    }
  }

  /** Reading one written cell off the front of a text. */
  lemma CellRoundTrip(c: Cell, rest: string)
    requires c.Text? ==> Pipe !in c.text
    ensures PipeIndex(CellText(c) + rest) == |CellText(c)| - 1
    ensures CellOf((CellText(c) + rest)[..|CellText(c)| - 1]) == Some(c)
    ensures (CellText(c) + rest)[|CellText(c)|..] == rest
  {
    var s := CellText(c) + rest;
    var k := |CellText(c)| - 1;
    assert s[k] == Pipe;
    assert Pipe !in s[..k] by {
      match c
      case Blank =>
        assert s[..k] == " ";
      case Text(t) =>
        assert s[..k] == " " + t + " ";
    }
    PipeIndexFirst(s, k);
    match c
    case Blank =>
      assert s[..k] == " ";
    case Text(t) =>
      assert s[..k] == " " + t + " ";
      assert s[..k][1..k - 1] == t;
  }

  /** The first pipe of a text is at `k` when `s[k]` is a pipe and none comes before it. */
  lemma {:induction false} PipeIndexFirst(s: string, k: nat)
    requires k < |s| && s[k] == Pipe && Pipe !in s[..k]
    ensures PipeIndex(s) == k
    decreases k
  {
    if k > 0 {
      assert s[0] == s[..k][0];
      assert s[1..][..k - 1] == s[1..k];
      assert forall c :: c in s[1..k] ==> c in s[..k];
      PipeIndexFirst(s[1..], k - 1);
    }
  }

  lemma ConcatAssoc(x: string, y: string, z: string)
    ensures x + (y + z) == (x + y) + z
  {
  }

  /** A row that opens with two text cells, written out. */
  lemma RowTextTwo(t: string, a: string, rest: seq<Cell>)
    ensures RowText([Text(t), Text(a)] + rest) == "| " + t + " | " + a + " |" + CellsText(rest) + "\n"
  {
    var r := CellsText(rest);
    var x, y := " " + t + " |", " " + a + " |";
    var cells := [Text(t), Text(a)] + rest;
    assert cells[1..] == [Text(a)] + rest;
    assert cells[1..][1..] == rest;
    assert CellsText(cells[1..]) == y + r;
    assert CellsText(cells) == x + (y + r);
    ConcatAssoc("|", x, y + r);
    ConcatAssoc("|" + x, y, r);
    OpenCell(t);
    JoinCell("| " + t, a);
  }

  lemma OpenCell(t: string)
    ensures "|" + (" " + t + " |") == "| " + t + " |"
  {
    assert "|" + " " == "| ";
    ConcatAssoc("|", " " + t, " |");
    ConcatAssoc("|", " ", t);
  }

  lemma JoinCell(w: string, a: string)
    ensures (w + " |") + (" " + a + " |") == w + " | " + a + " |"
  {
    assert " |" + " " == " | ";
    ConcatAssoc(w + " |", " " + a, " |");
    ConcatAssoc(w + " |", " ", a);
    ConcatAssoc(w, " |", " ");
  }

  /** Written cells without pipes in their text read back as the same cells. */
  lemma {:induction false} CellsRoundTrip(cells: seq<Cell>)
    requires Clean(cells)
    ensures ParseCells(CellsText(cells)) == Some(cells)
    decreases |cells|
  {
    if |cells| > 0 {
      var rest := CellsText(cells[1..]);
      var s := CellText(cells[0]) + rest;
      assert CellsText(cells) == s;
      var k := |CellText(cells[0])| - 1;
      CleanTail(cells);
      CellRoundTrip(cells[0], rest);
      assert s[k + 1..] == rest;
      CellsRoundTrip(cells[1..]);
      ParseCellsStep(s, k, cells[0], cells[1..]);
      assert [cells[0]] + cells[1..] == cells;
    }
  }

  /** One step of the parser: a cell up to the first pipe, then the rest. */
  lemma ParseCellsStep(s: string, k: nat, c: Cell, rest: seq<Cell>)
    requires k < |s| && PipeIndex(s) == k
    requires CellOf(s[..k]) == Some(c) && ParseCells(s[k + 1..]) == Some(rest)
    ensures ParseCells(s) == Some([c] + rest)
  {
  }

  lemma CleanTail(cells: seq<Cell>)
    requires |cells| > 0 && Clean(cells)
    ensures Clean(cells[1..])
  {
    forall i | 0 <= i < |cells[1..]| && cells[1..][i].Text?
      ensures Pipe !in cells[1..][i].text
    {
      assert cells[1..][i] == cells[i + 1];
    }
  }

  /** A written row reads back as its cells: each body row keeps its shape. */
  lemma RowRoundTrip(cells: seq<Cell>)
    requires Clean(cells)
    ensures ParseRow(RowText(cells)) == Some(cells)
  {
    var line := RowText(cells);
    assert line[1..|line| - 1] == CellsText(cells);
    CellsRoundTrip(cells);
  }

  /** A written row of `n` pipe-free cells contains exactly `n + 1` pipes, so it
      has as many columns as any other such row of `n` cells. */
  lemma {:induction false} RowPipes(cells: seq<Cell>)
    requires Clean(cells)
    ensures Pipes(CellsText(cells)) == |cells|
    ensures Pipes(RowText(cells)) == |cells| + 1
    decreases |cells|
  {
    if |cells| > 0 {
      CleanTail(cells);
      RowPipes(cells[1..]);
      PipesAppend(CellText(cells[0]), CellsText(cells[1..]));
      match cells[0]
      case Blank =>
        assert CellText(cells[0]) == " " + "|";
        PipesAppend(" ", "|");
      case Text(t) =>
        assert CellText(cells[0]) == " " + t + " " + "|";
        PipesAppend(" " + t + " ", "|");
        PipesAppend(" " + t, " ");
        PipesAppend(" ", t);
        NoPipes(t);
    }
    PipesAppend("|", CellsText(cells));
    PipesAppend("|" + CellsText(cells), "\n");
  }

  /** The header line is the written row of the column names, so it reads back
      as those names like any other row. */
  lemma {:induction false} HeaderIsRow(columns: seq<string>)
    ensures HeaderText(columns) == RowText(HeaderCells(columns))
    decreases |columns|
  {
    HeaderCellsTextIsCells(columns);
  }

  lemma {:induction false} HeaderCellsTextIsCells(columns: seq<string>)
    ensures HeaderCellsText(columns) == CellsText(HeaderCells(columns))
    decreases |columns|
  {
    if |columns| > 0 {
      HeaderCellsTextIsCells(columns[1..]);
      assert HeaderCells(columns)[1..] == HeaderCells(columns[1..]);
    }
  }

  lemma {:induction false} HeaderCellsTextAppend(xs: seq<string>, ys: seq<string>)
    ensures HeaderCellsText(xs + ys) == HeaderCellsText(xs) + HeaderCellsText(ys)
    decreases |xs|
  {
    if |xs| == 0 {
      assert xs + ys == ys;
    } else {
      assert (xs + ys)[1..] == xs[1..] + ys;
      HeaderCellsTextAppend(xs[1..], ys);
    }
  }

  lemma {:induction false} RuleCellsAppend(xs: seq<string>, ys: seq<string>)
    ensures RuleCells(xs + ys) == RuleCells(xs) + RuleCells(ys)
    decreases |xs|
  {
    if |xs| == 0 {
      assert xs + ys == ys;
    } else {
      assert (xs + ys)[1..] == xs[1..] + ys;
      RuleCellsAppend(xs[1..], ys);
    }
  }
}
