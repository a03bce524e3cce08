/** The readings page (`generate_readings_content`): TOML front matter
    followed by three tables in a fixed order, Currently Reading, Future Reads
    and Already Read. The generation timestamp, today's date and the display of
    a percentage are parameters, so rendering is a pure function. */
module Readings {
  import opened Wrappers
  import opened Reader
  import opened Classifier
  import opened Markdown

  /** The page description; the API script appends the date of the last sync. */
  const Description: string := "My reading journey - what I am reading, what I want to read, and what I have read"

  const SyncedLabel: string := " (Last synced: "

  function SyncedDescription(today: string): string {
    Description + SyncedLabel + today + ")"
  }

  /** The front matter block, first line `+++ ` (with its trailing space) to
      `+++`, around the two fields that vary: the date and the description. */
  function FrontMatter(date: string, description: string): string {
    OpeningFence + "draft = false\n" + DateKey + date
    + "\ntitle = \"Readings\"\n" + DescriptionKey + description + "\""
    + "\nslug = \"readings\"\nauthors = []\ntags = []\ncategories = []\n" + ClosingFence
  }

  const OpeningFence: string := "+++ \n"
  const ClosingFence: string := "+++\n"
  const DateKey: string := "date = "
  const DescriptionKey: string := "description = \""

  /** The tables in page order. */
  const PageOrder: seq<Bucket> := [CurrentlyReading, FutureReads, AlreadyRead]

  function Heading(b: Bucket): string {
    match b
    case CurrentlyReading => "Currently Reading"
    case FutureReads => "Future Reads"
    case AlreadyRead => "Already Read"
  }

  function Columns(b: Bucket): seq<string> {
    match b
    case CurrentlyReading => ["Title", "Author", "Progress", "Notes"]
    case FutureReads => ["Title", "Author", "Priority", "Notes"]
    case AlreadyRead => ["Title", "Author", "Year Read", "Rating", "Notes"]
  }

  /** The message of the one row an empty table gets. */
  function EmptyMessage(b: Bucket): string {
    match b
    case CurrentlyReading => "No books currently in progress"
    case FutureReads => "No books in queue"
    case AlreadyRead => "No completed books yet"
  }

  /** The row of one entry: title and author, the percentage for books in
      progress, every other column blank. */
  function EntryRow(b: Bucket, e: Entry, showPercent: real -> string): (row: seq<Cell>)
    ensures |row| == |Columns(b)|
    ensures row[0] == Text(e.title) && row[1] == Text(e.author)
    ensures forall i :: 2 <= i < |row| ==> row[i] == (if b == CurrentlyReading && i == 2 then Text(showPercent(e.percent) + "%") else Blank)
  {
    match b
    case CurrentlyReading => [Text(e.title), Text(e.author), Text(showPercent(e.percent) + "%"), Blank]
    case FutureReads => [Text(e.title), Text(e.author), Blank, Blank]
    case AlreadyRead => [Text(e.title), Text(e.author), Blank, Blank, Blank]
  }

  /** The row of an empty table: the message in italics, every other column blank. */
  function PlaceholderRow(b: Bucket): (row: seq<Cell>)
    ensures |row| == |Columns(b)|
    ensures row[0] == Text("*" + EmptyMessage(b) + "*")
    ensures forall i :: 1 <= i < |row| ==> row[i] == Blank
  {
    match b
    case CurrentlyReading => [Text("*" + EmptyMessage(b) + "*"), Blank, Blank, Blank]
    case FutureReads => [Text("*" + EmptyMessage(b) + "*"), Blank, Blank, Blank]
    case AlreadyRead => [Text("*" + EmptyMessage(b) + "*"), Blank, Blank, Blank, Blank]
  }

  /** The table of one bucket: one row per entry in bucket order, or the placeholder alone. */
  function BucketTable(b: Bucket, entries: seq<Entry>, showPercent: real -> string): (t: Table)
    ensures t.heading == Heading(b) && t.columns == Columns(b)
    ensures |entries| == 0 ==> t.rows == [PlaceholderRow(b)]
    ensures |entries| > 0 ==> |t.rows| == |entries| && forall i :: 0 <= i < |entries| ==> t.rows[i] == EntryRow(b, entries[i], showPercent)
    ensures forall i :: 0 <= i < |t.rows| ==> |t.rows[i]| == |t.columns|
  {
    Table(Heading(b), Columns(b), if |entries| == 0 then [PlaceholderRow(b)] else EntryRows(b, entries, showPercent))
  }

  function EntryRows(b: Bucket, entries: seq<Entry>, showPercent: real -> string): (rows: seq<seq<Cell>>)
    ensures |rows| == |entries| && forall i :: 0 <= i < |entries| ==> rows[i] == EntryRow(b, entries[i], showPercent)
  {
    seq(|entries|, i requires 0 <= i < |entries| => EntryRow(b, entries[i], showPercent))
  }

  /** The three tables of the page, in page order. */
  function Layout(buckets: Buckets, showPercent: real -> string): (tables: seq<Table>)
    ensures |tables| == 3
    ensures tables[0].heading == "Currently Reading" && tables[1].heading == "Future Reads" && tables[2].heading == "Already Read"
    ensures forall i :: 0 <= i < 3 ==> tables[i] == BucketTable(PageOrder[i], buckets.Get(PageOrder[i]), showPercent)
  {
    seq(3, i requires 0 <= i < 3 => BucketTable(PageOrder[i], buckets.Get(PageOrder[i]), showPercent))
  }

  /** The page text: front matter, a blank line, then the three tables. */
  function RenderPage(date: string, description: string, buckets: Buckets, showPercent: real -> string): string {
    FrontMatter(date, description) + "\n" + TablesText(Layout(buckets, showPercent))
  }

  // ---------------------------------------------------------------------------
  // Properties of the layout

  /** The synced description is the plain one followed by the date of the sync,
      which can be read back from between the label and the closing parenthesis. */
  lemma SyncedDescriptionExtends(today: string)
    ensures |SyncedDescription(today)| == |Description| + |SyncedLabel| + |today| + 1
    ensures SyncedDescription(today)[..|Description|] == Description
    ensures SyncedDescription(today)[|Description| + |SyncedLabel|..|SyncedDescription(today)| - 1] == today
  {
    var s := SyncedDescription(today);
    var k := |Description| + |SyncedLabel|;
    assert s == (Description + SyncedLabel) + today + ")";
    assert s[k..|s| - 1] == today;
  }

  /** The front matter opens with `+++ ` and closes with `+++`. The date
      field starts at offset 26 and the description field 35 characters after
      the date, so both read back verbatim from a page. */
  lemma FrontMatterFields(date: string, description: string)
    ensures |FrontMatter(date, description)| == |date| + |description| + 124
    ensures FrontMatter(date, description)[..5] == OpeningFence
    ensures FrontMatter(date, description)[|FrontMatter(date, description)| - 4..] == ClosingFence
    ensures FrontMatter(date, description)[19..26] == DateKey
    ensures FrontMatter(date, description)[26..26 + |date|] == date
    ensures FrontMatter(date, description)[|date| + 46..|date| + 61] == DescriptionKey
    ensures FrontMatter(date, description)[|date| + 61..|date| + 61 + |description|] == description
    ensures FrontMatter(date, description)[|date| + 61 + |description|] == '"'
  {
    var close := "\nslug = \"readings\"\nauthors = []\ntags = []\ncategories = []\n";
    var a := OpeningFence + "draft = false\n" + DateKey;
    var b := a + date + "\ntitle = \"Readings\"\n" + DescriptionKey;
    var c := b + description + "\"";
    var fm := FrontMatter(date, description);
    assert |a| == 26 && a[..5] == OpeningFence && a[19..] == DateKey;
    assert |b| == |date| + 61 && b[|date| + 46..] == DescriptionKey;
    assert b[..26] == a && b[26..26 + |date|] == date;
    assert fm == c + close + ClosingFence;
    assert |close| == 58;
    assert fm[..|c|] == c && c[..|b|] == b && c[|b|..|c| - 1] == description && c[|c| - 1] == '"';
    assert fm[..5] == b[..5] == a[..5];
    assert fm[19..26] == b[19..26] == a[19..];
    assert fm[26..26 + |date|] == b[26..26 + |date|];
    assert fm[|date| + 46..|date| + 61] == b[|date| + 46..];
  }

  /** A data row is never the placeholder: its author cell holds text, the
      placeholder's second cell is blank. */
  lemma PlaceholderIsNotData(b: Bucket, e: Entry, showPercent: real -> string)
    ensures EntryRow(b, e, showPercent) != PlaceholderRow(b)
  {
    assert EntryRow(b, e, showPercent)[1] != PlaceholderRow(b)[1];
  }

  /** Every item ends up as exactly one data row: the row at its rank in the
      table of its bucket, and that table holds no placeholder. */
  lemma ItemRow(items: seq<Item>, i: nat, showPercent: real -> string)
    requires i < |items|
    ensures var b := BucketOf(items[i]);
            var t := BucketTable(b, Categorize(items).Get(b), showPercent);
            && Rank(items, i) < |t.rows|
            && t.rows[Rank(items, i)] == EntryRow(b, Normalize(items[i]), showPercent)
            && PlaceholderRow(b) !in t.rows
  {
    var b := BucketOf(items[i]);
    var entries := Categorize(items).Get(b);
    BucketPosition(items, i);
    var t := BucketTable(b, entries, showPercent);
    forall k | 0 <= k < |t.rows|
      ensures t.rows[k] != PlaceholderRow(b)
    {
      PlaceholderIsNotData(b, entries[k], showPercent);
    }
  }

  /** The header of every table reads back as its column names, and has one
      pipe more than it has columns. */
  lemma HeaderWellFormed(b: Bucket)
    ensures ParseRow(HeaderText(Columns(b))) == Some(HeaderCells(Columns(b)))
    ensures Pipes(HeaderText(Columns(b))) == |Columns(b)| + 1
  {
    var cells := HeaderCells(Columns(b));
    assert Clean(cells) by {
      match b
      case CurrentlyReading =>
      case FutureReads =>
      case AlreadyRead =>
    }
    HeaderIsRow(Columns(b));
    RowRoundTrip(cells);
    RowPipes(cells);
  }

  /** When an entry's texts hold no pipe, its written row reads back as its cells
      and has as many pipes as the header of its table. */
  lemma EntryRowWellFormed(b: Bucket, e: Entry, showPercent: real -> string)
    requires Pipe !in e.title && Pipe !in e.author
    requires b == CurrentlyReading ==> Pipe !in showPercent(e.percent)
    ensures ParseRow(RowText(EntryRow(b, e, showPercent))) == Some(EntryRow(b, e, showPercent))
    ensures Pipes(RowText(EntryRow(b, e, showPercent))) == |Columns(b)| + 1
  {
    var row := EntryRow(b, e, showPercent);
    assert Clean(row) by {
      if b == CurrentlyReading {
        assert Pipe !in showPercent(e.percent) + "%" by {
          assert forall c :: c in showPercent(e.percent) + "%" ==> c in showPercent(e.percent) || c == '%';
        }
      }
    }
    RowRoundTrip(row);
    RowPipes(row);
  }

  /** With no entries at all, each of the three tables holds its placeholder alone. */
  lemma EmptyLayout(showPercent: real -> string)
    ensures forall i :: 0 <= i < 3 ==> Layout(NoBuckets, showPercent)[i].rows == [PlaceholderRow(PageOrder[i])]
  {
    forall i | 0 <= i < 3
      ensures Layout(NoBuckets, showPercent)[i].rows == [PlaceholderRow(PageOrder[i])]
    {
      assert NoBuckets.Get(PageOrder[i]) == [];
    }
  }

  /** The example of one book half read: one data row in Currently Reading and a
      placeholder in each of the two other tables. */
  lemma HalfReadExample(showPercent: real -> string)
    ensures var tables := Layout(Categorize([Item(Some("Dune"), Some("Herbert"), Some(0.5))]), showPercent);
            && tables[0].rows == [[Text("Dune"), Text("Herbert"), Text(showPercent(50.0) + "%"), Blank]]
            && tables[1].rows == [PlaceholderRow(FutureReads)]
            && tables[2].rows == [PlaceholderRow(AlreadyRead)]
  {
    var items := [Item(Some("Dune"), Some("Herbert"), Some(0.5))];
    assert items[..0] == [];
    assert Categorize(items) == Buckets([Entry("Dune", "Herbert", 50.0)], [], []);
  }

  // ---------------------------------------------------------------------------
  // The page written as the script writes it: literal text and one appended
  // line per entry.

  function CurrentLines(entries: seq<Entry>, showPercent: real -> string): string {
    if |entries| == 0 then ""
    else "| " + entries[0].title + " | " + entries[0].author + " | " + showPercent(entries[0].percent) + "% | |\n"
         + CurrentLines(entries[1..], showPercent)
  }

  function FutureLines(entries: seq<Entry>): string {
    if |entries| == 0 then ""
    else "| " + entries[0].title + " | " + entries[0].author + " | | |\n" + FutureLines(entries[1..])
  }

  function AlreadyLines(entries: seq<Entry>): string {
    if |entries| == 0 then ""
    else "| " + entries[0].title + " | " + entries[0].author + " | | | |\n" + AlreadyLines(entries[1..])
  }

  /** The text that opens a bucket's table in the script: heading, header row and rule. */
  function ScriptHeader(b: Bucket): string {
    ScriptHeading(b) + ScriptColumns(b) + ScriptRule(b)
  }

  function ScriptHeading(b: Bucket): string {
    match b
    case CurrentlyReading => "## Currently Reading\n\n"
    case FutureReads => "## Future Reads\n\n"
    case AlreadyRead => "## Already Read\n\n"
  }

  function ScriptColumns(b: Bucket): string {
    match b
    case CurrentlyReading => "| Title | Author | Progress | Notes |\n"
    case FutureReads => "| Title | Author | Priority | Notes |\n"
    case AlreadyRead => "| Title | Author | Year Read | Rating | Notes |\n"
  }

  function ScriptRule(b: Bucket): string {
    match b
    case CurrentlyReading => "|-------|--------|----------|-------|\n"
    case FutureReads => "|-------|--------|----------|-------|\n"
    case AlreadyRead => "|-------|--------|-----------|--------|-------|\n"
  }

  /** The script's placeholder line of an empty bucket. */
  function ScriptPlaceholder(b: Bucket): string {
    match b
    case CurrentlyReading => "| *No books currently in progress* | | | |\n"
    case FutureReads => "| *No books in queue* | | | |\n"
    case AlreadyRead => "| *No completed books yet* | | | | |\n"
  }

  /** The lines the script appends for a bucket's entries, one per entry. */
  function ScriptLines(b: Bucket, entries: seq<Entry>, showPercent: real -> string): string {
    match b
    case CurrentlyReading => CurrentLines(entries, showPercent)
    case FutureReads => FutureLines(entries)
    case AlreadyRead => AlreadyLines(entries)
  }

  /** One table as the script writes it: the opening text, a line per entry,
      and the placeholder line when there is no entry. */
  function ScriptSection(b: Bucket, entries: seq<Entry>, showPercent: real -> string): string {
    ScriptHeader(b) + ScriptLines(b, entries, showPercent) + (if |entries| == 0 then ScriptPlaceholder(b) else "")
  }

  /** `generate_readings_content` as written: front matter, then the three
      sections separated by horizontal rules. Written out, this is the layout
      of three tables: the script's literal text with one appended line per
      entry and the structured rendering agree. */
  function GenerateReadingsContent(date: string, description: string, buckets: Buckets, showPercent: real -> string)
    : (page: string)
    ensures page == RenderPage(date, description, buckets, showPercent)
  {
    SectionText(CurrentlyReading, buckets.currentlyReading, showPercent);
    SectionText(FutureReads, buckets.futureReads, showPercent);
    SectionText(AlreadyRead, buckets.alreadyRead, showPercent);
    TablesOfLayout(buckets, showPercent);
    Glue(FrontMatter(date, description),
         ScriptSection(CurrentlyReading, buckets.currentlyReading, showPercent),
         ScriptSection(FutureReads, buckets.futureReads, showPercent),
         ScriptSection(AlreadyRead, buckets.alreadyRead, showPercent));
    FrontMatter(date, description)
    + "\n" + ScriptSection(CurrentlyReading, buckets.currentlyReading, showPercent)
    + "\n---\n\n" + ScriptSection(FutureReads, buckets.futureReads, showPercent)
    + "\n---\n\n" + ScriptSection(AlreadyRead, buckets.alreadyRead, showPercent)
  }

  // ---------------------------------------------------------------------------
  // The two writings of the page agree

  lemma CellsTextCons(c: Cell, rest: seq<Cell>)
    ensures CellsText([c] + rest) == CellText(c) + CellsText(rest)
  {
    assert ([c] + rest)[1..] == rest;
  }

  /** The script's line for a book in progress is the written form of its row. */
  lemma CurrentRowText(e: Entry, showPercent: real -> string)
    ensures RowText(EntryRow(CurrentlyReading, e, showPercent))
            == "| " + e.title + " | " + e.author + " | " + showPercent(e.percent) + "% | |\n"
  {
    var t, a, p := e.title, e.author, showPercent(e.percent);
    var rest := [Text(p + "%"), Blank];
    assert EntryRow(CurrentlyReading, e, showPercent) == [Text(t), Text(a)] + rest;
    RowTextTwo(t, a, rest);
    CellsTextCons(Blank, []);
    CellsTextCons(Text(p + "%"), [Blank]);
    assert CellsText(rest) == (" " + (p + "%") + " |") + " |";
    PercentTail("| " + t + " | " + a, p);
  }

  lemma PercentTail(v: string, p: string)
    ensures ((v + " |") + ((" " + (p + "%") + " |") + " |")) + "\n" == v + " | " + p + "% | |\n"
  {
    var c := (" " + (p + "%") + " |") + " |";
    PercentCell(p);
    ConcatAssoc(v + " |", c, "\n");
    ConcatAssoc(v + " |", " " + p, "% | |\n");
    ConcatAssoc(v + " |", " ", p);
    ConcatAssoc(v, " |", " ");
    assert " |" + " " == " | ";
  }

  lemma PercentCell(p: string)
    ensures ((" " + (p + "%") + " |") + " |") + "\n" == " " + p + "% | |\n"
  {
    assert " |" + " |" + "\n" == " | |\n";
    assert "%" + " | |\n" == "% | |\n";
  }

  /** The script's line for a book in the queue is the written form of its row. */
  lemma FutureRowText(e: Entry, showPercent: real -> string)
    ensures RowText(EntryRow(FutureReads, e, showPercent)) == "| " + e.title + " | " + e.author + " | | |\n"
  {
    var t, a := e.title, e.author;
    var rest := [Blank, Blank];
    assert EntryRow(FutureReads, e, showPercent) == [Text(t), Text(a)] + rest;
    RowTextTwo(t, a, rest);
    CellsTextCons(Blank, []);
    CellsTextCons(Blank, [Blank]);
    assert CellsText(rest) == " | |";
    assert " |" + " | |" + "\n" == " | | |\n";
  }

  /** The script's line for a finished book is the written form of its row. */
  lemma AlreadyRowText(e: Entry, showPercent: real -> string)
    ensures RowText(EntryRow(AlreadyRead, e, showPercent)) == "| " + e.title + " | " + e.author + " | | | |\n"
  {
    var t, a := e.title, e.author;
    var rest := [Blank, Blank, Blank];
    assert EntryRow(AlreadyRead, e, showPercent) == [Text(t), Text(a)] + rest;
    RowTextTwo(t, a, rest);
    CellsTextCons(Blank, []);
    CellsTextCons(Blank, [Blank]);
    CellsTextCons(Blank, [Blank, Blank]);
    assert CellsText(rest) == " | | |";
    assert " |" + " | | |" + "\n" == " | | | |\n";
  }

  lemma {:induction false} ScriptLinesAreRows(b: Bucket, entries: seq<Entry>, showPercent: real -> string)
    ensures ScriptLines(b, entries, showPercent) == RowsText(EntryRows(b, entries, showPercent))
    decreases |entries|
  {
    if |entries| > 0 {
      var rows := EntryRows(b, entries, showPercent);
      assert rows[1..] == EntryRows(b, entries[1..], showPercent);
      ScriptLinesAreRows(b, entries[1..], showPercent);
      match b
      case CurrentlyReading => CurrentRowText(entries[0], showPercent);
      case FutureReads => FutureRowText(entries[0], showPercent);
      case AlreadyRead => AlreadyRowText(entries[0], showPercent);
    }
  }

  /** The written row of one italic message followed by blank cells. */
  lemma MessageRowText(message: string, blanks: seq<Cell>, tail: string)
    requires CellsText(blanks) == tail
    ensures RowText([Text("*" + message + "*")] + blanks) == "| *" + message + "*" + " |" + tail + "\n"
  {
    CellsTextCons(Text("*" + message + "*"), blanks);
  }

  /** The blank cells that follow the message of an empty table. */
  function PlaceholderTail(b: Bucket): string {
    if b == AlreadyRead then " | | | |" else " | | |"
  }

  lemma PlaceholderLiteral(b: Bucket)
    ensures "| *" + EmptyMessage(b) + "*" + " |" + PlaceholderTail(b) + "\n" == ScriptPlaceholder(b)
  {
    match b
    case CurrentlyReading => CurrentPlaceholderLiteral();
    case FutureReads => FuturePlaceholderLiteral();
    case AlreadyRead => AlreadyPlaceholderLiteral();
  }

  lemma CurrentPlaceholderLiteral()
    ensures "| *" + "No books currently in progress" + "*" + " |" + " | | |" + "\n" == "| *No books currently in progress* | | | |\n"
  {
  }

  lemma FuturePlaceholderLiteral()
    ensures "| *" + "No books in queue" + "*" + " |" + " | | |" + "\n" == "| *No books in queue* | | | |\n"
  {
  }

  lemma AlreadyPlaceholderLiteral()
    ensures "| *" + "No completed books yet" + "*" + " |" + " | | | |" + "\n" == "| *No completed books yet* | | | | |\n"
  {
  }

  lemma PlaceholderText(b: Bucket)
    ensures RowText(PlaceholderRow(b)) == ScriptPlaceholder(b)
  {
    var three := [Blank, Blank, Blank];
    var blanks := if b == AlreadyRead then [Blank] + three else three;
    assert CellsText(three) == " | | |" by {
      CellsTextCons(Blank, []);
      CellsTextCons(Blank, [Blank]);
      CellsTextCons(Blank, [Blank, Blank]);
    }
    CellsTextCons(Blank, three);
    assert CellsText(blanks) == PlaceholderTail(b);
    assert PlaceholderRow(b) == [Text("*" + EmptyMessage(b) + "*")] + blanks;
    MessageRowText(EmptyMessage(b), blanks, PlaceholderTail(b));
    PlaceholderLiteral(b);
  }

  /** The opening of a table as the structured writer produces it. */
  function TableOpening(b: Bucket): string {
    "## " + Heading(b) + "\n\n" + HeaderText(Columns(b)) + RuleText(Columns(b))
  }

  lemma HeadingLiteral(b: Bucket)
    ensures "## " + Heading(b) + "\n\n" == ScriptHeading(b)
  {
    match b
    case CurrentlyReading =>
      assert "## " + "Currently Reading" == "## Currently Reading";
    case FutureReads =>
      assert "## " + "Future Reads" == "## Future Reads";
    case AlreadyRead =>
      assert "## " + "Already Read" == "## Already Read";
  }

  /** The header and rule lines of each table are the script's literal lines. */
  lemma ColumnsLiteral(b: Bucket)
    ensures HeaderText(Columns(b)) == ScriptColumns(b)
    ensures RuleText(Columns(b)) == ScriptRule(b)
  {
    match b
    case CurrentlyReading => CurrentHeaderLiteral(); CurrentRuleLiteral();
    case FutureReads => FutureHeaderLiteral(); FutureRuleLiteral();
    case AlreadyRead => AlreadyHeaderLiteral(); AlreadyRuleLiteral();
  }

  lemma CurrentHeaderLiteral()
    ensures HeaderText(["Title", "Author", "Progress", "Notes"]) == "| Title | Author | Progress | Notes |\n"
  {
  }

  lemma CurrentRuleLiteral()
    ensures RuleText(["Title", "Author", "Progress", "Notes"]) == "|-------|--------|----------|-------|\n"
  {
  }

  lemma FutureHeaderLiteral()
    ensures HeaderText(["Title", "Author", "Priority", "Notes"]) == "| Title | Author | Priority | Notes |\n"
  {
  }

  lemma FutureRuleLiteral()
    ensures RuleText(["Title", "Author", "Priority", "Notes"]) == "|-------|--------|----------|-------|\n"
  {
  }

  lemma AlreadyHeaderLiteral()
    ensures HeaderText(["Title", "Author", "Year Read", "Rating", "Notes"]) == "| Title | Author | Year Read | Rating | Notes |\n"
  {
    var left, right := ["Title", "Author"], ["Year Read", "Rating", "Notes"];
    assert left + right == ["Title", "Author", "Year Read", "Rating", "Notes"];
    HeaderCellsTextAppend(left, right);
    HalfHeaderLiterals();
    HeaderJoinLiteral();
  }

  lemma HeaderJoinLiteral()
    ensures "|" + " Title | Author |" + " Year Read | Rating | Notes |" + "\n" == "| Title | Author | Year Read | Rating | Notes |\n"
  {
    assert "|" + " Title | Author |" == "| Title | Author |";
    assert "| Title | Author |" + " Year Read | Rating | Notes |" == "| Title | Author | Year Read | Rating | Notes |";
  }

  lemma HalfHeaderLiterals()
    ensures HeaderCellsText(["Title", "Author"]) == " Title | Author |"
    ensures HeaderCellsText(["Year Read", "Rating", "Notes"]) == " Year Read | Rating | Notes |"
  {
  }

  lemma AlreadyRuleLiteral()
    ensures RuleText(["Title", "Author", "Year Read", "Rating", "Notes"]) == "|-------|--------|-----------|--------|-------|\n"
  {
    var left, right := ["Title", "Author"], ["Year Read", "Rating", "Notes"];
    assert left + right == ["Title", "Author", "Year Read", "Rating", "Notes"];
    RuleCellsAppend(left, right);
    HalfRuleLiterals();
    RuleJoinLiteral();
  }

  lemma RuleJoinLiteral()
    ensures "|" + "-------|--------|" + "-----------|--------|-------|" + "\n" == "|-------|--------|-----------|--------|-------|\n"
  {
    assert "|" + "-------|--------|" == "|-------|--------|";
    assert "|-------|--------|" + "-----------|--------|-------|" == "|-------|--------|-----------|--------|-------|";
  }

  lemma HalfRuleLiterals()
    ensures RuleCells(["Title", "Author"]) == "-------|--------|"
    ensures RuleCells(["Year Read", "Rating", "Notes"]) == "-----------|--------|-------|"
  {
  }

  /** The opening of each table is the script's literal text. */
  lemma OpeningText(b: Bucket)
    ensures TableOpening(b) == ScriptHeader(b)
  {
    HeadingLiteral(b);
    ColumnsLiteral(b);
  }

  lemma TableTextSplit(b: Bucket, entries: seq<Entry>, showPercent: real -> string)
    ensures TableText(BucketTable(b, entries, showPercent)) == TableOpening(b) + RowsText(BucketTable(b, entries, showPercent).rows)
  {
  }

  lemma RowsOfSection(b: Bucket, entries: seq<Entry>, showPercent: real -> string)
    ensures RowsText(BucketTable(b, entries, showPercent).rows)
            == ScriptLines(b, entries, showPercent) + (if |entries| == 0 then ScriptPlaceholder(b) else "")
  {
    if |entries| == 0 {
      PlaceholderText(b);
      assert RowsText([PlaceholderRow(b)]) == RowText(PlaceholderRow(b)) + RowsText([]);
      assert ScriptLines(b, entries, showPercent) == "";
    } else {
      ScriptLinesAreRows(b, entries, showPercent);
    }
  }

  /** Each table written from the layout is the script's text for that section. */
  lemma SectionText(b: Bucket, entries: seq<Entry>, showPercent: real -> string)
    ensures TableText(BucketTable(b, entries, showPercent)) == ScriptSection(b, entries, showPercent)
  {
    TableTextSplit(b, entries, showPercent);
    OpeningText(b);
    RowsOfSection(b, entries, showPercent);
    ConcatAssoc(ScriptHeader(b), ScriptLines(b, entries, showPercent), if |entries| == 0 then ScriptPlaceholder(b) else "");
  }

  /** The three tables of the layout written one after another, with rules between. */
  lemma TablesOfLayout(buckets: Buckets, showPercent: real -> string)
    ensures TablesText(Layout(buckets, showPercent))
            == TableText(BucketTable(CurrentlyReading, buckets.currentlyReading, showPercent)) + Separator
               + (TableText(BucketTable(FutureReads, buckets.futureReads, showPercent)) + Separator
                  + TableText(BucketTable(AlreadyRead, buckets.alreadyRead, showPercent)))
  {
    var tables := Layout(buckets, showPercent);
    assert tables[0] == BucketTable(CurrentlyReading, buckets.currentlyReading, showPercent);
    assert tables[1] == BucketTable(FutureReads, buckets.futureReads, showPercent);
    assert tables[2] == BucketTable(AlreadyRead, buckets.alreadyRead, showPercent);
    var rest := tables[1..];
    assert rest[1..] == [tables[2]];
    assert TablesText(rest) == TableText(tables[1]) + Separator + TableText(tables[2]);
  }

  /** Regroups the page's concatenation around the horizontal rules. */
  lemma Glue(f: string, s0: string, s1: string, s2: string)
    ensures f + "\n" + s0 + "\n---\n\n" + s1 + "\n---\n\n" + s2 == f + "\n" + (s0 + Separator + (s1 + Separator + s2))
  {
  }
}
