/**
 * The application sheet: a worksheet whose cells are written through one
 * guarded writer (nothing for a missing value, `<digits>年` shortened to the
 * digits, a write into a merged area sent to the area's top-left cell), and
 * the writer that fills the sheet from a school's entries.
 */
module Sheet {
  import opened Wrappers
  import opened Decimal
  import opened Entries
  import opened Layout
  import opened Advisors
  import Settings

  /** A value a cell can hold. */
  datatype CellValue = Text(s: string) | Number(n: int) | Flag(b: bool)

  /** A cell position, row and column counted from 1. */
  datatype Cell = Cell(row: int, col: int)

  /** A merged area of the template: the rectangle from (minRow, minCol) to (maxRow, maxCol). */
  datatype Range = Range(minRow: int, minCol: int, maxRow: int, maxCol: int)

  predicate Contains(r: Range, c: Cell)
  {
    r.minRow <= c.row <= r.maxRow && r.minCol <= c.col <= r.maxCol
  }

  /** The cell of a merged area that holds its value. */
  function Anchor(r: Range): Cell
  {
    Cell(r.minRow, r.minCol)
  }

  /** The largest row and column a worksheet has; a position outside is refused. */
  const MaxRow: int := 1048576
  const MaxCol: int := 16384

  predicate ValidCell(c: Cell)
  {
    1 <= c.row <= MaxRow && 1 <= c.col <= MaxCol
  }

  /** A cell that lies inside a merged area without being its top-left cell; it cannot hold a value. */
  predicate IsMergedCell(merged: seq<Range>, c: Cell)
  {
    exists k :: 0 <= k < |merged| && Contains(merged[k], c) && c != Anchor(merged[k])
  }

  /** The index of the first merged area that contains `c`. */
  function FirstContaining(merged: seq<Range>, c: Cell): (k: Option<nat>)
    ensures k.Some? ==> k.value < |merged| && Contains(merged[k.value], c)
    ensures k.Some? ==> forall j :: 0 <= j < k.value ==> !Contains(merged[j], c)
    ensures k.None? <==> forall j :: 0 <= j < |merged| ==> !Contains(merged[j], c)
  {
    if merged == [] then None
    else if Contains(merged[0], c) then Some(0)
    else match FirstContaining(merged[1..], c)
      case None => None
      case Some(j) => Some(j + 1)
  }

  /**
   * Where a write to `c` lands: a cell inside a merged area is sent to the
   * top-left cell of the first area containing it; when that cell cannot
   * hold a value either, the write fails and lands nowhere.
   */
  function Target(merged: seq<Range>, c: Cell): Option<Cell>
  {
    if !IsMergedCell(merged, c) then Some(c)
    else match FirstContaining(merged, c)
      case None => None
      case Some(k) => if IsMergedCell(merged, Anchor(merged[k])) then None else Some(Anchor(merged[k]))
  }

  /** A text made of digits followed by `年` is written as the digits alone; any other value as it is. */
  function Normalize(v: CellValue): CellValue
  {
    match v
    case Text(s) =>
      if |s| > 0 && s[|s| - 1] == '年' && IsDigitString(s[..|s| - 1]) then Text(s[..|s| - 1]) else v
    case _ => v
  }

  /** What `Normalize` removes: the shape `<digits>年`. */
  predicate YearShaped(v: CellValue)
  {
    v.Text? && |v.s| > 0 && v.s[|v.s| - 1] == '年' && IsDigitString(v.s[..|v.s| - 1])
  }

  /**
   * `<digits>年` loses exactly its `年`; every other value is kept; the
   * result never has that shape, so normalising twice is normalising once.
   */
  lemma NormalizeSpec(v: CellValue)
    ensures YearShaped(v) ==> Normalize(v) == Text(v.s[..|v.s| - 1])
    ensures !YearShaped(v) ==> Normalize(v) == v
    ensures !YearShaped(Normalize(v))
    ensures Normalize(Normalize(v)) == Normalize(v)
  {
    if YearShaped(v) {
      var d := v.s[..|v.s| - 1];
      assert IsDigitString(d);
      assert d[|d| - 1] != '年';
    }
  }

  /** The longest text a cell keeps; a longer one is cut to this length. */
  const MaxText: int := 32767

  /** The control characters a cell refuses: U+0000..U+0008, U+000B, U+000C and U+000E..U+001F. */
  predicate IllegalChar(ch: char)
  {
    var n := ch as int;
    n <= 8 || n == 11 || n == 12 || 14 <= n <= 31
  }

  /**
   * What a cell stores when it is assigned `v`: a text is cut to `MaxText`
   * characters and refused (the assignment fails) when what is left holds
   * an illegal control character; other values are stored as they are.
   */
  /** A text cut to at most `MaxText` characters. */
  function Cut(s: string): (t: string)
    ensures |t| <= MaxText && t <= s
    ensures |s| <= MaxText ==> t == s
  {
    if |s| > MaxText then s[..MaxText] else s
  }

  /** Whether a text holds an illegal control character. */
  predicate HasIllegal(t: string)
  {
    exists i :: 0 <= i < |t| && IllegalChar(t[i])
  }

  function Stored(v: CellValue): (r: Option<CellValue>)
    ensures !v.Text? ==> r == Some(v)
    ensures v.Text? && r.Some? ==> r.value.Text? && r.value.s <= v.s
  {
    match v
    case Text(s) =>
      if HasIllegal(Cut(s)) then None else Some(Text(Cut(s)))
    case _ => Some(v)
  }

  /**
   * A text is refused exactly when an illegal character sits among its
   * first `MaxText` characters; otherwise it is kept whole when short
   * enough and cut to its first `MaxText` characters when not.
   */
  lemma StoredSpec(s: string)
    ensures Stored(Text(s)).None? <==> exists i :: 0 <= i < |s| && i < MaxText && IllegalChar(s[i])
    ensures Stored(Text(s)).Some? && |s| <= MaxText ==> Stored(Text(s)) == Some(Text(s))
    ensures Stored(Text(s)).Some? && |s| > MaxText ==> Stored(Text(s)) == Some(Text(s[..MaxText]))
  {
    var t := Cut(s);
    if HasIllegal(t) {
      var i :| 0 <= i < |t| && IllegalChar(t[i]);
      assert t[i] == s[i];
    } else {
      forall i | 0 <= i < |s| && i < MaxText
        ensures !IllegalChar(s[i])
      {
        assert i < |t| && t[i] == s[i];
      }
    }
  }

  /** What a cell ends with when `v` is written through the guarded writer, if anything. */
  function Written(v: CellValue): Option<CellValue>
  {
    Stored(Normalize(v))
  }

  /**
   * The cells after one guarded write of `v` to `c`: nothing changes for a
   * missing value, an invalid position, a write that lands nowhere or a
   * value the cell refuses.
   */
  function WriteCell(cells: map<Cell, CellValue>, merged: seq<Range>, c: Cell, v: Option<CellValue>): map<Cell, CellValue>
  {
    if v.None? || !ValidCell(c) then cells
    else match Target(merged, c)
      case None => cells
      case Some(t) =>
        match Written(v.value)
        case None => cells
        case Some(w) => cells[t := w]
  }

  /**
   * A missing value changes nothing; a valid cell outside every merged area
   * takes the normalised value as the cell stores it and no other cell
   * changes; a value the cell refuses changes nothing.
   */
  lemma WriteCellPlain(cells: map<Cell, CellValue>, merged: seq<Range>, c: Cell, v: Option<CellValue>)
    ensures v.None? ==> WriteCell(cells, merged, c, v) == cells
    ensures v.Some? && Written(v.value).Some? && ValidCell(c) && (forall k :: 0 <= k < |merged| ==> !Contains(merged[k], c)) ==>
      WriteCell(cells, merged, c, v) == cells[c := Written(v.value).value]
    ensures v.Some? && Written(v.value).None? ==> WriteCell(cells, merged, c, v) == cells
  {
  }

  /** No cell lies in two areas: the areas are apart in rows or in columns. */
  predicate Apart(a: Range, b: Range)
  {
    a.maxRow < b.minRow || b.maxRow < a.minRow || a.maxCol < b.minCol || b.maxCol < a.minCol
  }

  predicate Disjoint(merged: seq<Range>)
  {
    forall i, j :: 0 <= i < j < |merged| ==> Apart(merged[i], merged[j])
  }

  /**
   * With areas that do not overlap, a write anywhere inside area `k` lands
   * on its top-left cell.
   */
  lemma WriteCellMerged(cells: map<Cell, CellValue>, merged: seq<Range>, k: nat, c: Cell, v: CellValue)
    requires Disjoint(merged)
    requires k < |merged| && Contains(merged[k], c) && ValidCell(c) && Written(v).Some?
    ensures WriteCell(cells, merged, c, Some(v)) == cells[Anchor(merged[k]) := Written(v).value]
  {
    var a := Anchor(merged[k]);
    assert FirstContaining(merged, c) == Some(k);
    assert !IsMergedCell(merged, a);
  }

  /** One call of the guarded writer: the cell and the value, if any. */
  datatype Write = Write(cell: Cell, value: Option<CellValue>)

  /** The cells after a sequence of writes, in order. */
  function ApplyWrites(cells: map<Cell, CellValue>, merged: seq<Range>, ws: seq<Write>): map<Cell, CellValue>
  {
    if ws == [] then cells
    else
      var w := ws[|ws| - 1];
      WriteCell(ApplyWrites(cells, merged, ws[..|ws| - 1]), merged, w.cell, w.value)
  }

  /** Write `w` changes cell `c`: it has a value the cell takes, a valid position, and lands on `c`. */
  predicate Lands(merged: seq<Range>, w: Write, c: Cell)
  {
    w.value.Some? && Written(w.value.value).Some? && ValidCell(w.cell) && Target(merged, w.cell) == Some(c)
  }

  /** A cell no write lands on keeps what it held. */
  lemma {:induction false} ApplyWritesUntouched(cells: map<Cell, CellValue>, merged: seq<Range>, ws: seq<Write>, c: Cell)
    requires forall j :: 0 <= j < |ws| ==> !Lands(merged, ws[j], c)
    ensures c in ApplyWrites(cells, merged, ws) <==> c in cells
    ensures c in cells ==> ApplyWrites(cells, merged, ws)[c] == cells[c]
  {
    if ws != [] {
      ApplyWritesUntouched(cells, merged, ws[..|ws| - 1], c);
    }
  }

  /**
   * The value of the last write that lands on a cell outside every merged
   * area is what the cell holds at the end.
   */
  lemma LastWriteWins(cells: map<Cell, CellValue>, merged: seq<Range>, ws: seq<Write>, k: nat)
    requires k < |ws| && ws[k].value.Some? && Written(ws[k].value.value).Some? && ValidCell(ws[k].cell)
    requires forall r :: 0 <= r < |merged| ==> !Contains(merged[r], ws[k].cell)
    requires forall j :: k < j < |ws| ==> !Lands(merged, ws[j], ws[k].cell)
    ensures ws[k].cell in ApplyWrites(cells, merged, ws)
    ensures ApplyWrites(cells, merged, ws)[ws[k].cell] == Written(ws[k].value.value).value
  {
    var c := ws[k].cell;
    var before := ApplyWrites(cells, merged, ws[..k + 1]);
    assert ws[..k + 1][..k] == ws[..k];
    assert before == ApplyWrites(cells, merged, ws[..k])[c := Written(ws[k].value.value).value];
    ApplyWritesSplit(cells, merged, ws[..k + 1], ws[k + 1..]);
    assert ws[..k + 1] + ws[k + 1..] == ws;
    ApplyWritesUntouched(before, merged, ws[k + 1..], c);
  }

  /** Writing `a` then `b` is writing `a + b`. */
  lemma {:induction false} ApplyWritesSplit(cells: map<Cell, CellValue>, merged: seq<Range>, a: seq<Write>, b: seq<Write>)
    ensures ApplyWrites(cells, merged, a + b) == ApplyWrites(ApplyWrites(cells, merged, a), merged, b)
  {
    if b == [] {
      assert a + b == a;
    } else {
      assert (a + b)[..|a + b| - 1] == a + b[..|b| - 1];
      ApplyWritesSplit(cells, merged, a, b[..|b| - 1]);
    }
  }

  /** The header cells: E3, I3, M7, C8, C9 and O9. */
  const YearCell: Cell := Cell(3, 5)
  const TournamentCell: Cell := Cell(3, 9)
  const DateCell: Cell := Cell(7, 13)
  const SchoolCell: Cell := Cell(8, 3)
  const PrincipalCell: Cell := Cell(9, 3)
  const HeadAdvisorCell: Cell := Cell(9, 15)

  /** The name, day-1 and day-2 cells of the first four advisors: B/C/F 42, B/C/F 43, K/Q/U 42, K/Q/U 43. */
  function AdvisorCells(i: nat): (Cell, Cell, Cell)
    requires i < 4
  {
    var row := if i % 2 == 0 then 42 else 43;
    if i < 2 then (Cell(row, 2), Cell(row, 3), Cell(row, 6))
    else (Cell(row, 11), Cell(row, 17), Cell(row, 21))
  }

  /** A setting as a cell value: null writes nothing, and a list or an object cannot go into a cell. */
  function JsonCell(j: Settings.Json): Option<CellValue>
  {
    match j
    case JNull => None
    case JBool(b) => Some(Flag(b))
    case JNum(n) => Some(Number(n))
    case JStr(s) => Some(Text(s))
    case _ => None
  }

  function Setting(settings: map<string, Settings.Json>, key: string): Settings.Json
  {
    if key in settings then settings[key] else Settings.JStr("")
  }

  function DayMark(attends: bool): Option<CellValue>
  {
    Some(Text(if attends then "○" else "×"))
  }

  function Mark(s: Option<string>): Option<CellValue>
  {
    match s
    case None => None
    case Some(t) => Some(Text(t))
  }

  /** The writes of the header: tournament year and name, date, school, principal and head advisor. */
  function HeaderWrites(settings: map<string, Settings.Json>, year: int, month: int, day: int,
                        school: string, principal: string, advisors: seq<Advisor>): seq<Write>
  {
    [Write(YearCell, JsonCell(Setting(settings, "year"))),
     Write(TournamentCell, JsonCell(Setting(settings, "name"))),
     Write(DateCell, Some(Text(EraDate(year, month, day)))),
     Write(SchoolCell, Some(Text(school))),
     Write(PrincipalCell, Some(Text(principal))),
     Write(HeadAdvisorCell, Some(Text(HeadName(advisors))))]
  }

  /** The three writes of the i-th listed advisor. */
  function AdvisorWrites(a: Advisor, i: nat): seq<Write>
    requires i < 4
  {
    var (nameCell, day1Cell, day2Cell) := AdvisorCells(i);
    [Write(nameCell, Some(Text(a.name))), Write(day1Cell, DayMark(a.day1)), Write(day2Cell, DayMark(a.day2))]
  }

  /** The writes of the first `n` listed advisors. */
  function AdvisorsWrites(advisors: seq<Advisor>, n: nat): seq<Write>
    requires n <= |advisors| && n <= 4
  {
    if n == 0 then [] else AdvisorsWrites(advisors, n - 1) + AdvisorWrites(advisors[n - 1], n - 1)
  }

  /**
   * The eight writes of the i-th athlete, all on the athlete's row: name,
   * grade, date of birth, JKF number, then the team marks (only for a
   * checked team category) and the individual marks in the sex's columns.
   */
  function EntryWrites(e: Entry, i: nat): seq<Write>
  {
    var r := RowOf(i);
    [Write(Cell(r, NameCol), Some(Text(e.name))),
     Write(Cell(r, GradeCol), Some(Text(e.grade))),
     Write(Cell(r, DobCol), Some(Text(e.dob))),
     Write(Cell(r, JkfCol), Some(Text(e.jkfNo))),
     Write(Cell(r, EntryCol(e.sex, TeamKata)), Mark(TeamMark(e.teamKataChk, e.teamKataRole))),
     Write(Cell(r, EntryCol(e.sex, TeamKumite)), Mark(TeamMark(e.teamKumiChk, e.teamKumiRole))),
     Write(Cell(r, EntryCol(e.sex, IndKata)), Mark(FormatRank(TypeLabel(e.kataType), e.kataRank))),
     Write(Cell(r, EntryCol(e.sex, IndKumite)), Mark(FormatRank(TypeLabel(e.kumiteType), e.kumiteRank)))]
  }

  /** Groups of writes, one after the other. */
  function Flatten(chunks: seq<seq<Write>>): seq<Write>
  {
    if chunks == [] then [] else Flatten(chunks[..|chunks| - 1]) + chunks[|chunks| - 1]
  }

  lemma {:induction false} FlattenConcat(a: seq<seq<Write>>, b: seq<seq<Write>>)
    ensures Flatten(a + b) == Flatten(a) + Flatten(b)
  {
    if b == [] {
      assert a + b == a;
    } else {
      FlattenConcat(a, b[..|b| - 1]);
      assert (a + b)[..|a + b| - 1] == a + b[..|b| - 1];
    }
  }

  /** Every write of a flattened list comes from one of its groups: write j is write m of group k. */
  lemma {:induction false} FlattenMember(chunks: seq<seq<Write>>, j: nat) returns (k: nat, m: nat)
    requires j < |Flatten(chunks)|
    ensures k < |chunks| && m < |chunks[k]| && Flatten(chunks)[j] == chunks[k][m]
  {
    var pre := chunks[..|chunks| - 1];
    var last := chunks[|chunks| - 1];
    if j < |Flatten(pre)| {
      k, m := FlattenMember(pre, j);
      assert chunks[k] == pre[k];
    } else {
      k, m := |chunks| - 1, j - |Flatten(pre)|;
    }
  }

  /** The writes of each athlete, athlete k's on row `RowOf(k)`. */
  function EntryChunks(el: seq<Entry>): (r: seq<seq<Write>>)
    ensures |r| == |el|
  {
    seq(|el|, k requires 0 <= k < |el| => EntryWrites(el[k], k))
  }

  /** The writes of athletes `lo` up to (not including) `n`. */
  function EntriesWrites(el: seq<Entry>, lo: nat, n: nat): seq<Write>
    requires lo <= n <= |el|
  {
    Flatten(EntryChunks(el)[lo..n])
  }

  /** All writes that fill the sheet, in the order they are made. */
  function SheetWrites(el: seq<Entry>, settings: map<string, Settings.Json>, year: int, month: int, day: int,
                       school: string, principal: string, advisors: seq<Advisor>): seq<Write>
  {
    var shown := if |advisors| < 4 then |advisors| else 4;
    HeaderWrites(settings, year, month, day, school, principal, advisors)
      + AdvisorsWrites(advisors, shown) + EntriesWrites(el, 0, |el|)
  }

  lemma EntriesWritesStep(done: seq<Write>, el: seq<Entry>, n: nat)
    requires n < |el|
    ensures EntriesWrites(el, 0, n + 1) == EntriesWrites(el, 0, n) + EntryWrites(el[n], n)
    ensures done + EntriesWrites(el, 0, n + 1) == done + EntriesWrites(el, 0, n) + EntryWrites(el[n], n)
  {
    var ch := EntryChunks(el);
    assert ch[0..n + 1] == ch[0..n] + [ch[n]];
    FlattenConcat(ch[0..n], [ch[n]]);
    assert Flatten([ch[n]]) == Flatten([]) + ch[n];
  }

  lemma AdvisorsWritesStep(done: seq<Write>, advisors: seq<Advisor>, i: nat)
    requires i < |advisors| && i < 4
    ensures done + AdvisorsWrites(advisors, i + 1) == done + AdvisorsWrites(advisors, i) + AdvisorWrites(advisors[i], i)
  {
  }

  lemma SheetWritesParts(el: seq<Entry>, settings: map<string, Settings.Json>, year: int, month: int, day: int,
                         school: string, principal: string, advisors: seq<Advisor>, header: seq<Write>, shown: nat)
    requires header == HeaderWrites(settings, year, month, day, school, principal, advisors)
    requires shown == if |advisors| < 4 then |advisors| else 4
    ensures [] + header + AdvisorsWrites(advisors, shown) + EntriesWrites(el, 0, |el|)
      == SheetWrites(el, settings, year, month, day, school, principal, advisors)
  {
    assert [] + header == header;
  }

  /** The file the filled sheet is saved as. */
  function FileName(school: string): string
  {
    "申込書_" + school + ".xlsx"
  }

  /** The template opened for writing: its cells and its merged areas. */
  class Worksheet {
    var cells: map<Cell, CellValue>
    const merged: seq<Range>

    constructor(cells: map<Cell, CellValue>, merged: seq<Range>)
      ensures this.cells == cells && this.merged == merged
    {
      this.cells := cells;
      this.merged := merged;
    }

    /** Writes `value` to (row, col) through the guards of `WriteCell`. */
    method SafeWrite(row: int, col: int, value: Option<CellValue>)
      modifies this
      ensures cells == WriteCell(old(cells), merged, Cell(row, col), value)
    {
      if value.None? {
        return;
      }
      var c := Cell(row, col);
      if !ValidCell(c) {
        return;
      }
      var t := Target(merged, c);
      if t.None? {
        return;
      }
      var w := Stored(Normalize(value.value));
      if w.Some? {
        cells := cells[t.value := w.value];
      }
    }

    /** Applies one write and records it. */
    method Apply(w: Write, ghost done: seq<Write>, ghost start: map<Cell, CellValue>) returns (ghost done': seq<Write>)
      requires cells == ApplyWrites(start, merged, done)
      modifies this
      ensures done' == done + [w]
      ensures cells == ApplyWrites(start, merged, done')
    {
      SafeWrite(w.cell.row, w.cell.col, w.value);
      done' := done + [w];
      assert done'[..|done'| - 1] == done;
    }

    /** Makes the writes `ws` one after the other. */
    method ApplyAll(ws: seq<Write>, ghost done: seq<Write>, ghost start: map<Cell, CellValue>) returns (ghost done': seq<Write>)
      requires cells == ApplyWrites(start, merged, done)
      modifies this
      ensures done' == done + ws
      ensures cells == ApplyWrites(start, merged, done')
    {
      done' := done;
      var k := 0;
      while k < |ws|
        invariant 0 <= k <= |ws|
        invariant done' == done + ws[..k]
        invariant cells == ApplyWrites(start, merged, done')
      {
        done' := Apply(ws[k], done', start);
        assert ws[..k + 1] == ws[..k] + [ws[k]];
        k := k + 1;
      }
      assert ws[..k] == ws;
    }

    /** Writes the name and attendance of each of the first `shown` advisors. */
    method WriteAdvisors(advisors: seq<Advisor>, shown: nat, ghost done: seq<Write>, ghost start: map<Cell, CellValue>)
      returns (ghost done': seq<Write>)
      requires shown <= |advisors| && shown <= 4
      requires cells == ApplyWrites(start, merged, done)
      modifies this
      ensures done' == done + AdvisorsWrites(advisors, shown)
      ensures cells == ApplyWrites(start, merged, done')
    {
      done' := done;
      var i := 0;
      while i < shown
        invariant 0 <= i <= shown
        invariant done' == done + AdvisorsWrites(advisors, i)
        invariant cells == ApplyWrites(start, merged, done')
      {
        var ws := AdvisorWrites(advisors[i], i);
        done' := ApplyAll(ws, done', start);
        AdvisorsWritesStep(done, advisors, i);
        i := i + 1;
      }
    }

    /** Writes the athletes, the i-th on row `RowOf(i)`. */
    method WriteEntries(el: seq<Entry>, ghost done: seq<Write>, ghost start: map<Cell, CellValue>)
      returns (ghost done': seq<Write>)
      requires cells == ApplyWrites(start, merged, done)
      modifies this
      ensures done' == done + EntriesWrites(el, 0, |el|)
      ensures cells == ApplyWrites(start, merged, done')
    {
      done' := done;
      var n := 0;
      while n < |el|
        invariant 0 <= n <= |el|
        invariant done' == done + EntriesWrites(el, 0, n)
        invariant cells == ApplyWrites(start, merged, done')
      {
        var ws := EntryWrites(el[n], n);
        done' := ApplyAll(ws, done', start);
        EntriesWritesStep(done, el, n);
        n := n + 1;
      }
    }

    /**
     * Fills the sheet for a school: the header, the first four advisors and
     * one row per athlete; returns the file name the sheet is saved as.
     */
    method GenerateExcel(el: seq<Entry>, school: string, principal: string, advisors: seq<Advisor>,
                         settings: map<string, Settings.Json>, year: int, month: int, day: int)
      returns (fname: string)
      modifies this
      ensures cells == ApplyWrites(old(cells), merged, SheetWrites(el, settings, year, month, day, school, principal, advisors))
      ensures fname == FileName(school)
    {
      ghost var start := cells;
      var header := HeaderWrites(settings, year, month, day, school, principal, advisors);
      ghost var done := ApplyAll(header, [], start);
      var shown := if |advisors| < 4 then |advisors| else 4;
      done := WriteAdvisors(advisors, shown, done, start);
      done := WriteEntries(el, done, start);
      SheetWritesParts(el, settings, year, month, day, school, principal, advisors, header, shown);
      fname := FileName(school);
    }
  }

  /** Row `row` holds one of the first `n` athletes. */
  ghost predicate AthleteRow(row: int, n: nat)
  {
    exists i :: 0 <= i < n && row == RowOf(i)
  }

  /** No merged area reaches into the row of any of the first `n` athletes. */
  predicate RowsClear(merged: seq<Range>, n: nat)
  {
    forall k, i :: 0 <= k < |merged| && 0 <= i < n ==> RowOf(i) < merged[k].minRow || merged[k].maxRow < RowOf(i)
  }

  /** On an athlete row a write lands where it is aimed. */
  lemma TargetOnRow(merged: seq<Range>, n: nat, c: Cell)
    requires RowsClear(merged, n) && AthleteRow(c.row, n)
    ensures forall k :: 0 <= k < |merged| ==> !Contains(merged[k], c)
    ensures Target(merged, c) == Some(c)
  {
  }

  /** A write aimed off the athlete rows does not land on one. */
  lemma TargetOffRow(merged: seq<Range>, n: nat, c: Cell)
    requires RowsClear(merged, n) && !AthleteRow(c.row, n)
    ensures Target(merged, c).Some? ==> !AthleteRow(Target(merged, c).value.row, n)
  {
    if IsMergedCell(merged, c) {
      var f := FirstContaining(merged, c);
      if f.Some? {
        var r := merged[f.value];
        assert r.minRow <= c.row <= r.maxRow;
      }
    }
  }

  /** The writes of athlete i are all on row `RowOf(i)`, in eight different columns. */
  lemma EntryWritesCells(e: Entry, i: nat)
    ensures |EntryWrites(e, i)| == 8
    ensures forall m :: 0 <= m < 8 ==> EntryWrites(e, i)[m].cell.row == RowOf(i)
    ensures forall m, m' :: 0 <= m < m' < 8 ==> EntryWrites(e, i)[m].cell.col != EntryWrites(e, i)[m'].cell.col
    ensures forall m :: 0 <= m < 8 ==> 2 <= EntryWrites(e, i)[m].cell.col <= 19
  {
    forall c: Category, c': Category {
      EntryColInjective(e.sex, c, e.sex, c');
    }
  }

  /** The writes of athletes `lo` up to `n` are the writes up to `mid` followed by the rest. */
  lemma EntriesWritesSplit(el: seq<Entry>, lo: nat, mid: nat, n: nat)
    requires lo <= mid <= n <= |el|
    ensures EntriesWrites(el, lo, n) == EntriesWrites(el, lo, mid) + EntriesWrites(el, mid, n)
  {
    var ch := EntryChunks(el);
    assert ch[lo..n] == ch[lo..mid] + ch[mid..n];
    FlattenConcat(ch[lo..mid], ch[mid..n]);
  }

  /** The writes in athlete k's group are all on athlete k's row. */
  lemma ChunkRows(el: seq<Entry>, k: nat)
    requires k < |el|
    ensures forall m :: 0 <= m < |EntryChunks(el)[k]| ==> EntryChunks(el)[k][m].cell.row == RowOf(k)
  {
    EntryWritesCells(el[k], k);
  }

  /** Every write of athletes `lo` up to `n` is on the row of one of them. */
  lemma EntriesWritesRows(el: seq<Entry>, lo: nat, n: nat)
    requires lo <= n <= |el|
    ensures forall j :: 0 <= j < |EntriesWrites(el, lo, n)| ==>
      exists k :: lo <= k < n && EntriesWrites(el, lo, n)[j].cell.row == RowOf(k)
  {
    var ch := EntryChunks(el)[lo..n];
    var ws := EntriesWrites(el, lo, n);
    assert ws == Flatten(ch);
    forall j | 0 <= j < |ws|
      ensures exists k :: lo <= k < n && ws[j].cell.row == RowOf(k)
    {
      var k, m := FlattenMember(ch, j);
      ChunkRows(el, lo + k);
      assert ch[k] == EntryChunks(el)[lo + k];
      assert ws[j].cell.row == RowOf(lo + k);
    }
  }

  /** The header and advisor writes are aimed at rows 3, 7, 8, 9, 42 and 43. */
  lemma HeadWritesRows(settings: map<string, Settings.Json>, year: int, month: int, day: int,
                       school: string, principal: string, advisors: seq<Advisor>, shown: nat, hs: seq<Write>)
    requires shown <= |advisors| && shown <= 4
    requires hs == HeaderWrites(settings, year, month, day, school, principal, advisors) + AdvisorsWrites(advisors, shown)
    ensures forall j :: 0 <= j < |hs| ==> hs[j].cell.row in {3, 7, 8, 9, 42, 43}
  {
    AdvisorsWritesRows(advisors, shown);
    var h := HeaderWrites(settings, year, month, day, school, principal, advisors);
    forall j | 0 <= j < |hs|
      ensures hs[j].cell.row in {3, 7, 8, 9, 42, 43}
    {
      if j >= |h| {
        assert hs[j] == AdvisorsWrites(advisors, shown)[j - |h|];
      }
    }
  }

  lemma {:induction false} AdvisorsWritesRows(advisors: seq<Advisor>, n: nat)
    requires n <= |advisors| && n <= 4
    ensures forall j :: 0 <= j < |AdvisorsWrites(advisors, n)| ==> AdvisorsWrites(advisors, n)[j].cell.row in {42, 43}
  {
    if n > 0 {
      AdvisorsWritesRows(advisors, n - 1);
    }
  }

  /** A row that is one of 3, 7, 8, 9, 42, 43 holds no athlete. */
  lemma HeaderRowNotAthlete(row: int, n: nat)
    requires row in {3, 7, 8, 9, 42, 43}
    ensures !AthleteRow(row, n)
  {
    if AthleteRow(row, n) {
      var i :| 0 <= i < n && row == RowOf(i);
      RowOfAvoidsHeader(i);
    }
  }

  /** Two sheets agree at cell `c`. */
  predicate SameAt(a: map<Cell, CellValue>, b: map<Cell, CellValue>, c: Cell)
  {
    (c in a <==> c in b) && (c in b ==> a[c] == b[c])
  }

  /** The header and the advisor list leave the athlete rows as they were. */
  lemma HeadKeepsRows(cells: map<Cell, CellValue>, merged: seq<Range>, n: nat, head: seq<Write>, c: Cell)
    requires RowsClear(merged, n) && AthleteRow(c.row, n)
    requires forall j :: 0 <= j < |head| ==> head[j].cell.row in {3, 7, 8, 9, 42, 43}
    ensures SameAt(ApplyWrites(cells, merged, head), cells, c)
  {
    forall j | 0 <= j < |head|
      ensures !Lands(merged, head[j], c)
    {
      HeaderRowNotAthlete(head[j].cell.row, n);
      TargetOffRow(merged, n, head[j].cell);
    }
    ApplyWritesUntouched(cells, merged, head, c);
  }

  /** The other athletes, from `lo` up to `n`, leave the cells of athlete i's row as they were. */
  lemma OthersKeepRow(cells: map<Cell, CellValue>, merged: seq<Range>, el: seq<Entry>, lo: nat, n: nat, i: nat, c: Cell)
    requires lo <= n <= |el| && i < |el| && (i < lo || n <= i)
    requires RowsClear(merged, |el|) && c.row == RowOf(i)
    ensures SameAt(ApplyWrites(cells, merged, EntriesWrites(el, lo, n)), cells, c)
  {
    var ws := EntriesWrites(el, lo, n);
    EntriesWritesRows(el, lo, n);
    forall j | 0 <= j < |ws|
      ensures !Lands(merged, ws[j], c)
    {
      var k :| lo <= k < n && ws[j].cell.row == RowOf(k);
      if k < i {
        RowOfStrictlyIncreasing(k, i);
      } else {
        RowOfStrictlyIncreasing(i, k);
      }
      assert AthleteRow(ws[j].cell.row, |el|);
      TargetOnRow(merged, |el|, ws[j].cell);
    }
    ApplyWritesUntouched(cells, merged, ws, c);
  }

  /** Athlete i's own writes: each of its cells ends with its own value, or keeps the old one when there is none. */
  lemma OwnWrites(cells: map<Cell, CellValue>, merged: seq<Range>, el: seq<Entry>, i: nat, m: nat)
    requires i < |el| && RowsClear(merged, |el|) && RowOf(i) <= MaxRow && m < 8
    ensures var ws := EntryWrites(el[i], i);
      var after := ApplyWrites(cells, merged, ws);
      && (ws[m].value.Some? && Written(ws[m].value.value).Some? ==>
            ws[m].cell in after && after[ws[m].cell] == Written(ws[m].value.value).value)
      && (ws[m].value.None? || Written(ws[m].value.value).None? ==> SameAt(after, cells, ws[m].cell))
  {
    var ws := EntryWrites(el[i], i);
    EntryWritesCells(el[i], i);
    var c := ws[m].cell;
    assert AthleteRow(c.row, |el|);
    TargetOnRow(merged, |el|, c);
    forall j | 0 <= j < |ws| && j != m
      ensures !Lands(merged, ws[j], c)
    {
      assert AthleteRow(ws[j].cell.row, |el|);
      TargetOnRow(merged, |el|, ws[j].cell);
    }
    if ws[m].value.Some? && Written(ws[m].value.value).Some? {
      LastWriteWins(cells, merged, ws, m);
    } else {
      ApplyWritesUntouched(cells, merged, ws, c);
    }
  }

  /** The full write list, cut around athlete i. */
  lemma SheetWritesAround(el: seq<Entry>, head: seq<Write>, i: nat)
    requires i < |el|
    ensures head + EntriesWrites(el, 0, |el|)
      == (((head + EntriesWrites(el, 0, i)) + EntryWrites(el[i], i)) + EntriesWrites(el, i + 1, |el|))
  {
    EntriesWritesSplit(el, 0, i + 1, |el|);
    EntriesWritesStep([], el, i);
  }

  /**
   * What the filled sheet shows for athlete i, when no merged area reaches
   * into an athlete row and the row exists: each of the athlete's eight
   * cells holds the (normalised) value written for the athlete, and a cell
   * the athlete leaves empty (an unchecked team category, an individual
   * category without a type) keeps what the template had there.
   */
  lemma SheetShowsEntry(cells: map<Cell, CellValue>, merged: seq<Range>, el: seq<Entry>,
                        settings: map<string, Settings.Json>, year: int, month: int, day: int,
                        school: string, principal: string, advisors: seq<Advisor>, i: nat, m: nat)
    requires RowsClear(merged, |el|)
    requires i < |el| && RowOf(i) <= MaxRow && m < 8
    ensures var final := ApplyWrites(cells, merged, SheetWrites(el, settings, year, month, day, school, principal, advisors));
      var w := EntryWrites(el[i], i)[m];
      && (w.value.Some? && Written(w.value.value).Some? ==> w.cell in final && final[w.cell] == Written(w.value.value).value)
      && (w.value.None? || Written(w.value.value).None? ==> SameAt(final, cells, w.cell))
  {
    var shown := if |advisors| < 4 then |advisors| else 4;
    var head := HeaderWrites(settings, year, month, day, school, principal, advisors) + AdvisorsWrites(advisors, shown);
    var ws := EntryWrites(el[i], i);
    EntryWritesCells(el[i], i);
    var c := ws[m].cell;
    assert AthleteRow(c.row, |el|);
    // the header and the advisor list do not reach the athlete rows
    HeadWritesRows(settings, year, month, day, school, principal, advisors, shown, head);
    HeadKeepsRows(cells, merged, |el|, head, c);
    var s1 := ApplyWrites(cells, merged, head);
    // neither do the athletes before athlete i
    ApplyWritesSplit(cells, merged, head, EntriesWrites(el, 0, i));
    OthersKeepRow(s1, merged, el, 0, i, i, c);
    var s2 := ApplyWrites(cells, merged, head + EntriesWrites(el, 0, i));
    // athlete i's own writes
    ApplyWritesSplit(cells, merged, head + EntriesWrites(el, 0, i), ws);
    OwnWrites(s2, merged, el, i, m);
    var s3 := ApplyWrites(cells, merged, (head + EntriesWrites(el, 0, i)) + ws);
    // and the athletes after athlete i leave the row alone
    ApplyWritesSplit(cells, merged, (head + EntriesWrites(el, 0, i)) + ws, EntriesWrites(el, i + 1, |el|));
    OthersKeepRow(s3, merged, el, i + 1, |el|, i, c);
    SheetWritesAround(el, head, i);
    assert SheetWrites(el, settings, year, month, day, school, principal, advisors) == head + EntriesWrites(el, 0, |el|);
  }
}
