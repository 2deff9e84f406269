/**
 * Where and how the application sheet shows an athlete: the row of the
 * i-th athlete, the columns of each sex, the team marks, the individual
 * rank marks and the era date in the header.
 */
module Layout {
  import opened Wrappers
  import opened Decimal
  import opened Entries

  /** The first athlete row, the athletes per block and the distance between block starts. */
  const Start: int := 16
  const BlockSize: int := 22
  const BlockStride: int := 46

  /** The sheet row of the i-th athlete on the form. */
  function RowOf(i: nat): int
  {
    Start + (i / BlockSize) * BlockStride + i % BlockSize
  }

  /** The first block holds athletes 0..21 on rows 16..37. */
  lemma RowOfFirstBlock(i: nat)
    requires i < BlockSize
    ensures RowOf(i) == 16 + i
    ensures 16 <= RowOf(i) <= 37
  {
  }

  /** Each athlete sits 46 rows below the one 22 places earlier, so each block starts 46 rows below the previous one. */
  lemma {:induction false} RowOfNextBlock(i: nat)
    ensures RowOf(i + BlockSize) == RowOf(i) + BlockStride
  {
    assert (i + BlockSize) / BlockSize == i / BlockSize + 1;
    assert (i + BlockSize) % BlockSize == i % BlockSize;
  }

  /** Within a block the rows are consecutive. */
  lemma RowOfInBlock(i: nat)
    requires i % BlockSize < BlockSize - 1
    ensures RowOf(i + 1) == RowOf(i) + 1
  {
    assert (i + 1) / BlockSize == i / BlockSize;
    assert (i + 1) % BlockSize == i % BlockSize + 1;
  }

  /** Every athlete row lies 16..37 rows past a multiple of 46. */
  lemma RowOfShape(i: nat)
    ensures RowOf(i) == (i / BlockSize) * BlockStride + (Start + i % BlockSize)
    ensures Start <= Start + i % BlockSize <= 37
  {
  }

  /** A later athlete is on a strictly later row, so no two athletes share a row. */
  lemma {:induction false} RowOfStrictlyIncreasing(i: nat, j: nat)
    requires i < j
    ensures RowOf(i) < RowOf(j)
  {
    var bi, bj := i / BlockSize, j / BlockSize;
    if bi == bj {
      assert i % BlockSize < j % BlockSize;
    } else {
      assert bi < bj;
      assert bi * BlockStride + BlockStride <= bj * BlockStride;
    }
  }

  /** No athlete row is one of the header or advisor rows (3, 7, 8, 9, 42, 43). */
  lemma RowOfAvoidsHeader(i: nat)
    ensures RowOf(i) !in {3, 7, 8, 9, 42, 43}
  {
    var b := i / BlockSize;
    if b == 0 {
      assert 16 <= RowOf(i) <= 37;
    } else {
      assert RowOf(i) >= 62;
    }
  }

  /** The identity columns of an athlete row: name, grade, date of birth and JKF number. */
  const NameCol: int := 2
  const GradeCol: int := 3
  const DobCol: int := 4
  const JkfCol: int := 19

  /** The entry column of a category: columns 11..14 for `男子`, 15..18 for everyone else. */
  function EntryCol(s: Sex, c: Category): (col: int)
    ensures s == Male ==> 11 <= col <= 14
    ensures s == Female ==> 15 <= col <= 18
  {
    var base := if s == Male then 11 else 15;
    match c
    case TeamKata => base
    case TeamKumite => base + 1
    case IndKata => base + 2
    case IndKumite => base + 3
  }

  /** Different (sex, category) pairs get different columns, none of them an identity column. */
  lemma EntryColInjective(s: Sex, c: Category, s': Sex, c': Category)
    ensures EntryCol(s, c) == EntryCol(s', c') <==> s == s' && c == c'
    ensures EntryCol(s, c) !in {NameCol, GradeCol, DobCol, JkfCol}
  {
  }

  /** The team mark of a checked team category: `補` for a reserve, `○` for a regular; nothing when unchecked. */
  function TeamMark(chk: bool, role: Role): (r: Option<string>)
  {
    if !chk then None else Some(if RoleLabel(role) == "補欠" then "補" else "○")
  }

  /** The team mark shows exactly whether the category is checked and whether the athlete is a reserve. */
  lemma TeamMarkReads(chk: bool, role: Role)
    ensures TeamMark(chk, role).Some? <==> chk
    ensures TeamMark(chk, role) == Some("補") <==> chk && role == Reserve
    ensures TeamMark(chk, role) == Some("○") <==> chk && role == Regular
  {
  }

  /**
   * The mark of an individual category: nothing for no or an empty type,
   * `補` for an alternate whatever the rank, `○` followed by the rank for
   * `一般` and `シ` followed by the rank for any other type.
   */
  function FormatRank(t: Option<string>, rank: string): (r: Option<string>)
    ensures r.None? <==> t.None? || t.value == ""
    ensures t == Some("補欠") ==> r == Some("補")
    ensures t == Some("一般") ==> r == Some("○" + rank)
    ensures t.Some? && t.value !in {"", "補欠", "一般"} ==> r == Some("シ" + rank)
  {
    if t.None? || t.value == "" then None
    else if t.value == "補欠" then Some("補")
    else if t.value == "一般" then Some("○" + rank)
    else Some("シ" + rank)
  }

  /** The type label an entry hands to `FormatRank`. */
  function TypeLabel(t: Option<Placement>): Option<string>
  {
    match t
    case None => None
    case Some(p) => Some(PlacementLabel(p))
  }

  /** Reads a mark back: its first character gives the placement, the rest the rank. */
  function ReadMark(mark: string): Option<(Placement, string)>
  {
    if mark == "補" then Some((Alternate, ""))
    else if |mark| > 0 && mark[0] == '○' then Some((General, mark[1..]))
    else if |mark| > 0 && mark[0] == 'シ' then Some((Seed, mark[1..]))
    else None
  }

  /**
   * The mark written for an entered individual category gives back its
   * placement and, except for an alternate, its rank; an unentered one
   * writes nothing.
   */
  lemma FormatRankReadBack(t: Option<Placement>, rank: string)
    ensures t.None? <==> FormatRank(TypeLabel(t), rank).None?
    ensures t.Some? ==>
      ReadMark(FormatRank(TypeLabel(t), rank).value) == Some((t.value, if t.value == Alternate then "" else rank))
  {
    if t.Some? && t.value != Alternate {
      var mark := FormatRank(TypeLabel(t), rank).value;
      assert mark[1..] == rank;
    }
  }

  /** The date line of the header, in the Reiwa era (year 2019 is Reiwa 1). */
  function EraDate(year: int, month: int, day: int): string
  {
    "令和" + (ShowInt(year - 2018) + ("年" + (ShowInt(month) + ("月" + (ShowInt(day) + "日")))))
  }

  /** A decimal numeral holds no kanji. */
  lemma ShowIntNoKanji(i: int, c: char)
    requires c != '-' && !IsAsciiDigit(c)
    ensures c !in ShowInt(i)
  {
  }

  /** The position of the first `c` in `s`, or `|s|` when there is none. */
  function FirstAt(s: string, c: char): (k: nat)
    ensures k <= |s|
  {
    if s == [] || s[0] == c then 0 else 1 + FirstAt(s[1..], c)
  }

  lemma {:induction false} FirstAtMarker(x: string, y: string, c: char)
    requires c !in x
    ensures FirstAt(x + ([c] + y), c) == |x|
  {
    if x != [] {
      assert (x + ([c] + y))[1..] == x[1..] + ([c] + y);
      FirstAtMarker(x[1..], y, c);
    }
  }

  /** Two strings each cut at the first occurrence of `c` agree on both sides of it. */
  lemma SplitAtMarker(x: string, y: string, x': string, y': string, c: char)
    requires c !in x && c !in x'
    requires x + ([c] + y) == x' + ([c] + y')
    ensures x == x' && y == y'
  {
    var s := x + ([c] + y);
    FirstAtMarker(x, y, c);
    FirstAtMarker(x', y', c);
    assert x == s[..|x|] && x' == s[..|x'|];
    assert y == s[|x| + 1..] && y' == s[|x'| + 1..];
  }

  /** Different dates give different date lines. */
  lemma EraDateInjective(y: int, m: int, d: int, y': int, m': int, d': int)
    requires EraDate(y, m, d) == EraDate(y', m', d')
    ensures y == y' && m == m' && d == d'
  {
    var a, a' := ShowInt(y - 2018), ShowInt(y' - 2018);
    var b, b' := ShowInt(m), ShowInt(m');
    var e, e' := ShowInt(d), ShowInt(d');
    var era := "令和";
    var rest := a + ("年" + (b + ("月" + (e + "日"))));
    var rest' := a' + ("年" + (b' + ("月" + (e' + "日"))));
    assert EraDate(y, m, d)[|era|..] == rest;
    assert EraDate(y', m', d')[|era|..] == rest';
    ShowIntNoKanji(y - 2018, '年');
    ShowIntNoKanji(y' - 2018, '年');
    SplitAtMarker(a, b + ("月" + (e + "日")), a', b' + ("月" + (e' + "日")), '年');
    ShowIntInjective(y - 2018, y' - 2018);
    ShowIntNoKanji(m, '月');
    ShowIntNoKanji(m', '月');
    SplitAtMarker(b, e + "日", b', e' + "日", '月');
    ShowIntInjective(m, m');
    assert e == (e + "日")[..|e|] && e' == (e' + "日")[..|e'|];
    ShowIntInjective(d, d');
  }
}
