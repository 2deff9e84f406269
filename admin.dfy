/**
 * The administrator's account tab: renaming a school moves its account,
 * its advisor profile and its roster rows to the new name; deleting a
 * school drops all three. Also the per-school counts of the summary report.
 */
module Admin {
  import opened Entries
  import opened Advisors

  /** A school's login record: its password and the number that orders the reports. */
  datatype Account = Account(password: string, schoolNo: int)

  /** A school's advisor tab as stored: the principal and the advisor list. */
  datatype Profile = Profile(principal: string, advisors: seq<Advisor>)

  /**
   * The map with the value under `from` moved to the key `to`, as
   * `d[to] = d.pop(from)` does; unchanged when `from` is not a key.
   */
  function Moved<V>(m: map<string, V>, from: string, to: string): (r: map<string, V>)
    ensures from in m ==> to in r && r[to] == m[from]
    ensures from in m && from != to ==> from !in r
    ensures forall k :: k != from && k != to ==> (k in r <==> k in m) && (k in m ==> r[k] == m[k])
    ensures from !in m ==> r == m
  {
    if from in m then (m - {from})[to := m[from]] else m
  }

  /** Moving a key to a fresh name and back restores the map. */
  lemma MovedBack<V>(m: map<string, V>, from: string, to: string)
    requires to !in m
    ensures Moved(Moved(m, from, to), to, from) == m
  {
  }

  /** A roster row of `tgt` relabelled to `newName`; any other row as it is. */
  function Relabel(m: Member, tgt: string, newName: string): Member
  {
    if m.school == tgt then m.(school := newName) else m
  }

  /** The roster with every row of `tgt` relabelled to `newName`, row order kept. */
  function Relabelled(roster: seq<Member>, tgt: string, newName: string): (r: seq<Member>)
    ensures |r| == |roster|
    ensures forall i :: 0 <= i < |r| ==> r[i].(school := roster[i].school) == roster[i]
    ensures forall i :: 0 <= i < |r| ==> (r[i].school == newName <==> roster[i].school == tgt || roster[i].school == newName)
    ensures forall i :: 0 <= i < |r| && roster[i].school != tgt ==> r[i] == roster[i]
  {
    if roster == [] then []
    else Relabelled(roster[..|roster| - 1], tgt, newName) + [Relabel(roster[|roster| - 1], tgt, newName)]
  }

  /** The roster without the rows of `tgt`, the others in their order. */
  function Kept(roster: seq<Member>, tgt: string): (r: seq<Member>)
    ensures |r| <= |roster|
    ensures forall m :: m in r <==> m in roster && m.school != tgt
  {
    if roster == [] then []
    else
      var rest := Kept(roster[..|roster| - 1], tgt);
      var m := roster[|roster| - 1];
      if m.school != tgt then rest + [m] else rest
  }

  /** The rows of `school`, in roster order. */
  function AtSchool(roster: seq<Member>, school: string): (r: seq<Member>)
    ensures |r| <= |roster|
    ensures forall m :: m in r <==> m in roster && m.school == school
  {
    if roster == [] then []
    else
      var rest := AtSchool(roster[..|roster| - 1], school);
      var m := roster[|roster| - 1];
      if m.school == school then rest + [m] else rest
  }

  /**
   * The stored state stays linked: every advisor profile and every roster
   * row belongs to a school that has an account.
   */
  predicate Linked(auth: map<string, Account>, schools: map<string, Profile>, roster: seq<Member>)
  {
    && (forall s :: s in schools ==> s in auth)
    && (forall i :: 0 <= i < |roster| ==> roster[i].school in auth)
  }

  /** The rename the tab accepts: a non-empty name that no account has yet. */
  predicate RenameAccepted(auth: map<string, Account>, newName: string)
  {
    newName != "" && newName !in auth
  }

  /** An accepted rename keeps the stored state linked and leaves no trace of the old name. */
  lemma RenameKeepsLinked(auth: map<string, Account>, schools: map<string, Profile>, roster: seq<Member>,
                          tgt: string, newName: string)
    requires Linked(auth, schools, roster) && tgt in auth && RenameAccepted(auth, newName)
    ensures Linked(Moved(auth, tgt, newName), Moved(schools, tgt, newName), Relabelled(roster, tgt, newName))
    ensures tgt !in Moved(auth, tgt, newName) && tgt !in Moved(schools, tgt, newName)
    ensures forall m :: m in Relabelled(roster, tgt, newName) ==> m.school != tgt
  {
  }

  /** Renaming to a fresh name and then back restores the accounts, the profiles and the roster. */
  lemma {:induction false} RenameRoundTrip(auth: map<string, Account>, schools: map<string, Profile>, roster: seq<Member>,
                                           tgt: string, newName: string)
    requires Linked(auth, schools, roster) && tgt in auth && RenameAccepted(auth, newName)
    ensures Moved(Moved(auth, tgt, newName), newName, tgt) == auth
    ensures Moved(Moved(schools, tgt, newName), newName, tgt) == schools
    ensures Relabelled(Relabelled(roster, tgt, newName), newName, tgt) == roster
  {
    MovedBack(auth, tgt, newName);
    MovedBack(schools, tgt, newName);
    var back := Relabelled(Relabelled(roster, tgt, newName), newName, tgt);
    forall i | 0 <= i < |roster|
      ensures back[i] == roster[i]
    {
      assert roster[i].school != newName;
    }
  }

  /** A confirmed delete keeps the stored state linked and leaves no trace of the school. */
  lemma DeleteKeepsLinked(auth: map<string, Account>, schools: map<string, Profile>, roster: seq<Member>, tgt: string)
    requires Linked(auth, schools, roster)
    ensures Linked(auth - {tgt}, schools - {tgt}, Kept(roster, tgt))
    ensures forall m :: m in Kept(roster, tgt) ==> m.school != tgt
  {
    var kept := Kept(roster, tgt);
    forall i | 0 <= i < |kept|
      ensures kept[i].school in auth - {tgt}
    {
      assert kept[i] in kept;
    }
  }

  /** Deleting a school removes exactly its rows: the kept rows and the school's rows add up to the roster. */
  lemma {:induction false} DeleteCounts(roster: seq<Member>, tgt: string)
    ensures |Kept(roster, tgt)| + |AtSchool(roster, tgt)| == |roster|
  {
    if roster != [] {
      DeleteCounts(roster[..|roster| - 1], tgt);
    }
  }

  /** Deleting one school leaves every other school's rows, in order, as they were. */
  lemma {:induction false} DeleteKeepsOthers(roster: seq<Member>, tgt: string, school: string)
    requires school != tgt
    ensures AtSchool(Kept(roster, tgt), school) == AtSchool(roster, school)
  {
    if roster != [] {
      var pre, m := roster[..|roster| - 1], roster[|roster| - 1];
      DeleteKeepsOthers(pre, tgt, school);
      if m.school != tgt {
        KeptSnoc(pre, m, tgt);
        AtSchoolSnoc(Kept(pre, tgt), m, school);
      }
    }
  }

  lemma KeptSnoc(pre: seq<Member>, m: Member, tgt: string)
    requires m.school != tgt
    ensures Kept(pre + [m], tgt) == Kept(pre, tgt) + [m]
  {
    assert (pre + [m])[..|pre + [m]| - 1] == pre;
  }

  lemma AtSchoolSnoc(pre: seq<Member>, m: Member, school: string)
    ensures AtSchool(pre + [m], school) == if m.school == school then AtSchool(pre, school) + [m] else AtSchool(pre, school)
  {
    assert (pre + [m])[..|pre + [m]| - 1] == pre;
  }

  /**
   * Renaming a school to a name no row carries: the new name's rows are the
   * old school's rows relabelled, in order, and every third school keeps its rows.
   */
  lemma {:induction false} RenameMovesRows(roster: seq<Member>, tgt: string, newName: string, school: string)
    requires tgt != newName
    requires forall i :: 0 <= i < |roster| ==> roster[i].school != newName
    ensures AtSchool(Relabelled(roster, tgt, newName), newName) == Relabelled(AtSchool(roster, tgt), tgt, newName)
    ensures school != tgt && school != newName ==> AtSchool(Relabelled(roster, tgt, newName), school) == AtSchool(roster, school)
    ensures AtSchool(Relabelled(roster, tgt, newName), tgt) == []
  {
    if roster != [] {
      var pre, m := roster[..|roster| - 1], roster[|roster| - 1];
      RenameMovesRows(pre, tgt, newName, school);
      var rpre := Relabelled(pre, tgt, newName);
      var rm := Relabel(m, tgt, newName);
      assert Relabelled(roster, tgt, newName) == rpre + [rm];
      AtSchoolSnoc(rpre, rm, newName);
      AtSchoolSnoc(rpre, rm, school);
      AtSchoolSnoc(rpre, rm, tgt);
      AtSchoolSnoc(pre, m, tgt);
      AtSchoolSnoc(pre, m, school);
      if m.school == tgt {
        var a := AtSchool(pre, tgt);
        assert (a + [m])[..|a + [m]| - 1] == a;
      }
    }
  }

  /** Whether a roster row has the given category checked. */
  function Checked(m: Member, c: Category): bool
  {
    match c
    case IndKata => m.lastKataChk
    case IndKumite => m.lastKumiChk
    case TeamKata => m.lastTeamKataChk
    case TeamKumite => m.lastTeamKumiChk
  }

  /** The positions of the rows of sex `s` with category `c` checked. */
  function CheckedIn(rows: seq<Member>, s: Sex, c: Category): set<nat>
  {
    set i: nat | i < |rows| && rows[i].sex == s && Checked(rows[i], c)
  }

  /** How many of the given rows are of sex `s` with category `c` checked. */
  function CountChecked(rows: seq<Member>, s: Sex, c: Category): (n: nat)
    ensures n == |CheckedIn(rows, s, c)|
  {
    if rows == [] then
      assert CheckedIn(rows, s, c) == {};
      0
    else
      var k := |rows| - 1;
      var m := rows[k];
      var hit := m.sex == s && Checked(m, c);
      assert CheckedIn(rows, s, c) == CheckedIn(rows[..k], s, c) + (if hit then {k} else {});
      CountChecked(rows[..k], s, c) + (if hit then 1 else 0)
  }

  /** The positions in the whole roster of `school`'s rows of sex `s` with category `c` checked. */
  function CheckedAt(roster: seq<Member>, school: string, s: Sex, c: Category): set<nat>
  {
    set i: nat | i < |roster| && roster[i].school == school && roster[i].sex == s && Checked(roster[i], c)
  }

  /** The last roster row adds its own position, when it matches, to the positions before it. */
  lemma CheckedAtSnoc(roster: seq<Member>, school: string, s: Sex, c: Category)
    requires roster != []
    ensures var k := |roster| - 1; var m := roster[k];
      CheckedAt(roster, school, s, c) ==
        CheckedAt(roster[..k], school, s, c) + (if m.school == school && m.sex == s && Checked(m, c) then {k} else {})
    ensures |roster| - 1 !in CheckedAt(roster[..|roster| - 1], school, s, c)
  {
  }

  /** Counting within the school's rows counts the school's matching rows of the whole roster. */
  lemma {:induction false} CountCheckedAt(roster: seq<Member>, school: string, s: Sex, c: Category)
    ensures CountChecked(AtSchool(roster, school), s, c) == |CheckedAt(roster, school, s, c)|
  {
    if roster == [] {
      assert CheckedAt(roster, school, s, c) == {};
    } else {
      var k := |roster| - 1;
      var m := roster[k];
      var rest := AtSchool(roster[..k], school);
      CountCheckedAt(roster[..k], school, s, c);
      CheckedAtSnoc(roster, school, s, c);
      if m.school == school {
        assert AtSchool(roster, school) == rest + [m];
        assert (rest + [m])[..|rest|] == rest;
      } else {
        assert AtSchool(roster, school) == rest;
      }
    }
  }

  lemma CountCheckedAll(roster: seq<Member>, school: string)
    ensures forall s: Sex, c: Category :: CountChecked(AtSchool(roster, school), s, c) == |CheckedAt(roster, school, s, c)|
  {
    forall s: Sex, c: Category
      ensures CountChecked(AtSchool(roster, school), s, c) == |CheckedAt(roster, school, s, c)|
    {
      CountCheckedAt(roster, school, s, c);
    }
  }

  /** One school's counts in the summary report. */
  datatype Summary = Summary(male: SexSummary, female: SexSummary, total: nat)

  /** A team category shows whether anyone is entered; an individual category shows how many are. */
  datatype SexSummary = SexSummary(teamKata: bool, indKata: nat, teamKumite: bool, indKumite: nat)

  function SexSummaryOf(rows: seq<Member>, s: Sex): SexSummary
  {
    SexSummary(CountChecked(rows, s, TeamKata) > 0, CountChecked(rows, s, IndKata),
               CountChecked(rows, s, TeamKumite) > 0, CountChecked(rows, s, IndKumite))
  }

  /**
   * The summary report's counts for `school`: per sex, the number of rows
   * with individual kata (kumite) checked, whether any row has team kata
   * (kumite) checked, and the school's number of rows.
   */
  function SummaryOf(roster: seq<Member>, school: string): (r: Summary)
    ensures r.total == |AtSchool(roster, school)|
    ensures r.male.indKata == |CheckedAt(roster, school, Male, IndKata)|
    ensures r.male.indKumite == |CheckedAt(roster, school, Male, IndKumite)|
    ensures r.male.teamKata <==> CheckedAt(roster, school, Male, TeamKata) != {}
    ensures r.male.teamKumite <==> CheckedAt(roster, school, Male, TeamKumite) != {}
    ensures r.female.indKata == |CheckedAt(roster, school, Female, IndKata)|
    ensures r.female.indKumite == |CheckedAt(roster, school, Female, IndKumite)|
    ensures r.female.teamKata <==> CheckedAt(roster, school, Female, TeamKata) != {}
    ensures r.female.teamKumite <==> CheckedAt(roster, school, Female, TeamKumite) != {}
  {
    CountCheckedAll(roster, school);
    var rows := AtSchool(roster, school);
    Summary(SexSummaryOf(rows, Male), SexSummaryOf(rows, Female), |rows|)
  }

  /** A count of a roster's rows does not depend on their school. */
  lemma {:induction false} CountRelabelled(rows: seq<Member>, tgt: string, newName: string, s: Sex, c: Category)
    ensures CountChecked(Relabelled(rows, tgt, newName), s, c) == CountChecked(rows, s, c)
  {
    if rows != [] {
      CountRelabelled(rows[..|rows| - 1], tgt, newName, s, c);
      var r := Relabelled(rows, tgt, newName);
      assert r[..|r| - 1] == Relabelled(rows[..|rows| - 1], tgt, newName);
    }
  }

  /** After renaming a school to a name no row carries, the new name's summary is the old school's. */
  lemma RenameKeepsSummary(roster: seq<Member>, tgt: string, newName: string)
    requires tgt != newName
    requires forall i :: 0 <= i < |roster| ==> roster[i].school != newName
    ensures SummaryOf(Relabelled(roster, tgt, newName), newName) == SummaryOf(roster, tgt)
  {
    RenameMovesRows(roster, tgt, newName, tgt);
    var rows := AtSchool(roster, tgt);
    forall s: Sex, c: Category
      ensures CountChecked(Relabelled(rows, tgt, newName), s, c) == CountChecked(rows, s, c)
    {
      CountRelabelled(rows, tgt, newName, s, c);
    }
  }

  /** The administrator's view of the stored accounts, advisor profiles and roster. */
  class Registry {
    var auth: map<string, Account>
    var schools: map<string, Profile>
    var members: seq<Member>

    constructor(auth: map<string, Account>, schools: map<string, Profile>, members: seq<Member>)
      ensures this.auth == auth && this.schools == schools && this.members == members
    {
      this.auth := auth;
      this.schools := schools;
      this.members := members;
    }

    predicate Valid()
      reads this
    {
      Linked(auth, schools, members)
    }

    /**
     * The rename form for the selected school `tgt`: a non-empty name no
     * account has yet takes over the account, the advisor profile (when
     * there is one) and the roster rows; any other name changes nothing.
     */
    method RenameSchool(tgt: string, newName: string) returns (ok: bool)
      requires tgt in auth
      modifies this
      ensures ok <==> RenameAccepted(old(auth), newName)
      ensures ok ==> auth == Moved(old(auth), tgt, newName)
      ensures ok ==> schools == Moved(old(schools), tgt, newName)
      ensures ok ==> members == Relabelled(old(members), tgt, newName)
      ensures !ok ==> auth == old(auth) && schools == old(schools) && members == old(members)
      ensures old(Valid()) ==> Valid()
    {
      ok := newName != "" && newName !in auth;
      if ok {
        ghost var before := (auth, schools, members);
        var acc := auth[tgt];
        auth := (auth - {tgt})[newName := acc];
        if tgt in schools {
          var prof := schools[tgt];
          schools := (schools - {tgt})[newName := prof];
        }
        members := Relabelled(members, tgt, newName);
        if Linked(before.0, before.1, before.2) {
          RenameKeepsLinked(before.0, before.1, before.2, tgt, newName);
        }
      }
    }

    /**
     * The delete form for the selected school `tgt`: when confirmed, its
     * account, advisor profile and roster rows are dropped; otherwise
     * nothing changes.
     */
    method DeleteSchool(tgt: string, confirm: bool) returns (ok: bool)
      requires tgt in auth
      modifies this
      ensures ok == confirm
      ensures ok ==> auth == old(auth) - {tgt} && schools == old(schools) - {tgt}
      ensures ok ==> members == Kept(old(members), tgt)
      ensures !ok ==> auth == old(auth) && schools == old(schools) && members == old(members)
      ensures old(Valid()) ==> Valid()
    {
      ok := confirm;
      if ok {
        ghost var before := (auth, schools, members);
        auth := auth - {tgt};
        if tgt in schools {
          schools := schools - {tgt};
        }
        members := Kept(members, tgt);
        if Linked(before.0, before.1, before.2) {
          DeleteKeepsLinked(before.0, before.1, before.2, tgt);
        }
      }
    }
  }
}
