/**
 * The entry tab of a school's page: each athlete's widgets start from the
 * `last_*` values of their roster row, the form yields one entry and one
 * roster update per athlete, and saving writes the updates back into the
 * roster only when the headcount validator finds nothing to report.
 */
module EntryForm {
  import opened Wrappers
  import opened Entries
  import Validation

  /**
   * What the user did with one athlete's widgets: `Some(v)` is a value the
   * user chose, `None` leaves the widget at the value it starts from.
   */
  datatype FormInput = FormInput(
    teamKataChk: Option<bool>, teamKataRole: Option<Role>,
    teamKumiChk: Option<bool>, teamKumiRole: Option<Role>,
    kataChk: Option<bool>, kataType: Option<Placement>, kataRank: Option<string>,
    kumiChk: Option<bool>, kumiType: Option<Placement>, kumiRank: Option<string>)

  /** Every widget left as it starts. */
  const Untouched: FormInput := FormInput(None, None, None, None, None, None, None, None, None, None)

  /** A team category's role: the radio is shown only when the box is checked, otherwise `正選手`. */
  function TeamRole(chk: bool, chosen: Option<Role>, stored: string): Role
  {
    if chk then chosen.GetOr(StoredRole(stored)) else Regular
  }

  /** An individual category's type: the radio is shown only when the box is checked, otherwise `一般`. */
  function IndividualType(chk: bool, chosen: Option<Placement>, stored: string): Placement
  {
    if chk then chosen.GetOr(DecodePlacement(stored)) else General
  }

  /** An individual category's rank: the text box is shown only for a checked category whose type is not `補欠`. */
  function IndividualRank(chk: bool, t: Placement, chosen: Option<string>, stored: string): string
  {
    if chk && t != Alternate then chosen.GetOr(stored) else ""
  }

  /** The entry and the roster update one athlete's widgets produce. */
  function Render(m: Member, inp: FormInput): (Entry, Update)
  {
    var tkc := inp.teamKataChk.GetOr(m.lastTeamKataChk);
    var tkr := TeamRole(tkc, inp.teamKataRole, m.lastTeamKataRole);
    var tkuc := inp.teamKumiChk.GetOr(m.lastTeamKumiChk);
    var tkur := TeamRole(tkuc, inp.teamKumiRole, m.lastTeamKumiRole);
    var ikc := inp.kataChk.GetOr(m.lastKataChk);
    var ikt := IndividualType(ikc, inp.kataType, m.lastKataType);
    var ikrk := IndividualRank(ikc, ikt, inp.kataRank, m.lastKataRank);
    var ikuc := inp.kumiChk.GetOr(m.lastKumiChk);
    var ikut := IndividualType(ikuc, inp.kumiType, m.lastKumiType);
    var ikurk := IndividualRank(ikuc, ikut, inp.kumiRank, m.lastKumiRank);
    (Entry(m.name, m.sex, m.grade, m.dob, m.jkfNo, tkc, tkr, tkuc, tkur,
           if ikc then Some(ikt) else None, ikrk, if ikuc then Some(ikut) else None, ikurk),
     Update(tkc, tkr, tkuc, tkur, ikc, ikt, ikrk, ikuc, ikut, ikurk))
  }

  /**
   * How the widgets start and what the form yields: each box starts from the
   * stored flag, a checked team category from the stored role (an unchecked
   * one is `正選手`), a checked individual category from the stored type
   * (an unknown one reads as `一般`); a rank is blank unless its category is
   * checked and not `補欠`; the update records exactly what the entry holds.
   */
  lemma RenderDefaults(m: Member, inp: FormInput)
    ensures var (e, u) := Render(m, inp);
      && e.name == m.name && e.sex == m.sex && e.grade == m.grade && e.dob == m.dob && e.jkfNo == m.jkfNo
      // each box starts from the stored flag
      && e.teamKataChk == inp.teamKataChk.GetOr(m.lastTeamKataChk)
      && e.teamKumiChk == inp.teamKumiChk.GetOr(m.lastTeamKumiChk)
      && e.kataType.Some? == inp.kataChk.GetOr(m.lastKataChk)
      && e.kumiteType.Some? == inp.kumiChk.GetOr(m.lastKumiChk)
      // an unchecked team category is `正選手`; a checked one starts from the stored role
      && (!e.teamKataChk ==> e.teamKataRole == Regular)
      && (!e.teamKumiChk ==> e.teamKumiRole == Regular)
      && (e.teamKataChk && inp.teamKataRole == None ==> e.teamKataRole == StoredRole(m.lastTeamKataRole))
      && (e.teamKumiChk && inp.teamKumiRole == None ==> e.teamKumiRole == StoredRole(m.lastTeamKumiRole))
      // a checked individual category starts from the stored type, unknown types reading as `一般`
      && (e.kataType.Some? && inp.kataType == None ==> e.kataType.value == DecodePlacement(m.lastKataType))
      && (e.kumiteType.Some? && inp.kumiType == None ==> e.kumiteType.value == DecodePlacement(m.lastKumiType))
      // the rank is blank unless the category is checked and not `補欠`
      && (e.kataType == None || e.kataType == Some(Alternate) ==> e.kataRank == "")
      && (e.kumiteType == None || e.kumiteType == Some(Alternate) ==> e.kumiteRank == "")
      && (e.kataType.Some? && e.kataType.value != Alternate ==> e.kataRank == inp.kataRank.GetOr(m.lastKataRank))
      && (e.kumiteType.Some? && e.kumiteType.value != Alternate ==> e.kumiteRank == inp.kumiRank.GetOr(m.lastKumiRank))
      // the update records exactly what the entry holds
      && u.teamKataChk == e.teamKataChk && u.teamKataRole == e.teamKataRole
      && u.teamKumiChk == e.teamKumiChk && u.teamKumiRole == e.teamKumiRole
      && u.kataChk == e.kataType.Some? && u.kataType == e.kataType.GetOr(General) && u.kataRank == e.kataRank
      && u.kumiChk == e.kumiteType.Some? && u.kumiType == e.kumiteType.GetOr(General) && u.kumiRank == e.kumiteRank
  {
  }

  /**
   * Saving an entry and opening the form again with every widget left as it
   * starts reproduces the same entry and the same update.
   */
  lemma RenderResubmit(m: Member, inp: FormInput)
    ensures Render(ApplyUpdate(m, Render(m, inp).1), Untouched) == Render(m, inp)
  {
  }

  /** The widgets of an athlete are keyed by name; an athlete the user did not touch has none. */
  function InputFor(inputs: map<string, FormInput>, name: string): FormInput
  {
    if name in inputs then inputs[name] else Untouched
  }

  /**
   * The roster positions of `school`'s rows with sex `s`: every such
   * position, each once, in increasing order (proved below).
   */
  function SexIndices(roster: seq<Member>, school: string, s: Sex): (idx: seq<nat>)
    ensures forall j :: 0 <= j < |idx| ==> idx[j] < |roster| && roster[idx[j]].school == school && roster[idx[j]].sex == s
  {
    if roster == [] then []
    else
      var k := |roster| - 1;
      var rest := SexIndices(roster[..k], school, s);
      if roster[k].school == school && roster[k].sex == s then rest + [k] else rest
  }

  /** The positions are listed in strictly increasing order, so each once and in roster order. */
  lemma {:induction false} SexIndicesIncreasing(roster: seq<Member>, school: string, s: Sex)
    ensures forall j, j' :: 0 <= j < j' < |SexIndices(roster, school, s)| ==>
      SexIndices(roster, school, s)[j] < SexIndices(roster, school, s)[j']
  {
    if roster != [] {
      var k := |roster| - 1;
      SexIndicesIncreasing(roster[..k], school, s);
      var rest := SexIndices(roster[..k], school, s);
      assert forall j :: 0 <= j < |rest| ==> rest[j] < k;
      if roster[k].school == school && roster[k].sex == s {
        var idx := rest + [k];
        assert SexIndices(roster, school, s) == idx;
        forall j, j' | 0 <= j < j' < |idx|
          ensures idx[j] < idx[j']
        {
          assert idx[j] == rest[j];
          if j' < |rest| {
            assert idx[j'] == rest[j'];
            assert rest[j] < rest[j'];
          }
        }
      }
    }
  }

  /** No row is missed: every position of a row of `school` with sex `s` is listed. */
  lemma {:induction false} SexIndicesComplete(roster: seq<Member>, school: string, s: Sex, i: nat)
    requires i < |roster| && roster[i].school == school && roster[i].sex == s
    ensures i in SexIndices(roster, school, s)
  {
    var k := |roster| - 1;
    if i < k {
      SexIndicesComplete(roster[..k], school, s, i);
    }
  }

  /** The roster rows of `school` with sex `s`, in roster order: the rows at `SexIndices`. */
  function SexRows(roster: seq<Member>, school: string, s: Sex): (rows: seq<Member>)
    ensures |rows| == |SexIndices(roster, school, s)|
    ensures forall j :: 0 <= j < |rows| ==> rows[j] == roster[SexIndices(roster, school, s)[j]]
  {
    if roster == [] then []
    else
      var k := |roster| - 1;
      var rest := SexRows(roster[..k], school, s);
      var m := roster[k];
      if m.school == school && m.sex == s then rest + [m] else rest
  }

  /** The rows listed for a sex are exactly the school's rows of that sex. */
  lemma {:induction false} SexRowsMembers(roster: seq<Member>, school: string, s: Sex)
    ensures forall m :: m in SexRows(roster, school, s) <==> m in roster && m.school == school && m.sex == s
  {
    if roster != [] {
      var k := |roster| - 1;
      SexRowsMembers(roster[..k], school, s);
      assert roster == roster[..k] + [roster[k]];
    }
  }

  /** The form lists the school's men first, then its women. */
  function FormRows(roster: seq<Member>, school: string): seq<Member>
  {
    SexRows(roster, school, Male) + SexRows(roster, school, Female)
  }

  /** The entry the form yields for one row. */
  function EntryFor(m: Member, inputs: map<string, FormInput>): Entry
  {
    Render(m, InputFor(inputs, m.name)).0
  }

  /** The update the form yields for one row. */
  function UpdateFor(m: Member, inputs: map<string, FormInput>): Update
  {
    Render(m, InputFor(inputs, m.name)).1
  }

  /** The updates of the form keyed by name: a later row with the same name overwrites an earlier one. */
  function UpdatesOf(rows: seq<Member>, inputs: map<string, FormInput>): map<string, Update>
  {
    if rows == [] then map[]
    else
      var m := rows[|rows| - 1];
      UpdatesOf(rows[..|rows| - 1], inputs)[m.name := UpdateFor(m, inputs)]
  }

  /** The entries of the form, in form order. */
  function EntriesOf(rows: seq<Member>, inputs: map<string, FormInput>): seq<Entry>
  {
    if rows == [] then [] else EntriesOf(rows[..|rows| - 1], inputs) + [EntryFor(rows[|rows| - 1], inputs)]
  }

  lemma {:induction false} EntriesOfAt(rows: seq<Member>, inputs: map<string, FormInput>)
    ensures |EntriesOf(rows, inputs)| == |rows|
    ensures forall i :: 0 <= i < |rows| ==> EntriesOf(rows, inputs)[i] == EntryFor(rows[i], inputs)
  {
    if rows != [] {
      EntriesOfAt(rows[..|rows| - 1], inputs);
    }
  }

  lemma OfStep(rows: seq<Member>, inputs: map<string, FormInput>, i: nat)
    requires i < |rows|
    ensures EntriesOf(rows[..i + 1], inputs) == EntriesOf(rows[..i], inputs) + [EntryFor(rows[i], inputs)]
    ensures UpdatesOf(rows[..i + 1], inputs) == UpdatesOf(rows[..i], inputs)[rows[i].name := UpdateFor(rows[i], inputs)]
  {
    assert rows[..i + 1][..i] == rows[..i];
  }

  /** The index of the last row named `name`, or -1 when there is none. */
  function LastNamed(rows: seq<Member>, name: string): (i: int)
    ensures -1 <= i < |rows|
    ensures 0 <= i ==> rows[i].name == name
    ensures forall j :: i < j < |rows| ==> rows[j].name != name
  {
    if rows == [] then -1
    else if rows[|rows| - 1].name == name then |rows| - 1
    else LastNamed(rows[..|rows| - 1], name)
  }

  /**
   * The updates hold exactly the names of the rows, each with the update of
   * the last row that carries it.
   */
  lemma {:induction false} UpdatesOfLast(rows: seq<Member>, inputs: map<string, FormInput>, name: string)
    ensures name in UpdatesOf(rows, inputs) <==> LastNamed(rows, name) >= 0
    ensures name in UpdatesOf(rows, inputs) ==> UpdatesOf(rows, inputs)[name] == UpdateFor(rows[LastNamed(rows, name)], inputs)
  {
    if rows != [] && rows[|rows| - 1].name != name {
      var prefix := rows[..|rows| - 1];
      UpdatesOfLast(prefix, inputs, name);
      if LastNamed(prefix, name) >= 0 {
        assert rows[LastNamed(prefix, name)] == prefix[LastNamed(prefix, name)];
      }
    }
  }

  /**
   * Renders the school's athletes, men first and then women, collecting the
   * entries in that order and the updates keyed by name.
   */
  method BuildForm(roster: seq<Member>, school: string, inputs: map<string, FormInput>)
    returns (ents: seq<Entry>, upds: map<string, Update>)
    ensures |ents| == |FormRows(roster, school)|
    ensures forall i :: 0 <= i < |ents| ==> ents[i] == EntryFor(FormRows(roster, school)[i], inputs)
    ensures upds == UpdatesOf(FormRows(roster, school), inputs)
  {
    var rows := FormRows(roster, school);
    ents := [];
    upds := map[];
    var i := 0;
    while i < |rows|
      invariant 0 <= i <= |rows|
      invariant ents == EntriesOf(rows[..i], inputs)
      invariant upds == UpdatesOf(rows[..i], inputs)
    {
      var r := rows[i];
      ents := ents + [EntryFor(r, inputs)];
      upds := upds[r.name := UpdateFor(r, inputs)];
      OfStep(rows, inputs, i);
      i := i + 1;
    }
    assert rows[..i] == rows;
    EntriesOfAt(rows, inputs);
  }

  /** The form opens with the school's men, in roster order. */
  lemma FormRowsMen(roster: seq<Member>, school: string)
    ensures forall j :: 0 <= j < |SexIndices(roster, school, Male)| ==>
      FormRows(roster, school)[j] == roster[SexIndices(roster, school, Male)[j]]
  {
    var men, women := SexRows(roster, school, Male), SexRows(roster, school, Female);
    forall j | 0 <= j < |men|
      ensures (men + women)[j] == men[j]
    {
    }
  }

  /** After the men the form lists the school's women, in roster order, and nobody else. */
  lemma FormRowsWomen(roster: seq<Member>, school: string)
    ensures |FormRows(roster, school)| == |SexIndices(roster, school, Male)| + |SexIndices(roster, school, Female)|
    ensures forall j :: 0 <= j < |SexIndices(roster, school, Female)| ==>
      FormRows(roster, school)[|SexIndices(roster, school, Male)| + j] == roster[SexIndices(roster, school, Female)[j]]
  {
    var men, women := SexRows(roster, school, Male), SexRows(roster, school, Female);
    ConcatAt(men, women, roster, SexIndices(roster, school, Female));
  }

  /** The second part of a concatenation, read at its offset, is the rows at `idx`. */
  lemma ConcatAt(a: seq<Member>, b: seq<Member>, roster: seq<Member>, idx: seq<nat>)
    requires |b| == |idx|
    requires forall j :: 0 <= j < |idx| ==> idx[j] < |roster| && b[j] == roster[idx[j]]
    ensures forall j :: 0 <= j < |idx| ==> (a + b)[|a| + j] == roster[idx[j]]
  {
  }

  /** Every man on the form comes before every woman, and the form holds exactly the school's rows. */
  lemma FormRowsOrdered(roster: seq<Member>, school: string)
    ensures forall i, j :: 0 <= i < j < |FormRows(roster, school)| && FormRows(roster, school)[i].sex == Female ==>
      FormRows(roster, school)[j].sex == Female
    ensures forall m :: m in FormRows(roster, school) <==> m in roster && m.school == school
  {
    var men := SexRows(roster, school, Male);
    var women := SexRows(roster, school, Female);
    SexRowsMembers(roster, school, Male);
    SexRowsMembers(roster, school, Female);
    assert forall i :: 0 <= i < |men| ==> men[i] in men;
    assert forall i :: 0 <= i < |women| ==> women[i] in women;
  }

  /** A roster row after the save: this school's rows named in `upds` take their update, all others stay. */
  function Merged(m: Member, school: string, upds: map<string, Update>): Member
  {
    if m.school == school && m.name in upds then ApplyUpdate(m, upds[m.name]) else m
  }

  /**
   * The save touches only this school's rows named in the updates, and in
   * them only the `last_*` columns.
   */
  lemma MergedTouchesOnly(m: Member, school: string, upds: map<string, Update>)
    ensures Merged(m, school, upds).school == m.school && Merged(m, school, upds).name == m.name
    ensures Merged(m, school, upds).sex == m.sex && Merged(m, school, upds).grade == m.grade
    ensures Merged(m, school, upds).dob == m.dob && Merged(m, school, upds).jkfNo == m.jkfNo
    ensures m.school != school || m.name !in upds ==> Merged(m, school, upds) == m
    ensures m.school == school && m.name in upds ==> Merged(m, school, upds) == ApplyUpdate(m, upds[m.name])
  {
  }

  /** Writes each matching athlete's update into the roster, row by row. */
  method SaveMerge(roster: array<Member>, school: string, upds: map<string, Update>)
    modifies roster
    ensures forall i :: 0 <= i < roster.Length ==> roster[i] == Merged(old(roster[i]), school, upds)
  {
    var idx := 0;
    while idx < roster.Length
      invariant 0 <= idx <= roster.Length
      invariant forall i :: 0 <= i < idx ==> roster[i] == Merged(old(roster[i]), school, upds)
      invariant forall i :: idx <= i < roster.Length ==> roster[i] == old(roster[i])
    {
      var row := roster[idx];
      if row.school == school && row.name in upds {
        roster[idx] := ApplyUpdate(row, upds[row.name]);
      }
      idx := idx + 1;
    }
  }

  /**
   * Pressing the button: the entries are validated against the caps and the
   * roster is saved only when there is no error to report.
   */
  method Submit(roster: array<Member>, school: string, ents: seq<Entry>, upds: map<string, Update>, limits: Validation.Limits)
    returns (errs: seq<string>)
    requires Validation.Complete(limits)
    modifies roster
    ensures errs == Validation.Messages(Validation.Violations(ents, limits))
    ensures errs != [] ==> roster[..] == old(roster[..])
    ensures errs == [] ==> forall i :: 0 <= i < roster.Length ==> roster[i] == Merged(old(roster[i]), school, upds)
  {
    errs := Validation.ValidateEntries(ents, limits);
    if errs == [] {
      SaveMerge(roster, school, upds);
    }
  }
}
