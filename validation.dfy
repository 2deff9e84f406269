/**
 * The headcount validator: per sex and category it tallies regulars and
 * alternates among the submitted entries and reports every tally above its cap.
 */
module Validation {
  import opened Wrappers
  import opened Decimal
  import opened Entries

  /** The configured caps of one category: at most `reg` regulars and `sub` alternates. */
  datatype Cap = Cap(reg: int, sub: int)

  /** The `limits` setting, already converted to integers. */
  type Limits = map<Category, Cap>

  /** Every category has its caps (what the settings loader guarantees). */
  predicate Complete(limits: Limits)
  {
    forall c: Category :: c in limits
  }

  function CapOf(cap: Cap, k: Slot): int
  {
    match k
    case Reg => cap.reg
    case Sub => cap.sub
  }

  /** The sexes and categories in the order the tallies are reported. */
  const Sexes: seq<Sex> := [Male, Female]
  const Categories: seq<Category> := [IndKata, IndKumite, TeamKata, TeamKumite]

  /**
   * The tally of category `c` an entry adds to, if any: an individual type
   * `一般` adds a regular and `補欠` an alternate (`シード` and no type add
   * nothing); a checked team category adds an alternate when its role is
   * `補欠` and a regular otherwise.
   */
  function Tallied(e: Entry, c: Category): Option<Slot>
  {
    match c
    case IndKata => IndividualSlot(e.kataType)
    case IndKumite => IndividualSlot(e.kumiteType)
    case TeamKata => TeamSlot(e.teamKataChk, e.teamKataRole)
    case TeamKumite => TeamSlot(e.teamKumiChk, e.teamKumiRole)
  }

  function IndividualSlot(t: Option<Placement>): Option<Slot>
  {
    match t
    case Some(General) => Some(Reg)
    case Some(Alternate) => Some(Sub)
    case _ => None
  }

  function TeamSlot(chk: bool, role: Role): Option<Slot>
  {
    if !chk then None else if role == Reserve then Some(Sub) else Some(Reg)
  }

  predicate Adds(e: Entry, s: Sex, c: Category, k: Slot)
  {
    e.sex == s && Tallied(e, c) == Some(k)
  }

  /** How many entries of sex `s` add to tally `k` of category `c`. */
  function Count(el: seq<Entry>, s: Sex, c: Category, k: Slot): (n: nat)
    ensures n <= |el|
  {
    if el == [] then 0
    else Count(el[..|el| - 1], s, c, k) + (if Adds(el[|el| - 1], s, c, k) then 1 else 0)
  }

  /** One exceeded tally: its sex, category and slot, the count and the cap it exceeds. */
  datatype Violation = Violation(sex: Sex, category: Category, slot: Slot, count: nat, cap: int)

  /** The human-readable error string the validator emits for a violation. */
  function Message(v: Violation): string
  {
    "❌ " + SexLabel(v.sex) + " " + CategoryLabel(v.category)
    + (if v.slot == Reg then " (正選手): " else " (補欠): ")
    + ShowNat(v.count) + "名 (定員" + ShowInt(v.cap) + ")"
  }

  function Messages(vs: seq<Violation>): (r: seq<string>)
    ensures |r| == |vs|
    ensures forall i :: 0 <= i < |vs| ==> r[i] == Message(vs[i])
  {
    seq(|vs|, i requires 0 <= i < |vs| => Message(vs[i]))
  }

  /** The violations of one (sex, category) pair: the regular tally's, then the alternate tally's. */
  function CellViolations(el: seq<Entry>, limits: Limits, s: Sex, c: Category): seq<Violation>
    requires Complete(limits)
  {
    var reg, sub := Count(el, s, c, Reg), Count(el, s, c, Sub);
    (if reg > limits[c].reg then [Violation(s, c, Reg, reg, limits[c].reg)] else [])
    + (if sub > limits[c].sub then [Violation(s, c, Sub, sub, limits[c].sub)] else [])
  }

  /** The violations of sex `s` over the first `n` categories. */
  function SexViolations(el: seq<Entry>, limits: Limits, s: Sex, n: nat): seq<Violation>
    requires Complete(limits) && n <= |Categories|
  {
    if n == 0 then [] else SexViolations(el, limits, s, n - 1) + CellViolations(el, limits, s, Categories[n - 1])
  }

  /** The violations of the first `k` sexes. */
  function ViolationsUpTo(el: seq<Entry>, limits: Limits, k: nat): seq<Violation>
    requires Complete(limits) && k <= |Sexes|
  {
    if k == 0 then [] else ViolationsUpTo(el, limits, k - 1) + SexViolations(el, limits, Sexes[k - 1], |Categories|)
  }

  /** All violations, in reporting order. */
  function Violations(el: seq<Entry>, limits: Limits): seq<Violation>
    requires Complete(limits)
  {
    ViolationsUpTo(el, limits, |Sexes|)
  }

  /** The two tallies of one sex and category. */
  datatype Tally = Tally(reg: nat, sub: nat) {
    function Inc(k: Slot): (t: Tally)
    {
      if k == Reg then this.(reg := reg + 1) else this.(sub := sub + 1)
    }
  }

  /** One sex's tallies, one per category. */
  datatype SexTallies = SexTallies(indKata: Tally, indKumite: Tally, teamKata: Tally, teamKumite: Tally) {
    function At(c: Category): Tally
    {
      match c
      case IndKata => indKata
      case IndKumite => indKumite
      case TeamKata => teamKata
      case TeamKumite => teamKumite
    }

    function Bumped(c: Category, k: Slot): SexTallies
    {
      match c
      case IndKata => this.(indKata := indKata.Inc(k))
      case IndKumite => this.(indKumite := indKumite.Inc(k))
      case TeamKata => this.(teamKata := teamKata.Inc(k))
      case TeamKumite => this.(teamKumite := teamKumite.Inc(k))
    }
  }

  /** The validator's nested counter `cnt[sex][category][reg|sub]`, its keys fixed. */
  datatype Counter = Counter(male: SexTallies, female: SexTallies) {
    function At(s: Sex, c: Category): Tally
    {
      match s
      case Male => male.At(c)
      case Female => female.At(c)
    }

    /** Adds one to tally `k` of sex `s` and category `c`, leaving the other tallies alone. */
    function Bumped(s: Sex, c: Category, k: Slot): (r: Counter)
      ensures forall s': Sex, c': Category ::
        r.At(s', c') == (if s' == s && c' == c then At(s, c).Inc(k) else At(s', c'))
    {
      match s
      case Male => this.(male := male.Bumped(c, k))
      case Female => this.(female := female.Bumped(c, k))
    }
  }

  const Zero: Counter := Counter(SexTallies(Tally(0, 0), Tally(0, 0), Tally(0, 0), Tally(0, 0)),
                                 SexTallies(Tally(0, 0), Tally(0, 0), Tally(0, 0), Tally(0, 0)))

  /** The counter after entry `e` has added to category `c`'s tally, if it adds to one. */
  ghost function StepIn(cnt: Counter, e: Entry, c: Category): Counter
  {
    match Tallied(e, c)
    case Some(k) => cnt.Bumped(e.sex, c, k)
    case None => cnt
  }

  /** What one pass of the validator's loop body does to the counter: the four categories in turn. */
  ghost function Step(cnt: Counter, e: Entry): Counter
  {
    StepIn(StepIn(StepIn(StepIn(cnt, e, IndKata), e, IndKumite), e, TeamKata), e, TeamKumite)
  }

  /** The counter holds exactly the tallies of `el`. */
  ghost predicate Tallies(cnt: Counter, el: seq<Entry>)
  {
    forall s: Sex, c: Category :: cnt.At(s, c) == Tally(Count(el, s, c, Reg), Count(el, s, c, Sub))
  }

  lemma StepInAt(cnt: Counter, e: Entry, c: Category, s': Sex, c': Category)
    ensures StepIn(cnt, e, c).At(s', c') ==
      if s' == e.sex && c' == c && Tallied(e, c).Some? then cnt.At(s', c').Inc(Tallied(e, c).value) else cnt.At(s', c')
  {
  }

  lemma StepTallies(cnt: Counter, el: seq<Entry>, e: Entry)
    requires Tallies(cnt, el)
    ensures Tallies(Step(cnt, e), el + [e])
  {
    var c1 := StepIn(cnt, e, IndKata);
    var c2 := StepIn(c1, e, IndKumite);
    var c3 := StepIn(c2, e, TeamKata);
    forall s: Sex, c: Category
      ensures Step(cnt, e).At(s, c) == Tally(Count(el + [e], s, c, Reg), Count(el + [e], s, c, Sub))
    {
      StepInAt(cnt, e, IndKata, s, c);
      StepInAt(c1, e, IndKumite, s, c);
      StepInAt(c2, e, TeamKata, s, c);
      StepInAt(c3, e, TeamKumite, s, c);
      CountSnoc(el, e, s, c, Reg);
      CountSnoc(el, e, s, c, Sub);
    }
  }

  lemma CountSnoc(el: seq<Entry>, e: Entry, s: Sex, c: Category, k: Slot)
    ensures Count(el + [e], s, c, k) == Count(el, s, c, k) + (if Adds(e, s, c, k) then 1 else 0)
  {
    assert (el + [e])[..|el|] == el;
  }

  /** The validator's first phase: one pass over the entries filling the counter. */
  method CountEntries(el: seq<Entry>) returns (cnt: Counter)
    ensures Tallies(cnt, el)
  {
    cnt := Zero;
    var i := 0;
    while i < |el|
      invariant 0 <= i <= |el|
      invariant Tallies(cnt, el[..i])
    {
      var e := el[i];
      var s := e.sex;
      ghost var before := cnt;
      if e.kataType == Some(General) {
        cnt := cnt.Bumped(s, IndKata, Reg);
      } else if e.kataType == Some(Alternate) {
        cnt := cnt.Bumped(s, IndKata, Sub);
      }
      assert cnt == StepIn(before, e, IndKata);
      if e.kumiteType == Some(General) {
        cnt := cnt.Bumped(s, IndKumite, Reg);
      } else if e.kumiteType == Some(Alternate) {
        cnt := cnt.Bumped(s, IndKumite, Sub);
      }
      assert cnt == StepIn(StepIn(before, e, IndKata), e, IndKumite);
      if e.teamKataChk {
        cnt := cnt.Bumped(s, TeamKata, if e.teamKataRole == Reserve then Sub else Reg);
      }
      assert cnt == StepIn(StepIn(StepIn(before, e, IndKata), e, IndKumite), e, TeamKata);
      if e.teamKumiChk {
        cnt := cnt.Bumped(s, TeamKumite, if e.teamKumiRole == Reserve then Sub else Reg);
      }
      assert cnt == Step(before, e);
      StepTallies(before, el[..i], e);
      assert el[..i + 1] == el[..i] + [e];
      i := i + 1;
    }
    assert el[..i] == el;
  }

  /**
   * Validates a school's entries against the caps: the error strings are
   * exactly the messages of `Violations(el, limits)`, in order.
   */
  method ValidateEntries(el: seq<Entry>, limits: Limits) returns (errs: seq<string>)
    requires Complete(limits)
    ensures errs == Messages(Violations(el, limits))
  {
    var cnt := CountEntries(el);
    errs := [];
    var si := 0;
    while si < |Sexes|
      invariant 0 <= si <= |Sexes|
      invariant errs == Messages(ViolationsUpTo(el, limits, si))
    {
      var s := Sexes[si];
      var ci := 0;
      ghost var before := ViolationsUpTo(el, limits, si);
      while ci < |Categories|
        invariant 0 <= ci <= |Categories|
        invariant errs == Messages(before + SexViolations(el, limits, s, ci))
      {
        var c := Categories[ci];
        var v: Tally := cnt.At(s, c);
        var lr, ls := limits[c].reg, limits[c].sub;
        var regErr := if v.reg > lr then [Message(Violation(s, c, Reg, v.reg, lr))] else [];
        var subErr := if v.sub > ls then [Message(Violation(s, c, Sub, v.sub, ls))] else [];
        errs := errs + regErr + subErr;
        CellMessages(el, limits, before, s, ci);
        ci := ci + 1;
      }
      si := si + 1;
    }
  }

  /** One category's pass appends its regular message, if any, then its alternate message, if any. */
  lemma CellMessages(el: seq<Entry>, limits: Limits, before: seq<Violation>, s: Sex, ci: nat)
    requires Complete(limits) && ci < |Categories|
    ensures var c := Categories[ci];
      var reg, sub := Count(el, s, c, Reg), Count(el, s, c, Sub);
      Messages(before + SexViolations(el, limits, s, ci + 1)) ==
        Messages(before + SexViolations(el, limits, s, ci))
        + (if reg > limits[c].reg then [Message(Violation(s, c, Reg, reg, limits[c].reg))] else [])
        + (if sub > limits[c].sub then [Message(Violation(s, c, Sub, sub, limits[c].sub))] else [])
  {
    var c := Categories[ci];
    var prefix := before + SexViolations(el, limits, s, ci);
    var cell := CellViolations(el, limits, s, c);
    assert before + SexViolations(el, limits, s, ci + 1) == prefix + cell;
    MessagesConcat(prefix, cell);
  }

  lemma MessagesConcat(a: seq<Violation>, b: seq<Violation>)
    ensures Messages(a + b) == Messages(a) + Messages(b)
  {
  }

  /*
   * What the validator's result means.
   */

  /** The position of a category in the reporting order. */
  function CategoryIndex(c: Category): (i: nat)
    ensures i < |Categories| && Categories[i] == c
  {
    match c
    case IndKata => 0
    case IndKumite => 1
    case TeamKata => 2
    case TeamKumite => 3
  }

  /** The position of a sex in the reporting order. */
  function SexIndex(s: Sex): (i: nat)
    ensures i < |Sexes| && Sexes[i] == s
  {
    match s
    case Male => 0
    case Female => 1
  }

  /** The place of a violation in the reporting order: sex, then category, then regulars before alternates. */
  function Rank(v: Violation): nat
  {
    SexIndex(v.sex) * 8 + CategoryIndex(v.category) * 2 + (if v.slot == Reg then 0 else 1)
  }

  /** `v` reports a tally of `el` that exceeds its cap, with the true count and the cap. */
  ghost predicate Exceeded(el: seq<Entry>, limits: Limits, v: Violation)
    requires Complete(limits)
  {
    && v.count == Count(el, v.sex, v.category, v.slot)
    && v.cap == CapOf(limits[v.category], v.slot)
    && v.count > v.cap
  }

  /** Every tally is within its cap. */
  ghost predicate WithinLimits(el: seq<Entry>, limits: Limits)
    requires Complete(limits)
  {
    forall s: Sex, c: Category ::
      Count(el, s, c, Reg) <= limits[c].reg && Count(el, s, c, Sub) <= limits[c].sub
  }

  ghost predicate StrictlyOrdered(vs: seq<Violation>)
  {
    forall i, j :: 0 <= i < j < |vs| ==> Rank(vs[i]) < Rank(vs[j])
  }

  lemma ViolationsSplit(el: seq<Entry>, limits: Limits)
    requires Complete(limits)
    ensures Violations(el, limits) ==
      SexViolations(el, limits, Male, |Categories|) + SexViolations(el, limits, Female, |Categories|)
  {
    assert ViolationsUpTo(el, limits, 1) == [] + SexViolations(el, limits, Male, |Categories|);
  }

  lemma CellMember(el: seq<Entry>, limits: Limits, s: Sex, c: Category, v: Violation)
    requires Complete(limits)
    ensures v in CellViolations(el, limits, s, c) <==> v.sex == s && v.category == c && Exceeded(el, limits, v)
  {
  }

  lemma {:induction false} SexMember(el: seq<Entry>, limits: Limits, s: Sex, n: nat, v: Violation)
    requires Complete(limits) && n <= |Categories|
    ensures v in SexViolations(el, limits, s, n) <==>
      v.sex == s && CategoryIndex(v.category) < n && Exceeded(el, limits, v)
  {
    if n > 0 {
      SexMember(el, limits, s, n - 1, v);
      CellMember(el, limits, s, Categories[n - 1], v);
    }
  }

  /** A violation is reported exactly when it names a tally above its cap, with the true count and cap. */
  lemma ViolationMember(el: seq<Entry>, limits: Limits, v: Violation)
    requires Complete(limits)
    ensures v in Violations(el, limits) <==> Exceeded(el, limits, v)
  {
    SexMember(el, limits, Male, |Categories|, v);
    SexMember(el, limits, Female, |Categories|, v);
    ViolationsSplit(el, limits);
  }

  /** The validator reports nothing exactly when every tally of both sexes is within its cap. */
  lemma ViolationsEmptyIff(el: seq<Entry>, limits: Limits)
    requires Complete(limits)
    ensures Violations(el, limits) == [] <==> WithinLimits(el, limits)
  {
    if Violations(el, limits) == [] {
      forall s: Sex, c: Category
        ensures Count(el, s, c, Reg) <= limits[c].reg && Count(el, s, c, Sub) <= limits[c].sub
      {
        ViolationMember(el, limits, Violation(s, c, Reg, Count(el, s, c, Reg), limits[c].reg));
        ViolationMember(el, limits, Violation(s, c, Sub, Count(el, s, c, Sub), limits[c].sub));
      }
    } else {
      ViolationMember(el, limits, Violations(el, limits)[0]);
    }
  }

  lemma OrderedConcat(a: seq<Violation>, b: seq<Violation>)
    requires StrictlyOrdered(a) && StrictlyOrdered(b)
    requires forall i, j :: 0 <= i < |a| && 0 <= j < |b| ==> Rank(a[i]) < Rank(b[j])
    ensures StrictlyOrdered(a + b)
  {
  }

  /** The violations of one (sex, category) pair sit in the two ranks of that pair, regulars first. */
  lemma CellOrdered(el: seq<Entry>, limits: Limits, s: Sex, n: nat)
    requires Complete(limits) && n < |Categories|
    ensures StrictlyOrdered(CellViolations(el, limits, s, Categories[n]))
    ensures forall v :: v in CellViolations(el, limits, s, Categories[n]) ==>
      SexIndex(s) * 8 + 2 * n <= Rank(v) < SexIndex(s) * 8 + 2 * n + 2
  {
    assert CategoryIndex(Categories[n]) == n;
  }

  lemma {:induction false} SexOrdered(el: seq<Entry>, limits: Limits, s: Sex, n: nat)
    requires Complete(limits) && n <= |Categories|
    ensures StrictlyOrdered(SexViolations(el, limits, s, n))
    ensures forall v :: v in SexViolations(el, limits, s, n) ==>
      SexIndex(s) * 8 <= Rank(v) < SexIndex(s) * 8 + 2 * n
  {
    if n > 0 {
      SexOrdered(el, limits, s, n - 1);
      CellOrdered(el, limits, s, n - 1);
      var a, b := SexViolations(el, limits, s, n - 1), CellViolations(el, limits, s, Categories[n - 1]);
      forall i, j | 0 <= i < |a| && 0 <= j < |b|
        ensures Rank(a[i]) < Rank(b[j])
      {
        assert a[i] in a && b[j] in b;
      }
      OrderedConcat(a, b);
    }
  }

  /**
   * The violations come in reporting order: `男子` before `女子`, then
   * ind_kata, ind_kumite, team_kata, team_kumite, regulars before
   * alternates; so no tally is reported twice.
   */
  lemma ViolationsOrdered(el: seq<Entry>, limits: Limits)
    requires Complete(limits)
    ensures StrictlyOrdered(Violations(el, limits))
  {
    var a, b := SexViolations(el, limits, Male, |Categories|), SexViolations(el, limits, Female, |Categories|);
    SexOrdered(el, limits, Male, |Categories|);
    SexOrdered(el, limits, Female, |Categories|);
    ViolationsSplit(el, limits);
    forall i, j | 0 <= i < |a| && 0 <= j < |b|
      ensures Rank(a[i]) < Rank(b[j])
    {
      assert a[i] in a && b[j] in b;
    }
    OrderedConcat(a, b);
  }

  /**
   * The counting rule for the individual categories, one entry at a time:
   * `一般` adds a regular and `補欠` an alternate; `シード` and no type add nothing.
   */
  lemma IndividualCountingRule(el: seq<Entry>, e: Entry)
    ensures Count(el + [e], e.sex, IndKata, Reg) == Count(el, e.sex, IndKata, Reg) + (if e.kataType == Some(General) then 1 else 0)
    ensures Count(el + [e], e.sex, IndKata, Sub) == Count(el, e.sex, IndKata, Sub) + (if e.kataType == Some(Alternate) then 1 else 0)
    ensures Count(el + [e], e.sex, IndKumite, Reg) == Count(el, e.sex, IndKumite, Reg) + (if e.kumiteType == Some(General) then 1 else 0)
    ensures Count(el + [e], e.sex, IndKumite, Sub) == Count(el, e.sex, IndKumite, Sub) + (if e.kumiteType == Some(Alternate) then 1 else 0)
  {
    CountSnoc(el, e, e.sex, IndKata, Reg);
    CountSnoc(el, e, e.sex, IndKata, Sub);
    CountSnoc(el, e, e.sex, IndKumite, Reg);
    CountSnoc(el, e, e.sex, IndKumite, Sub);
  }

  /**
   * The counting rule for the team categories, one entry at a time: a team
   * category adds only when checked, as an alternate exactly when its role is `補欠`.
   */
  lemma TeamCountingRule(el: seq<Entry>, e: Entry)
    ensures Count(el + [e], e.sex, TeamKata, Reg) == Count(el, e.sex, TeamKata, Reg) + (if e.teamKataChk && e.teamKataRole != Reserve then 1 else 0)
    ensures Count(el + [e], e.sex, TeamKata, Sub) == Count(el, e.sex, TeamKata, Sub) + (if e.teamKataChk && e.teamKataRole == Reserve then 1 else 0)
    ensures Count(el + [e], e.sex, TeamKumite, Reg) == Count(el, e.sex, TeamKumite, Reg) + (if e.teamKumiChk && e.teamKumiRole != Reserve then 1 else 0)
    ensures Count(el + [e], e.sex, TeamKumite, Sub) == Count(el, e.sex, TeamKumite, Sub) + (if e.teamKumiChk && e.teamKumiRole == Reserve then 1 else 0)
  {
    CountSnoc(el, e, e.sex, TeamKata, Reg);
    CountSnoc(el, e, e.sex, TeamKata, Sub);
    CountSnoc(el, e, e.sex, TeamKumite, Reg);
    CountSnoc(el, e, e.sex, TeamKumite, Sub);
  }

  /** An entry leaves the other sex's tallies where they were. */
  lemma OtherSexCountingRule(el: seq<Entry>, e: Entry)
    ensures forall s: Sex, c: Category, k: Slot :: s != e.sex ==> Count(el + [e], s, c, k) == Count(el, s, c, k)
  {
    forall s: Sex, c: Category, k: Slot | s != e.sex
      ensures Count(el + [e], s, c, k) == Count(el, s, c, k)
    {
      CountSnoc(el, e, s, c, k);
    }
  }

  lemma {:induction false} CountAppend(a: seq<Entry>, b: seq<Entry>, s: Sex, c: Category, k: Slot)
    ensures Count(a + b, s, c, k) == Count(a, s, c, k) + Count(b, s, c, k)
  {
    if b == [] {
      assert a + b == a;
    } else {
      var b' := b[..|b| - 1];
      CountAppend(a, b', s, c, k);
      assert (a + b)[..|a + b| - 1] == a + b';
    }
  }

  lemma MultisetCancel(a: seq<Entry>, x: Entry, l: seq<Entry>, r: seq<Entry>)
    requires multiset(a + [x]) == multiset(l + [x] + r)
    ensures multiset(a) == multiset(l + r)
  {
    assert multiset(a + [x]) == multiset(a) + multiset{x};
    assert multiset(l + [x] + r) == multiset(l + r) + multiset{x};
    forall y ensures multiset(a)[y] == multiset(l + r)[y] {
      assert (multiset(a) + multiset{x})[y] == (multiset(l + r) + multiset{x})[y];
    }
  }

  /** Cuts `b` around an occurrence of the last entry of `a`, leaving two sequences with the same entries. */
  lemma SplitLast(a: seq<Entry>, b: seq<Entry>) returns (l: seq<Entry>, r: seq<Entry>)
    requires a != [] && multiset(a) == multiset(b)
    ensures b == l + [a[|a| - 1]] + r
    ensures multiset(a[..|a| - 1]) == multiset(l + r)
  {
    var x, a' := a[|a| - 1], a[..|a| - 1];
    assert a == a' + [x];
    assert x in multiset(b);
    var j :| 0 <= j < |b| && b[j] == x;
    l, r := b[..j], b[j + 1..];
    assert b == l + [x] + r;
    MultisetCancel(a', x, l, r);
  }

  /** Taking one entry out of the middle removes exactly its own contribution. */
  lemma CountMiddle(l: seq<Entry>, x: Entry, r: seq<Entry>, s: Sex, c: Category, k: Slot)
    ensures Count(l + [x] + r, s, c, k) == Count(l + r, s, c, k) + Count([x], s, c, k)
  {
    CountAppend(l, r, s, c, k);
    CountAppend(l + [x], r, s, c, k);
    CountAppend(l, [x], s, c, k);
  }

  /** A tally depends only on which entries there are, not on their order. */
  lemma {:induction false} CountPermutation(a: seq<Entry>, b: seq<Entry>, s: Sex, c: Category, k: Slot)
    requires multiset(a) == multiset(b)
    ensures Count(a, s, c, k) == Count(b, s, c, k)
    decreases |a|
  {
    if a == [] {
      assert |b| == |multiset(b)| == 0;
    } else {
      var x, a' := a[|a| - 1], a[..|a| - 1];
      var l, r := SplitLast(a, b);
      CountPermutation(a', l + r, s, c, k);
      CountMiddle(l, x, r, s, c, k);
      CountAppend(a', [x], s, c, k);
      assert a == a' + [x];
    }
  }

  lemma {:induction false} SexViolationsSameCounts(a: seq<Entry>, b: seq<Entry>, limits: Limits, s: Sex, n: nat)
    requires Complete(limits) && n <= |Categories|
    requires forall c: Category, k: Slot :: Count(a, s, c, k) == Count(b, s, c, k)
    ensures SexViolations(a, limits, s, n) == SexViolations(b, limits, s, n)
  {
    if n > 0 {
      SexViolationsSameCounts(a, b, limits, s, n - 1);
    }
  }

  /** Reordering the entries (the form lists `男子` before `女子`) does not change the report. */
  lemma ViolationsPermutation(a: seq<Entry>, b: seq<Entry>, limits: Limits)
    requires Complete(limits) && multiset(a) == multiset(b)
    ensures Violations(a, limits) == Violations(b, limits)
  {
    forall s: Sex, c: Category, k: Slot
      ensures Count(a, s, c, k) == Count(b, s, c, k)
    {
      CountPermutation(a, b, s, c, k);
    }
    SexViolationsSameCounts(a, b, limits, Male, |Categories|);
    SexViolationsSameCounts(a, b, limits, Female, |Categories|);
    ViolationsSplit(a, limits);
    ViolationsSplit(b, limits);
  }
}
