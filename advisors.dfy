/**
 * A school's advisor list as the advisor tab edits it: an advisor moves up
 * one place by swapping with the one above, can be deleted, and a blank one
 * can be appended; whoever is first in the list is the head advisor.
 */
module Advisors {
  /** One advisor: name, duty (`審判`, `競技記録` or `係員`) and attendance on day 1 and day 2. */
  datatype Advisor = Advisor(name: string, role: string, day1: bool, day2: bool)

  /** The advisor the `＋` button appends: no name, referee duty, attending both days. */
  const NewAdvisor: Advisor := Advisor("", "審判", true, true)

  /** The list with the advisors at `i - 1` and `i` exchanged. */
  function Swapped(advs: seq<Advisor>, i: nat): (r: seq<Advisor>)
    requires 1 <= i < |advs|
    ensures |r| == |advs|
    ensures r[i - 1] == advs[i] && r[i] == advs[i - 1]
    ensures forall j :: 0 <= j < |advs| && j != i && j != i - 1 ==> r[j] == advs[j]
  {
    advs[i - 1 := advs[i]][i := advs[i - 1]]
  }

  /** The list without the advisor at `i`, the others keeping their order. */
  function Removed(advs: seq<Advisor>, i: nat): (r: seq<Advisor>)
    requires i < |advs|
    ensures |r| == |advs| - 1
    ensures forall j :: 0 <= j < i ==> r[j] == advs[j]
    ensures forall j :: i <= j < |r| ==> r[j] == advs[j + 1]
  {
    advs[..i] + advs[i + 1..]
  }

  /** The head advisor's name: the first advisor's, or empty when there is none. */
  function HeadName(advs: seq<Advisor>): string
  {
    if advs == [] then "" else advs[0].name
  }

  /** The title the advisor list report gives the advisor at position `i`. */
  function Position(i: nat): string
  {
    if i == 0 then "筆頭顧問" else "顧問"
  }

  /** Exactly one advisor of a non-empty list is titled head advisor, and it is the one `HeadName` reports. */
  lemma HeadIsFirst(advs: seq<Advisor>)
    ensures forall i :: 0 <= i < |advs| ==> (Position(i) == "筆頭顧問" <==> i == 0)
    ensures advs != [] ==> HeadName(advs) == advs[0].name
  {
  }

  /** Moving up keeps the same advisors and is undone by moving the same advisor up again. */
  lemma SwappedPermutes(advs: seq<Advisor>, i: nat)
    requires 1 <= i < |advs|
    ensures multiset(Swapped(advs, i)) == multiset(advs)
    ensures Swapped(Swapped(advs, i), i) == advs
  {
  }

  /** Moving the second advisor up makes them head advisor. */
  lemma SwappedHead(advs: seq<Advisor>)
    requires 2 <= |advs|
    ensures HeadName(Swapped(advs, 1)) == advs[1].name
  {
  }

  /** Deleting drops exactly the deleted advisor; deleting the head hands the title to the next one. */
  lemma {:induction false} RemovedDrops(advs: seq<Advisor>, i: nat)
    requires i < |advs|
    ensures multiset(Removed(advs, i)) + multiset{advs[i]} == multiset(advs)
    ensures i == 0 && |advs| > 1 ==> HeadName(Removed(advs, 0)) == advs[1].name
    ensures i == 0 && |advs| == 1 ==> HeadName(Removed(advs, 0)) == ""
    ensures i > 0 ==> HeadName(Removed(advs, i)) == HeadName(advs)
  {
    assert advs == advs[..i] + [advs[i]] + advs[i + 1..];
  }

  /**
   * The advisor tab of one school: the principal's name, the advisor list,
   * and whether the school has a profile in the stored documents. A school
   * without one is shown a blank profile that is not part of the stored
   * documents until it is saved.
   */
  class AdvisorTab {
    var principal: string
    var advisors: seq<Advisor>
    var stored: bool

    /** An unstored profile is the blank one. */
    predicate Valid()
      reads this
    {
      !stored ==> principal == "" && advisors == []
    }

    /** The tab of a school with a stored profile. */
    constructor(principal: string, advisors: seq<Advisor>)
      ensures this.principal == principal && this.advisors == advisors && stored
      ensures Valid()
    {
      this.principal := principal;
      this.advisors := advisors;
      stored := true;
    }

    /** The tab of a school without a stored profile. */
    constructor Blank()
      ensures principal == "" && advisors == [] && !stored
      ensures Valid()
    {
      principal := "";
      advisors := [];
      stored := false;
    }

    /** The `↑` button of advisor `i` (shown from the second advisor on). */
    method MoveUp(i: nat)
      requires 1 <= i < |advisors|
      modifies this
      ensures advisors == Swapped(old(advisors), i)
      ensures principal == old(principal) && stored == old(stored)
      ensures old(Valid()) ==> Valid()
    {
      var a := advisors[i];
      advisors := advisors[i := advisors[i - 1]][i - 1 := a];
    }

    /** The `×` button of advisor `i`. */
    method Remove(i: nat)
      requires i < |advisors|
      modifies this
      ensures advisors == Removed(old(advisors), i)
      ensures principal == old(principal) && stored == old(stored)
      ensures old(Valid()) ==> Valid()
    {
      advisors := advisors[..i] + advisors[i + 1..];
    }

    /**
     * The `＋ 顧問を追加` button: a stored profile gains a blank advisor; on
     * an unstored one the append goes to the blank profile, which is not
     * saved, so the tab shows the same empty list again.
     */
    method Add()
      modifies this
      ensures stored ==> advisors == old(advisors) + [NewAdvisor]
      ensures !stored ==> advisors == old(advisors)
      ensures principal == old(principal) && stored == old(stored)
      ensures old(Valid()) ==> Valid()
    {
      if stored {
        advisors := advisors + [NewAdvisor];
      }
    }

    /** The `保存` button: the principal typed in and the list shown are stored. */
    method Save(newPrincipal: string)
      modifies this
      ensures principal == newPrincipal && advisors == old(advisors) && stored
      ensures Valid()
    {
      principal := newPrincipal;
      stored := true;
    }

    /** The head advisor the application sheet shows. */
    function Head(): string
      reads this
    {
      HeadName(advisors)
    }
  }
}
