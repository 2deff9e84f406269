/**
 * The settings document and its repair on load: whatever the store returns,
 * `limits` ends up holding all four categories, each with `reg` and `sub`.
 */
module Settings {
  import opened Wrappers
  import opened Decimal
  import opened Entries
  import Validation

  /** A JSON value as the settings document stores it (numbers are integers here). */
  datatype Json = JNull | JBool(b: bool) | JNum(n: int) | JStr(s: string) | JArr(items: seq<Json>) | JObj(fields: map<string, Json>)

  /** The default caps: 4/2 for the individual categories, 3/1 for team kata, 5/2 for team kumite. */
  function DefaultCap(c: Category): Validation.Cap
  {
    match c
    case IndKata => Validation.Cap(4, 2)
    case IndKumite => Validation.Cap(4, 2)
    case TeamKata => Validation.Cap(3, 1)
    case TeamKumite => Validation.Cap(5, 2)
  }

  function CapJson(cap: Validation.Cap): Json
  {
    JObj(map["reg" := JNum(cap.reg), "sub" := JNum(cap.sub)])
  }

  /** The fields of a cap object. */
  function CapFields(cap: Validation.Cap): map<string, Json>
  {
    map["reg" := JNum(cap.reg), "sub" := JNum(cap.sub)]
  }

  const DefaultLimits: map<string, Json> :=
    map["ind_kata" := JObj(CapFields(DefaultCap(IndKata))),
        "ind_kumite" := JObj(CapFields(DefaultCap(IndKumite))),
        "team_kata" := JObj(CapFields(DefaultCap(TeamKata))),
        "team_kumite" := JObj(CapFields(DefaultCap(TeamKumite)))]

  const DefaultSettings: map<string, Json> :=
    map["year" := JStr(""), "name" := JStr(""), "limits" := JObj(DefaultLimits)]

  /** The category a `limits` key names, if it names one. */
  function CategoryOf(k: string): (r: Option<Category>)
    ensures r.Some? ==> CategoryKey(r.value) == k
  {
    if k == "ind_kata" then Some(IndKata)
    else if k == "ind_kumite" then Some(IndKumite)
    else if k == "team_kata" then Some(TeamKata)
    else if k == "team_kumite" then Some(TeamKumite)
    else None
  }

  lemma CategoryOfKey(c: Category)
    ensures CategoryOf(CategoryKey(c)) == Some(c)
  {
  }

  /** A category's entry in `limits` is an object with both `reg` and `sub`. */
  predicate CapComplete(v: Json)
  {
    v.JObj? && "reg" in v.fields && "sub" in v.fields
  }

  /** All four categories are present in `limits`, each with both caps. */
  predicate LimitsComplete(lim: map<string, Json>)
  {
    forall c: Category :: CategoryKey(c) in lim && CapComplete(lim[CategoryKey(c)])
  }

  /**
   * The repaired value of one category's entry: the default when the key is
   * missing or not an object, otherwise the stored object with a missing
   * `reg` or `sub` taken from the default.
   */
  function CompletedCap(lim: map<string, Json>, c: Category): (v: Json)
    ensures CapComplete(v)
  {
    var k := CategoryKey(c);
    if k !in lim || !lim[k].JObj? then JObj(CapFields(DefaultCap(c)))
    else JObj(CapFields(DefaultCap(c)) + lim[k].fields)
  }

  /**
   * A stored cap object keeps every field it has and gains only the missing
   * `reg`/`sub`, valued from the default; a missing or non-object entry
   * becomes the default object.
   */
  lemma CompletedCapKeeps(lim: map<string, Json>, c: Category)
    ensures var v := CompletedCap(lim, c);
      if CategoryKey(c) in lim && lim[CategoryKey(c)].JObj? then
        var stored := lim[CategoryKey(c)].fields;
        && v.fields.Keys == stored.Keys + {"reg", "sub"}
        && (forall f :: f in stored ==> v.fields[f] == stored[f])
        && (forall f :: f in v.fields && f !in stored ==> v.fields[f] == CapFields(DefaultCap(c))[f])
      else
        v == JObj(CapFields(DefaultCap(c)))
  {
  }

  /** One pass of the repair loop: category `c`'s entry replaced by its repaired value. */
  function Repaired(lim: map<string, Json>, c: Category): map<string, Json>
  {
    lim[CategoryKey(c) := CompletedCap(lim, c)]
  }

  /** The `limits` map after the repair loop has handled the first `n` categories. */
  function RepairedUpTo(lim: map<string, Json>, n: nat): map<string, Json>
    requires n <= |Validation.Categories|
  {
    if n == 0 then lim else Repaired(RepairedUpTo(lim, n - 1), Validation.Categories[n - 1])
  }

  /** A key is repaired by the first `n` passes when it names one of the first `n` categories. */
  predicate DoneBy(k: string, n: nat)
  {
    CategoryOf(k).Some? && Validation.CategoryIndex(CategoryOf(k).value) < n
  }

  lemma {:induction false} RepairedUpToAt(lim: map<string, Json>, n: nat, k: string)
    requires n <= |Validation.Categories|
    ensures k in RepairedUpTo(lim, n) <==> k in lim || DoneBy(k, n)
    ensures k in RepairedUpTo(lim, n) ==>
      RepairedUpTo(lim, n)[k] == if DoneBy(k, n) then CompletedCap(lim, CategoryOf(k).value) else lim[k]
  {
    if n > 0 {
      var c := Validation.Categories[n - 1];
      assert Validation.CategoryIndex(c) == n - 1;
      RepairedUpToAt(lim, n - 1, k);
      if k == CategoryKey(c) {
        CategoryOfKey(c);
        assert !DoneBy(k, n - 1);
        assert CompletedCap(RepairedUpTo(lim, n - 1), c) == CompletedCap(lim, c);
      } else {
        assert DoneBy(k, n) == DoneBy(k, n - 1);
      }
    }
  }

  /** The `limits` map after the repair loop. */
  function CompleteLimits(lim: map<string, Json>): (r: map<string, Json>)
    ensures LimitsComplete(r)
  {
    var r := RepairedUpTo(lim, |Validation.Categories|);
    assert forall c: Category :: CategoryKey(c) in r && CapComplete(r[CategoryKey(c)]) by {
      forall c: Category ensures CategoryKey(c) in r && r[CategoryKey(c)] == CompletedCap(lim, c) {
        CategoryOfKey(c);
        RepairedUpToAt(lim, |Validation.Categories|, CategoryKey(c));
      }
    }
    r
  }

  /**
   * The repair adds exactly the missing category keys, repairs each
   * category's entry, and leaves every other key of `limits` as it was.
   */
  lemma CompleteLimitsSpec(lim: map<string, Json>)
    ensures forall k :: k in CompleteLimits(lim) <==> k in lim || CategoryOf(k).Some?
    ensures forall k :: k in lim && CategoryOf(k).None? ==> CompleteLimits(lim)[k] == lim[k]
    ensures forall c: Category :: CompleteLimits(lim)[CategoryKey(c)] == CompletedCap(lim, c)
  {
    var r := CompleteLimits(lim);
    forall k ensures k in r <==> k in lim || CategoryOf(k).Some? {
      RepairedUpToAt(lim, |Validation.Categories|, k);
    }
    forall k | k in lim && CategoryOf(k).None? ensures r[k] == lim[k] {
      RepairedUpToAt(lim, |Validation.Categories|, k);
    }
    forall c: Category ensures r[CategoryKey(c)] == CompletedCap(lim, c) {
      CategoryOfKey(c);
      RepairedUpToAt(lim, |Validation.Categories|, CategoryKey(c));
    }
  }

  /** The `limits` object the repair starts from: the stored one when it is an object, else the defaults. */
  function StoredLimits(data: map<string, Json>): map<string, Json>
  {
    if "limits" in data && data["limits"].JObj? then data["limits"].fields else DefaultLimits
  }

  /** The settings document as the loader returns it. */
  function Normalize(loaded: Json): (data: map<string, Json>)
    ensures "limits" in data && data["limits"].JObj? && LimitsComplete(data["limits"].fields)
  {
    var base := if loaded.JObj? then loaded.fields else DefaultSettings;
    base["limits" := JObj(CompleteLimits(StoredLimits(base)))]
  }

  /**
   * Loading keeps every other top-level key of a stored object as it is;
   * anything that is not an object yields the default document with an
   * empty year and name.
   */
  lemma NormalizeKeeps(loaded: Json)
    ensures !loaded.JObj? ==> Normalize(loaded).Keys == {"year", "name", "limits"}
    ensures !loaded.JObj? ==> Normalize(loaded)["year"] == JStr("") && Normalize(loaded)["name"] == JStr("")
    ensures loaded.JObj? ==> Normalize(loaded).Keys == loaded.fields.Keys + {"limits"}
    ensures loaded.JObj? ==> forall k :: k in loaded.fields && k != "limits" ==> Normalize(loaded)[k] == loaded.fields[k]
  {
  }

  /**
   * Loads the settings: a stored value that is not an object is replaced by
   * the defaults, a missing or malformed `limits` by the default limits, and
   * then every category's entry of `limits` is repaired in place.
   */
  method LoadSettings(loaded: Json) returns (data: map<string, Json>)
    ensures data == Normalize(loaded)
  {
    data := if loaded.JObj? then loaded.fields else DefaultSettings;
    ghost var base := data;
    if "limits" !in data || !data["limits"].JObj? {
      data := data["limits" := JObj(DefaultLimits)];
    }
    assert data["limits"].fields == StoredLimits(base);
    ghost var mid := data;
    var lim := RepairLimits(data["limits"].fields);
    data := data["limits" := JObj(lim)];
    Overwrite(base, mid, "limits", JObj(lim));
  }

  /** Setting a key overrides whatever an earlier update of the same key put there. */
  lemma Overwrite(base: map<string, Json>, mid: map<string, Json>, k: string, v: Json)
    requires forall k' :: k' != k ==> (k' in mid <==> k' in base) && (k' in base ==> mid[k'] == base[k'])
    ensures mid[k := v] == base[k := v]
  {
  }

  /** The loop over the categories that repairs `limits` one entry at a time. */
  method RepairLimits(lim0: map<string, Json>) returns (lim: map<string, Json>)
    ensures lim == CompleteLimits(lim0)
  {
    lim := lim0;
    var i := 0;
    while i < |Validation.Categories|
      invariant 0 <= i <= |Validation.Categories|
      invariant lim == RepairedUpTo(lim0, i)
    {
      var c := Validation.Categories[i];
      var key := CategoryKey(c);
      var val := CapFields(DefaultCap(c));
      ghost var prev := lim;
      if key !in lim || !lim[key].JObj? {
        lim := lim[key := JObj(val)];
      } else {
        var f := lim[key].fields;
        if "reg" !in f {
          f := f["reg" := val["reg"]];
        }
        if "sub" !in f {
          f := f["sub" := val["sub"]];
        }
        FillMissing(prev[key].fields, val["reg"], val["sub"]);
        lim := lim[key := JObj(f)];
      }
      assert lim == Repaired(prev, c);
      i := i + 1;
    }
  }

  /** Setting a missing `reg`, then a missing `sub`, is the stored object over the default one. */
  lemma FillMissing(f0: map<string, Json>, reg: Json, sub: Json)
    ensures var f1 := if "reg" !in f0 then f0["reg" := reg] else f0;
            var f2 := if "sub" !in f1 then f1["sub" := sub] else f1;
            f2 == map["reg" := reg, "sub" := sub] + f0
  {
  }

  /** A complete cap object is its own repair. */
  lemma CompletedCapFixed(lim: map<string, Json>, c: Category)
    requires CategoryKey(c) in lim && CapComplete(lim[CategoryKey(c)])
    ensures CompletedCap(lim, c) == lim[CategoryKey(c)]
  {
    var f := lim[CategoryKey(c)].fields;
    assert CapFields(DefaultCap(c)) + f == f;
  }

  /** Repairing an already repaired `limits` map changes nothing. */
  lemma CompleteLimitsIdempotent(lim: map<string, Json>)
    ensures CompleteLimits(CompleteLimits(lim)) == CompleteLimits(lim)
  {
    var r := CompleteLimits(lim);
    var r2 := CompleteLimits(r);
    CompleteLimitsSpec(r);
    forall k | k in r
      ensures r2[k] == r[k]
    {
      if CategoryOf(k).Some? {
        CompletedCapFixed(r, CategoryOf(k).value);
      }
    }
    assert r2.Keys == r.Keys;
  }

  /** Loading settings that were saved after a load gives them back unchanged. */
  lemma NormalizeIdempotent(loaded: Json)
    ensures Normalize(JObj(Normalize(loaded))) == Normalize(loaded)
  {
    var data := Normalize(loaded);
    CompleteLimitsIdempotent(StoredLimits(if loaded.JObj? then loaded.fields else DefaultSettings));
    assert StoredLimits(data) == data["limits"].fields;
  }

  /**
   * Python's `int(...)` on a stored cap: an integer is itself, a boolean is 0
   * or 1, a string must be an optionally negated run of ASCII digits;
   * anything else raises.
   */
  function ToInt(j: Json): (r: Option<int>)
    ensures j.JNum? ==> r == Some(j.n)
    ensures j.JStr? ==> r == ParseInt(j.s)
    ensures j.JNull? || j.JArr? || j.JObj? ==> r == None
  {
    match j
    case JNum(n) => Some(n)
    case JBool(b) => Some(if b then 1 else 0)
    case JStr(s) => ParseInt(s)
    case _ => None
  }

  /** Every category is one the loops visit. */
  lemma CategoryListed(c: Category)
    ensures c in Validation.Categories
  {
    assert Validation.Categories[Validation.CategoryIndex(c)] == c;
  }

  /**
   * The integer caps the validator reads from a repaired `limits` map,
   * or `None` when one of them does not convert.
   */
  function LimitCaps(lim: map<string, Json>): (r: Option<Validation.Limits>)
    requires LimitsComplete(lim)
    ensures r.Some? <==> forall c: Category ::
      ToInt(lim[CategoryKey(c)].fields["reg"]).Some? && ToInt(lim[CategoryKey(c)].fields["sub"]).Some?
    ensures r.Some? ==> Validation.Complete(r.value)
    ensures r.Some? ==> forall c: Category ::
      Some(r.value[c].reg) == ToInt(lim[CategoryKey(c)].fields["reg"]) &&
      Some(r.value[c].sub) == ToInt(lim[CategoryKey(c)].fields["sub"])
  {
    assert forall c: Category :: c in Validation.Categories by {
      forall c: Category ensures c in Validation.Categories {
        CategoryListed(c);
      }
    }
    if forall c: Category :: ToInt(lim[CategoryKey(c)].fields["reg"]).Some? && ToInt(lim[CategoryKey(c)].fields["sub"]).Some?
    then Some(map c: Category | c in Validation.Categories ::
      Validation.Cap(ToInt(lim[CategoryKey(c)].fields["reg"]).value, ToInt(lim[CategoryKey(c)].fields["sub"]).value))
    else None
  }

  /** The default settings give the default caps to the validator. */
  lemma DefaultCaps()
    ensures LimitsComplete(DefaultLimits)
    ensures LimitCaps(DefaultLimits).Some?
    ensures forall c: Category :: LimitCaps(DefaultLimits).value[c] == DefaultCap(c)
  {
    forall c: Category
      ensures CategoryKey(c) in DefaultLimits && DefaultLimits[CategoryKey(c)] == JObj(CapFields(DefaultCap(c)))
    {
      DefaultLimitsAt(c);
    }
  }

  lemma DefaultLimitsAt(c: Category)
    ensures CategoryKey(c) in DefaultLimits && DefaultLimits[CategoryKey(c)] == JObj(CapFields(DefaultCap(c)))
  {
  }
}
