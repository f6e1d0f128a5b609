/**
 * The compliance rule set and the three classifiers of utils/compliance.py.
 *
 * A detection is sorted into one bucket by its confidence and by set membership of its
 * normalised class name: below the threshold it is skipped; otherwise a prohibited name wins
 * over an approved one, and a name in neither set is neutral. The three classifiers differ
 * only in what they do with a neutral detection: the manager's `check_compliance` lists it as
 * neutral, the module-level `is_compliant` flags it as "Not in approved list", and
 * `get_compliance_details` reports it as unknown.
 */
module Compliance {
  import opened Text
  import opened Config

  // ---------------------------------------------------------------- detections and buckets

  /** One detection of the clothing detector; `confidence` is on the 0..1 scale. */
  datatype Detection = Detection(className: string, confidence: real, bbox: seq<real>)

  datatype Category = LowConfidence | Prohibited | Approved | Neutral

  /** The bucket of one detection under the sets `prohibited` and `approved`. */
  function CategoryOf(d: Detection, prohibited: set<string>, approved: set<string>,
                      minConfidence: real): Category {
    if d.confidence < minConfidence then LowConfidence
    else if Normalise(d.className) in prohibited then Prohibited
    else if Normalise(d.className) in approved then Approved
    else Neutral
  }

  /** The detections whose bucket is one of `cats`, in detection order. */
  function Select(dets: seq<Detection>, prohibited: set<string>, approved: set<string>,
                  minConfidence: real, cats: set<Category>): seq<Detection>
  {
    if dets == [] then []
    else
      var last := dets[|dets| - 1];
      Select(dets[..|dets| - 1], prohibited, approved, minConfidence, cats) +
        (if CategoryOf(last, prohibited, approved, minConfidence) in cats then [last] else [])
  }

  /** `[item["class"] for item in ds]`: the class names as the detector spelled them. */
  function ClassNames(ds: seq<Detection>): seq<string> {
    seq(|ds|, i requires 0 <= i < |ds| => ds[i].className)
  }

  /** The distinct normalised class names of the detections at or above the threshold. */
  function HighClasses(dets: seq<Detection>, minConfidence: real): set<string> {
    set i | 0 <= i < |dets| && dets[i].confidence >= minConfidence :: Normalise(dets[i].className)
  }

  /** The selection holds exactly the detections of the chosen buckets, in order. */
  lemma {:induction false} SelectExact(dets: seq<Detection>, prohibited: set<string>,
                                       approved: set<string>, minConfidence: real,
                                       cats: set<Category>)
    ensures forall d :: d in Select(dets, prohibited, approved, minConfidence, cats) ==>
      d in dets && CategoryOf(d, prohibited, approved, minConfidence) in cats
    ensures Select(dets, prohibited, approved, minConfidence, cats) == [] <==>
      forall i :: 0 <= i < |dets| ==> CategoryOf(dets[i], prohibited, approved, minConfidence) !in cats
  {
    if dets != [] {
      var init := dets[..|dets| - 1];
      SelectExact(init, prohibited, approved, minConfidence, cats);
      assert dets == init + [dets[|dets| - 1]];
      assert forall i :: 0 <= i < |init| ==> init[i] == dets[i];
    }
  }

  /** Every detection of a chosen bucket is selected. */
  lemma {:induction false} SelectComplete(dets: seq<Detection>, prohibited: set<string>,
                                          approved: set<string>, minConfidence: real,
                                          cats: set<Category>)
    ensures forall d :: d in dets && CategoryOf(d, prohibited, approved, minConfidence) in cats ==>
      d in Select(dets, prohibited, approved, minConfidence, cats)
  {
    if dets != [] {
      var init := dets[..|dets| - 1];
      SelectComplete(init, prohibited, approved, minConfidence, cats);
      assert dets == init + [dets[|dets| - 1]];
    }
  }

  /** Every detection lands in exactly one bucket: the four bucket sizes add up to the total. */
  lemma {:induction false} BucketsPartition(dets: seq<Detection>, prohibited: set<string>,
                                            approved: set<string>, minConfidence: real)
    ensures |Select(dets, prohibited, approved, minConfidence, {LowConfidence})|
          + |Select(dets, prohibited, approved, minConfidence, {Prohibited})|
          + |Select(dets, prohibited, approved, minConfidence, {Approved})|
          + |Select(dets, prohibited, approved, minConfidence, {Neutral})| == |dets|
  {
    if dets != [] {
      BucketsPartition(dets[..|dets| - 1], prohibited, approved, minConfidence);
    }
  }

  /** Flagging prohibited and neutral detections together keeps each bucket's share. */
  lemma {:induction false} FlaggedSize(dets: seq<Detection>, prohibited: set<string>,
                                       approved: set<string>, minConfidence: real)
    ensures |Select(dets, prohibited, approved, minConfidence, {Prohibited, Neutral})| ==
            |Select(dets, prohibited, approved, minConfidence, {Prohibited})|
          + |Select(dets, prohibited, approved, minConfidence, {Neutral})|
  {
    if dets != [] {
      FlaggedSize(dets[..|dets| - 1], prohibited, approved, minConfidence);
    }
  }

  /** A name in both sets is prohibited: the prohibited set wins. */
  lemma ProhibitedWins(d: Detection, prohibited: set<string>, approved: set<string>,
                       minConfidence: real)
    requires d.confidence >= minConfidence
    requires Normalise(d.className) in prohibited && Normalise(d.className) in approved
    ensures CategoryOf(d, prohibited, approved, minConfidence) == Prohibited
  {
  }

  /** Classification depends on the normalised name only: pre-normalising changes nothing. */
  lemma CategoryIgnoresSpelling(d: Detection, prohibited: set<string>, approved: set<string>,
                                minConfidence: real)
    ensures CategoryOf(d.(className := Normalise(d.className)), prohibited, approved, minConfidence)
         == CategoryOf(d, prohibited, approved, minConfidence)
  {
    NormaliseIdempotent(d.className);
  }

  /** A name just added to the approved set (and so discarded from the prohibited one) is approved. */
  lemma AddedClassApproved(d: Detection, prohibited: set<string>, approved: set<string>,
                           minConfidence: real)
    requires d.confidence >= minConfidence
    ensures var n := Normalise(d.className);
      CategoryOf(d, prohibited - {n}, approved + {n}, minConfidence) == Approved
  {
  }

  /** A name just added to the prohibited set is prohibited, whatever the approved set holds. */
  lemma AddedClassProhibited(d: Detection, prohibited: set<string>, approved: set<string>,
                             minConfidence: real)
    requires d.confidence >= minConfidence
    ensures var n := Normalise(d.className);
      CategoryOf(d, prohibited + {n}, approved - {n}, minConfidence) == Prohibited
  {
  }

  /** A removed name is neutral. */
  lemma RemovedClassNeutral(d: Detection, prohibited: set<string>, approved: set<string>,
                            minConfidence: real)
    requires d.confidence >= minConfidence
    ensures var n := Normalise(d.className);
      CategoryOf(d, prohibited - {n}, approved - {n}, minConfidence) == Neutral
  {
  }

  // ---------------------------------------------------------------- check_compliance

  datatype FlaggedItem = FlaggedItem(className: string, confidence: real, reason: string)

  const ProhibitedReason: string := "Prohibited item"
  const NotApprovedReason: string := "Not in approved list"

  /** The report `check_compliance` returns beside its verdict. */
  datatype ComplianceDetails = ComplianceDetails(
    totalDetections: nat,
    highConfidenceDetections: nat,
    lowConfidenceSkipped: nat,
    compliantItems: seq<string>,
    nonCompliantItems: seq<FlaggedItem>,
    neutralItems: seq<string>,
    nonCompliantCount: nat)

  /** The flagged entry for one detection, with the reason its bucket gives. */
  function Flag(d: Detection, prohibited: set<string>, approved: set<string>,
                minConfidence: real): FlaggedItem {
    FlaggedItem(d.className, d.confidence,
                if CategoryOf(d, prohibited, approved, minConfidence) == Prohibited
                then ProhibitedReason else NotApprovedReason)
  }

  function Flags(ds: seq<Detection>, prohibited: set<string>, approved: set<string>,
                 minConfidence: real): seq<FlaggedItem> {
    seq(|ds|, i requires 0 <= i < |ds| => Flag(ds[i], prohibited, approved, minConfidence))
  }

  /** The configuration's sorted copy, as `get_config` returns it. */
  datatype ComplianceConfig = ComplianceConfig(compliantClasses: seq<string>,
                                               nonCompliantClasses: seq<string>,
                                               minConfidence: real)

  /** `set(c.lower().strip() for c in classes)`. */
  function NormalisedSet(classes: seq<string>): set<string> {
    set i | 0 <= i < |classes| :: Normalise(classes[i])
  }

  /** Every stored name is already in normal form, and every given name is stored normalised. */
  lemma NormalisedSetExact(classes: seq<string>)
    ensures forall x :: x in NormalisedSet(classes) ==> Normalise(x) == x
    ensures forall i :: 0 <= i < |classes| ==> Normalise(classes[i]) in NormalisedSet(classes)
  {
    forall x | x in NormalisedSet(classes) ensures Normalise(x) == x {
      var i :| 0 <= i < |classes| && x == Normalise(classes[i]);
      NormaliseIdempotent(classes[i]);
    }
  }

  /** A list of the elements of `s`, sorted and free of duplicates: `sorted(list(s))`. */
  method SortedList(s: set<string>) returns (r: seq<string>)
    ensures Sorted(r) && NoDuplicates(r)
    ensures forall x :: x in r <==> x in s
  {
    var list := [];
    var rest := s;
    while rest != {}
      invariant rest <= s
      invariant forall x :: x in list <==> x in s && x !in rest
      invariant forall y :: multiset(list)[y] <= 1
      decreases rest
    {
      var x :| x in rest;
      list := list + [x];
      rest := rest - {x};
    }
    r := SortStrings(list);
    assert forall x :: x in r <==> x in multiset(r) <==> x in multiset(list) <==> x in list;
    CountsBoundNoDuplicates(r);
  }

  /** A list in which no element occurs twice has no two equal positions. */
  lemma CountsBoundNoDuplicates(s: seq<string>)
    requires forall y :: multiset(s)[y] <= 1
    ensures NoDuplicates(s)
  {
    forall i, j | 0 <= i < j < |s| ensures s[i] != s[j] {
      EqualPositionsCount(s, i, j);
    }
  }

  /** Two equal positions make their element occur at least twice. */
  lemma EqualPositionsCount(s: seq<string>, i: nat, j: nat)
    requires i < j < |s|
    ensures s[i] == s[j] ==> multiset(s)[s[i]] >= 2
  {
    if s[i] == s[j] {
      assert s == s[..i] + [s[i]] + s[i + 1..j] + [s[j]] + s[j + 1..];
    }
  }

  /** One more detection extends a selection by at most that detection. */
  lemma SelectStep(dets: seq<Detection>, i: nat, prohibited: set<string>, approved: set<string>,
                   minConfidence: real, cats: set<Category>)
    requires i < |dets|
    ensures Select(dets[..i + 1], prohibited, approved, minConfidence, cats) ==
      Select(dets[..i], prohibited, approved, minConfidence, cats) +
      (if CategoryOf(dets[i], prohibited, approved, minConfidence) in cats then [dets[i]] else [])
  {
    assert dets[..i + 1][..i] == dets[..i];
  }

  /** One more detection adds its normalised name when it is at or above the threshold. */
  lemma HighClassesStep(dets: seq<Detection>, i: nat, minConfidence: real)
    requires i < |dets|
    ensures HighClasses(dets[..i + 1], minConfidence) ==
      HighClasses(dets[..i], minConfidence) +
      (if dets[i].confidence >= minConfidence then {Normalise(dets[i].className)} else {})
  {
    var longer, shorter := dets[..i + 1], dets[..i];
    assert forall k :: 0 <= k < i ==> longer[k] == shorter[k];
    assert longer[i] == dets[i];
  }

  class ComplianceManager {
    var compliantClasses: set<string>
    var nonCompliantClasses: set<string>
    var minConfidence: real

    ghost predicate Disjoint()
      reads this
    {
      compliantClasses !! nonCompliantClasses
    }

    /** The built-in rule set (the stored configuration file is not modelled). */
    constructor()
      ensures compliantClasses == CompliantClothes && nonCompliantClasses == NonCompliantClothes
      ensures minConfidence == MinConfidence
      ensures Disjoint()
    {
      compliantClasses := CompliantClothes;
      nonCompliantClasses := NonCompliantClothes;
      minConfidence := MinConfidence;
    }

    method SetCompliantClasses(classes: seq<string>)
      modifies this`compliantClasses
      ensures compliantClasses == NormalisedSet(classes)
    {
      var result := {};
      for i := 0 to |classes|
        invariant result == NormalisedSet(classes[..i])
      {
        assert forall k :: 0 <= k < i ==> classes[..i + 1][k] == classes[..i][k];
        result := result + {Normalise(classes[i])};
      }
      assert classes[..|classes|] == classes;
      compliantClasses := result;
    }

    method SetNonCompliantClasses(classes: seq<string>)
      modifies this`nonCompliantClasses
      ensures nonCompliantClasses == NormalisedSet(classes)
    {
      var result := {};
      for i := 0 to |classes|
        invariant result == NormalisedSet(classes[..i])
      {
        assert forall k :: 0 <= k < i ==> classes[..i + 1][k] == classes[..i][k];
        result := result + {Normalise(classes[i])};
      }
      assert classes[..|classes|] == classes;
      nonCompliantClasses := result;
    }

    /** The normalised name becomes approved and stops being prohibited; disjointness is kept. */
    method AddCompliantClass(className: string)
      modifies this`compliantClasses, this`nonCompliantClasses
      ensures compliantClasses == old(compliantClasses) + {Normalise(className)}
      ensures nonCompliantClasses == old(nonCompliantClasses) - {Normalise(className)}
      ensures old(Disjoint()) ==> Disjoint()
    {
      var name := Normalise(className);
      compliantClasses := compliantClasses + {name};
      nonCompliantClasses := nonCompliantClasses - {name};
    }

    /** The mirror: the normalised name becomes prohibited and stops being approved. */
    method AddNonCompliantClass(className: string)
      modifies this`compliantClasses, this`nonCompliantClasses
      ensures nonCompliantClasses == old(nonCompliantClasses) + {Normalise(className)}
      ensures compliantClasses == old(compliantClasses) - {Normalise(className)}
      ensures old(Disjoint()) ==> Disjoint()
    {
      var name := Normalise(className);
      nonCompliantClasses := nonCompliantClasses + {name};
      compliantClasses := compliantClasses - {name};
    }

    /** The normalised name ends up in neither set (neutral). */
    method RemoveClass(className: string)
      modifies this`compliantClasses, this`nonCompliantClasses
      ensures compliantClasses == old(compliantClasses) - {Normalise(className)}
      ensures nonCompliantClasses == old(nonCompliantClasses) - {Normalise(className)}
      ensures old(Disjoint()) ==> Disjoint()
    {
      var name := Normalise(className);
      compliantClasses := compliantClasses - {name};
      nonCompliantClasses := nonCompliantClasses - {name};
    }

    /** Sorted, duplicate-free copies of both sets and the threshold. */
    method GetConfig() returns (config: ComplianceConfig)
      ensures Sorted(config.compliantClasses) && NoDuplicates(config.compliantClasses)
      ensures Sorted(config.nonCompliantClasses) && NoDuplicates(config.nonCompliantClasses)
      ensures forall x :: x in config.compliantClasses <==> x in compliantClasses
      ensures forall x :: x in config.nonCompliantClasses <==> x in nonCompliantClasses
      ensures config.minConfidence == minConfidence
    {
      var c := SortedList(compliantClasses);
      var n := SortedList(nonCompliantClasses);
      config := ComplianceConfig(c, n, minConfidence);
    }

    /**
     * `check_compliance`: one pass over the detections filling the buckets. The verdict is
     * "compliant" exactly when no detection at or above the threshold has a prohibited name;
     * skipped detections never appear among the non-compliant items.
     */
    method CheckCompliance(dets: seq<Detection>)
      returns (isCompliant: bool, names: seq<string>, details: ComplianceDetails)
      ensures var nc, c, m := nonCompliantClasses, compliantClasses, minConfidence;
        && details.totalDetections == |dets|
        && details.highConfidenceDetections == |HighClasses(dets, m)|
        && details.lowConfidenceSkipped == |Select(dets, nc, c, m, {LowConfidence})|
        && details.compliantItems == ClassNames(Select(dets, nc, c, m, {Approved}))
        && details.neutralItems == ClassNames(Select(dets, nc, c, m, {Neutral}))
        && details.nonCompliantItems == Flags(Select(dets, nc, c, m, {Prohibited}), nc, c, m)
        && details.nonCompliantCount == |details.nonCompliantItems|
        && names == Dedup(ClassNames(Select(dets, nc, c, m, {Prohibited})))
      ensures forall i :: 0 <= i < |details.nonCompliantItems| ==>
        details.nonCompliantItems[i].confidence >= minConfidence &&
        details.nonCompliantItems[i].reason == ProhibitedReason
      ensures isCompliant <==> forall i :: 0 <= i < |dets| && dets[i].confidence >= minConfidence ==>
        Normalise(dets[i].className) !in nonCompliantClasses
      ensures isCompliant <==> names == []
    {
      var nc, c, m := nonCompliantClasses, compliantClasses, minConfidence;
      var flagged: seq<Detection> := [];
      var detected: set<string> := {};
      var low: seq<Detection> := [];
      var approved: seq<Detection> := [];
      var neutral: seq<Detection> := [];
      for i := 0 to |dets|
        invariant flagged == Select(dets[..i], nc, c, m, {Prohibited})
        invariant low == Select(dets[..i], nc, c, m, {LowConfidence})
        invariant approved == Select(dets[..i], nc, c, m, {Approved})
        invariant neutral == Select(dets[..i], nc, c, m, {Neutral})
        invariant detected == HighClasses(dets[..i], m)
      {
        SelectStep(dets, i, nc, c, m, {Prohibited});
        SelectStep(dets, i, nc, c, m, {LowConfidence});
        SelectStep(dets, i, nc, c, m, {Approved});
        SelectStep(dets, i, nc, c, m, {Neutral});
        HighClassesStep(dets, i, m);
        var item := dets[i];
        var className := Normalise(item.className);
        if item.confidence < m {
          low := low + [item];
          continue;
        }
        detected := detected + {className};
        if className in nc {
          flagged := flagged + [item];
          continue;
        }
        if className in c {
          approved := approved + [item];
          continue;
        }
        neutral := neutral + [item];
      }
      assert dets[..|dets|] == dets;
      var items := Flags(flagged, nc, c, m);
      details := ComplianceDetails(|dets|, |detected|, |low|, ClassNames(approved), items,
                                   ClassNames(neutral), |items|);
      names := Dedup(ClassNames(flagged));
      isCompliant := |items| == 0;
      ProhibitedFlags(dets, nc, c, m);
    }
  }

  /**
   * The prohibited bucket's flags: each is confident and has the prohibited reason, and
   * there are none exactly when no confident detection has a prohibited name.
   */
  lemma ProhibitedFlags(dets: seq<Detection>, nc: set<string>, c: set<string>, m: real)
    ensures var flagged := Select(dets, nc, c, m, {Prohibited});
      && (forall i :: 0 <= i < |Flags(flagged, nc, c, m)| ==>
            Flags(flagged, nc, c, m)[i].confidence >= m &&
            Flags(flagged, nc, c, m)[i].reason == ProhibitedReason)
      && (|Flags(flagged, nc, c, m)| == 0 <==>
            forall i :: 0 <= i < |dets| && dets[i].confidence >= m ==>
              Normalise(dets[i].className) !in nc)
      && (Dedup(ClassNames(flagged)) == [] <==> |Flags(flagged, nc, c, m)| == 0)
  {
    var flagged := Select(dets, nc, c, m, {Prohibited});
    SelectExact(dets, nc, c, m, {Prohibited});
    forall i | 0 <= i < |flagged|
      ensures flagged[i].confidence >= m && CategoryOf(flagged[i], nc, c, m) == Prohibited
    {
      assert flagged[i] in flagged;
    }
    assert Dedup(ClassNames(flagged)) == [] <==> ClassNames(flagged) == [];
  }

  // ---------------------------------------------------------------- is_compliant

  /**
   * The strict module-level classifier over the built-in sets: a detection at or above 0.5
   * whose name is in neither set is flagged "Not in approved list". The verdict is
   * "compliant" exactly when every such detection has an approved name.
   */
  method IsCompliant(dets: seq<Detection>) returns (ok: bool, names: seq<string>)
    ensures var flagged := Select(dets, NonCompliantClothes, CompliantClothes, MinConfidence,
                                  {Prohibited, Neutral});
            names == Dedup(ClassNames(flagged))
    ensures ok <==> forall i :: 0 <= i < |dets| && dets[i].confidence >= MinConfidence ==>
      Normalise(dets[i].className) in CompliantClothes
    ensures ok <==> names == []
  {
    var nc, c, m := NonCompliantClothes, CompliantClothes, MinConfidence;
    var flagged: seq<Detection> := [];
    for i := 0 to |dets|
      invariant flagged == Select(dets[..i], nc, c, m, {Prohibited, Neutral})
    {
      assert dets[..i + 1][..i] == dets[..i];
      var item := dets[i];
      var className := Normalise(item.className);
      if item.confidence < m {
        continue;
      }
      if className in nc {
        flagged := flagged + [item];
        continue;
      }
      if className in c {
        continue;
      }
      flagged := flagged + [item];
    }
    assert dets[..|dets|] == dets;
    names := Dedup(ClassNames(flagged));
    ok := |flagged| == 0;
    SelectExact(dets, nc, c, m, {Prohibited, Neutral});
    ConfiguredSetsDisjoint();
    assert names == [] <==> ClassNames(flagged) == [];
  }

  /** `is_compliant` flags a high-confidence class outside both built-in sets as not approved. */
  lemma StrictFlagsUnlisted(dets: seq<Detection>, d: Detection)
    requires d in dets && d.confidence >= MinConfidence
    requires Normalise(d.className) !in CompliantClothes && Normalise(d.className) !in NonCompliantClothes
    ensures d in Select(dets, NonCompliantClothes, CompliantClothes, MinConfidence, {Prohibited, Neutral})
    ensures Flag(d, NonCompliantClothes, CompliantClothes, MinConfidence).reason == NotApprovedReason
  {
    SelectComplete(dets, NonCompliantClothes, CompliantClothes, MinConfidence, {Prohibited, Neutral});
  }

  // ---------------------------------------------------------------- get_compliance_details

  datatype Summary = Summary(total: nat, compliant: nat, nonCompliant: nat, unknown: nat,
                             lowConfidence: nat)

  /** The report of `get_compliance_details`; the per-item labels follow from the bucket. */
  datatype DetailedReport = DetailedReport(
    isCompliant: bool,
    summary: Summary,
    compliantItems: seq<Detection>,
    nonCompliantItems: seq<Detection>,
    unknownItems: seq<Detection>,
    lowConfidenceItems: seq<Detection>,
    minConfidence: real,
    requireAllCompliant: bool)

  /**
   * `get_compliance_details` over the built-in sets: compliant exactly when nothing is
   * prohibited and nothing is unknown; the four bucket counts add up to the total.
   */
  method GetComplianceDetails(dets: seq<Detection>) returns (r: DetailedReport)
    ensures var nc, c, m := NonCompliantClothes, CompliantClothes, MinConfidence;
      && r.compliantItems == Select(dets, nc, c, m, {Approved})
      && r.nonCompliantItems == Select(dets, nc, c, m, {Prohibited})
      && r.unknownItems == Select(dets, nc, c, m, {Neutral})
      && r.lowConfidenceItems == Select(dets, nc, c, m, {LowConfidence})
    ensures r.summary.total == |dets|
    ensures r.summary.compliant + r.summary.nonCompliant + r.summary.unknown
            + r.summary.lowConfidence == r.summary.total
    ensures r.isCompliant <==> r.summary.nonCompliant == 0 && r.summary.unknown == 0
    ensures r.isCompliant <==> forall i :: 0 <= i < |dets| && dets[i].confidence >= MinConfidence ==>
      Normalise(dets[i].className) in CompliantClothes
    ensures r.minConfidence == MinConfidence && r.requireAllCompliant
  {
    var nc, c, m := NonCompliantClothes, CompliantClothes, MinConfidence;
    var approved, flagged, unknown, low := [], [], [], [];
    for i := 0 to |dets|
      invariant approved == Select(dets[..i], nc, c, m, {Approved})
      invariant flagged == Select(dets[..i], nc, c, m, {Prohibited})
      invariant unknown == Select(dets[..i], nc, c, m, {Neutral})
      invariant low == Select(dets[..i], nc, c, m, {LowConfidence})
    {
      assert dets[..i + 1][..i] == dets[..i];
      var item := dets[i];
      var className := Normalise(item.className);
      if item.confidence < m {
        low := low + [item];
        continue;
      }
      if className in nc {
        flagged := flagged + [item];
      } else if className in c {
        approved := approved + [item];
      } else {
        unknown := unknown + [item];
      }
    }
    assert dets[..|dets|] == dets;
    BucketsPartition(dets, nc, c, m);
    SelectExact(dets, nc, c, m, {Prohibited});
    SelectExact(dets, nc, c, m, {Neutral});
    ConfiguredSetsDisjoint();
    r := DetailedReport(|flagged| == 0 && |unknown| == 0,
                        Summary(|dets|, |approved|, |flagged|, |unknown|, |low|),
                        approved, flagged, unknown, low, m, true);
  }
}
