/**
 * The violation de-duplication engine of utils/violation_logger.py.
 *
 * For every processed frame the logger decides whether a violation is logged. The decision is
 * a strict short-circuit ladder: the on/off switch, the "no faces" rule, the daily per-person
 * map, and the cooldown map keyed on a content fingerprint of the face names and the
 * non-compliant item names. The clock is passed in: `now` in seconds and `today` as the
 * ISO date string.
 *
 * The ladder is given twice: as the pure function `Decide` over a `Tracker` value (the
 * logger's state), about which the lemmas below are proved, and as the class
 * `ViolationLogger`, whose methods update their fields step by step as the source does and
 * are proved to agree with the pure functions.
 */
module ViolationLog {
  import opened Wrappers
  import opened Text

  // ---------------------------------------------------------------- constants

  const UnknownName: string := "Unknown"

  /** Cleanup of the cooldown map runs at most once per this many seconds. */
  const CleanupInterval: real := 5.0

  /** At most this many saves may be queued at once. */
  const MaxPendingTasks: int := 3

  /** The class defaults of the logger. */
  const DefaultCooldownSeconds: int := 7
  const DefaultMinFaceConfidence: real := 35.0

  /** The values the process-wide getter constructs its single instance with. */
  const SingletonCooldownSeconds: int := 10
  const SingletonMinFaceConfidence: real := 47.0

  // ---------------------------------------------------------------- faces

  datatype BBox = BBox(top: int, right: int, bottom: int, left: int)

  /** One face result of the face matcher; `confidence` is a percentage. */
  datatype Face = Face(name: string, confidence: real, userId: Option<string>, bbox: BBox)

  /** A face whose match is weaker than `minConfidence` becomes an anonymous "Unknown". */
  function Anonymised(f: Face, minConfidence: real): Face {
    if f.confidence < minConfidence then f.(name := UnknownName, userId := None) else f
  }

  function FilterFaces(faces: seq<Face>, minConfidence: real): seq<Face> {
    seq(|faces|, i requires 0 <= i < |faces| => Anonymised(faces[i], minConfidence))
  }

  /** `[face['name'] for face in faces]`. */
  function Names(faces: seq<Face>): seq<string> {
    seq(|faces|, i requires 0 <= i < |faces| => faces[i].name)
  }

  /** The names of the faces that are not "Unknown", in list order, duplicates kept. */
  function IdentifiedNames(faces: seq<Face>): (r: seq<string>)
    ensures UnknownName !in r
    ensures forall i :: 0 <= i < |faces| && faces[i].name != UnknownName ==> faces[i].name in r
    ensures |r| <= |faces|
  {
    if faces == [] then []
    else
      var rest := IdentifiedNames(faces[1..]);
      assert forall i :: 1 <= i < |faces| ==> faces[i] == faces[1..][i - 1];
      if faces[0].name != UnknownName then [faces[0].name] + rest else rest
  }

  /** Every identified name is the name of one of the faces. */
  lemma {:induction false} IdentifiedNamesAreFaceNames(faces: seq<Face>)
    ensures forall x :: x in IdentifiedNames(faces) ==> exists i :: 0 <= i < |faces| && faces[i].name == x
  {
    if faces != [] {
      IdentifiedNamesAreFaceNames(faces[1..]);
      assert forall i :: 1 <= i < |faces| ==> faces[i] == faces[1..][i - 1];
    }
  }

  /**
   * The identified names keep the faces' list order: those of a concatenation are those of
   * each part in turn, and a single face contributes its name unless it is "Unknown".
   */
  lemma {:induction false} IdentifiedNamesInOrder(a: seq<Face>, b: seq<Face>)
    ensures IdentifiedNames(a + b) == IdentifiedNames(a) + IdentifiedNames(b)
    ensures forall f :: IdentifiedNames([f]) == if f.name != UnknownName then [f.name] else []
  {
    assert forall f: Face :: [f][1..] == [];
    if a != [] {
      assert (a + b)[0] == a[0] && (a + b)[1..] == a[1..] + b;
      IdentifiedNamesInOrder(a[1..], b);
    } else {
      assert a + b == b;
    }
  }

  // ---------------------------------------------------------------- fingerprint

  /**
   * The string the violation hash is computed from:
   * the sorted face names joined by "-", a ":", then the sorted item names joined by "-".
   * Duplicate names and every "Unknown" are kept. The digest itself is not modelled.
   */
  function ViolationKey(names: seq<string>, items: seq<string>): string {
    Join(SortStrings(names), "-") + ":" + Join(SortStrings(items), "-")
  }

  /** The fingerprint does not depend on the order of the faces or of the items. */
  lemma FingerprintOrderInsensitive(names1: seq<string>, names2: seq<string>,
                                    items1: seq<string>, items2: seq<string>)
    requires multiset(names1) == multiset(names2)
    requires multiset(items1) == multiset(items2)
    ensures ViolationKey(names1, items1) == ViolationKey(names2, items2)
  {
    SortIgnoresOrder(names1, names2);
    SortIgnoresOrder(items1, items2);
  }

  /** Reordering the faces of a frame leaves its fingerprint unchanged. */
  lemma FingerprintIgnoresFaceOrder(faces1: seq<Face>, faces2: seq<Face>, items: seq<string>)
    requires multiset(faces1) == multiset(faces2)
    ensures ViolationKey(Names(faces1), items) == ViolationKey(Names(faces2), items)
  {
    NamesPermute(faces1, faces2);
    FingerprintOrderInsensitive(Names(faces1), Names(faces2), items, items);
  }

  lemma NamesAppend(a: seq<Face>, b: seq<Face>)
    ensures Names(a + b) == Names(a) + Names(b)
  {
  }

  lemma {:induction false} NamesPermute(faces1: seq<Face>, faces2: seq<Face>)
    requires multiset(faces1) == multiset(faces2)
    ensures multiset(Names(faces1)) == multiset(Names(faces2))
    decreases |faces1|
  {
    if faces1 != [] {
      var f := faces1[0];
      assert f in multiset(faces2);
      var j :| 0 <= j < |faces2| && faces2[j] == f;
      var left, right := faces2[..j], faces2[j + 1..];
      assert faces2 == left + [f] + right;
      assert faces1 == [f] + faces1[1..];
      calc {
        multiset(faces1[1..]);
        multiset(faces1) - multiset{f};
        multiset(faces2) - multiset{f};
        multiset(left + right);
      }
      NamesPermute(faces1[1..], left + right);
      NamesAppend([f], faces1[1..]);
      NamesAppend(left + [f], right);
      NamesAppend(left, [f]);
      NamesAppend(left, right);
    }
  }

  /** Every "Unknown" face counts: two unknown faces do not share a fingerprint with one. */
  lemma FingerprintKeepsDuplicates()
    ensures ViolationKey([UnknownName, UnknownName], ["Shorts"]) != ViolationKey([UnknownName], ["Shorts"])
  {
    assert SortStrings([UnknownName]) == [UnknownName];
    BelowReflexive(UnknownName);
    assert SortStrings([UnknownName, UnknownName]) == [UnknownName, UnknownName];
    assert SortStrings(["Shorts"]) == ["Shorts"];
    assert Join([UnknownName, UnknownName], "-") == UnknownName + "-" + UnknownName;
    assert Join(["Shorts"], "-") == "Shorts";
    assert |ViolationKey([UnknownName, UnknownName], ["Shorts"])| == 22;
    assert |ViolationKey([UnknownName], ["Shorts"])| == 14;
  }

  /**
   * Every face counts in the fingerprint, "Unknown" and duplicates included: one more face
   * with a non-empty name lengthens the pre-image by that name and, unless it is the only
   * face, one separator, so the two frames never share a fingerprint.
   */
  lemma FingerprintCountsEveryFace(names: seq<string>, name: string, items: seq<string>)
    requires name != ""
    ensures |ViolationKey(names + [name], items)| ==
      |ViolationKey(names, items)| + |name| + (if names == [] then 0 else 1)
    ensures ViolationKey(names + [name], items) != ViolationKey(names, items)
  {
    var before, after := SortStrings(names), SortStrings(names + [name]);
    assert |before| == |multiset(before)| == |multiset(names)| == |names|;
    assert |after| == |multiset(after)| == |multiset(names + [name])| == |names| + 1;
    TotalLengthPermute(before, names);
    TotalLengthPermute(after, names + [name]);
    TotalLengthAppend(names, [name]);
    assert TotalLength([name]) == |name| by {
      assert [name][1..] == [];
    }
    JoinLength(before, "-");
    JoinLength(after, "-");
  }

  // ---------------------------------------------------------------- the daily map

  /** The logged details of one person: the date, the sorted items and the image path. */
  datatype LogInfo = LogInfo(date: string, items: seq<string>, filepath: Option<string>)

  type DailyLog = map<string, LogInfo>

  /**
   * One value of the stored daily-log JSON object: the old format (a date string), the new
   * format (an object whose "date" may be missing), or any other JSON value.
   */
  datatype StoredEntry =
    | DateOnly(day: string)
    | Record(date: Option<string>, items: seq<string>, filepath: Option<string>)
    | OtherValue

  /** Whether loading keeps a stored entry: only entries dated `today` survive. */
  predicate KeptOnLoad(e: StoredEntry, today: string) {
    match e
    case DateOnly(d) => d == today
    case Record(d, _, _) => d == Some(today)
    case OtherValue => false
  }

  /** The in-memory form of a kept entry; an old-format entry gets no items and no path. */
  function LoadedInfo(e: StoredEntry, today: string): LogInfo {
    match e
    case DateOnly(_) => LogInfo(today, [], None)
    case Record(d, items, path) => LogInfo(d.GetOr(""), items, path)
    case OtherValue => LogInfo("", [], None)
  }

  /**
   * The filtering `_load_daily_logs` applies to the parsed file: exactly the entries dated
   * today are kept, each converted to the in-memory form.
   */
  method LoadDailyLogs(data: map<string, StoredEntry>, today: string) returns (cleaned: DailyLog)
    ensures forall p :: p in cleaned <==> p in data && KeptOnLoad(data[p], today)
    ensures forall p :: p in cleaned ==> cleaned[p] == LoadedInfo(data[p], today)
    ensures forall p :: p in cleaned ==> cleaned[p].date == today
  {
    cleaned := map[];
    var todo := data.Keys;
    while todo != {}
      invariant todo <= data.Keys
      invariant forall p :: p in cleaned <==> p in data && p !in todo && KeptOnLoad(data[p], today)
      invariant forall p :: p in cleaned ==> cleaned[p] == LoadedInfo(data[p], today)
      decreases todo
    {
      var person :| person in todo;
      var info := data[person];
      match info {
        case DateOnly(d) =>
          if d == today {
            cleaned := cleaned[person := LogInfo(today, [], None)];
          }
        case Record(d, _, _) =>
          if d == Some(today) {
            cleaned := cleaned[person := LoadedInfo(info, today)];
          }
        case OtherValue =>
      }
      todo := todo - {person};
    }
  }

  /** `_is_person_logged_today` answers true exactly for an entry dated today. */
  predicate LoggedOn(logged: DailyLog, name: string, today: string) {
    name in logged && logged[name].date == today
  }

  /** The side effect of asking: an entry for `name` dated another day is deleted. */
  function DropStale(logged: DailyLog, name: string, today: string): DailyLog {
    if name in logged && logged[name].date != today then logged - {name} else logged
  }

  /** `_has_different_violations`: absent, or a different SET of items than last time. */
  predicate DifferentItems(logged: DailyLog, name: string, items: seq<string>) {
    name !in logged || (set x | x in logged[name].items) != (set x | x in items)
  }

  /** `_mark_person_logged_today`: today, the sorted items and the image path. */
  function MarkLogged(logged: DailyLog, name: string, items: seq<string>, filepath: string,
                      today: string): DailyLog {
    logged[name := LogInfo(today, SortStrings(items), Some(filepath))]
  }

  /** After marking, the person counts as logged on that day and on no other. */
  lemma MarkThenLogged(logged: DailyLog, name: string, items: seq<string>, filepath: string,
                       today: string, other: string)
    requires other != today
    ensures LoggedOn(MarkLogged(logged, name, items, filepath, today), name, today)
    ensures !LoggedOn(MarkLogged(logged, name, items, filepath, today), name, other)
    ensures !DifferentItems(MarkLogged(logged, name, items, filepath, today), name, items)
    ensures forall q :: q != name ==>
      (q in MarkLogged(logged, name, items, filepath, today) <==> q in logged) &&
      (q in logged ==> MarkLogged(logged, name, items, filepath, today)[q] == logged[q])
  {
    var s := SortStrings(items);
    assert forall x :: x in s <==> x in multiset(s) <==> x in multiset(items) <==> x in items;
  }

  /** A stale entry is gone after the query; an entry dated today stays. */
  lemma DropStaleKeepsToday(logged: DailyLog, name: string, today: string)
    ensures name in DropStale(logged, name, today) <==> LoggedOn(logged, name, today)
    ensures forall q :: q != name ==> (q in DropStale(logged, name, today) <==> q in logged)
    ensures forall q :: q != name && q in logged ==> DropStale(logged, name, today)[q] == logged[q]
    ensures name in DropStale(logged, name, today) ==> DropStale(logged, name, today)[name] == logged[name]
  {
  }

  // ---------------------------------------------------------------- the cooldown map

  type CooldownMap = map<string, real>

  /** The entries cleanup keeps: those not strictly older than the cooldown. */
  function Unexpired(recent: CooldownMap, now: real, cooldownSeconds: int): CooldownMap {
    map k | k in recent && !(now - recent[k] > cooldownSeconds as real) :: recent[k]
  }

  /** The state the decision reads and writes. */
  datatype Tracker = Tracker(enabled: bool, cooldownSeconds: int, recent: CooldownMap,
                             lastCleanup: real, logged: DailyLog)

  /** `_cleanup_old_violations`: rate-limited to once per `CleanupInterval` seconds. */
  function Cleanup(t: Tracker, now: real): Tracker {
    if now - t.lastCleanup < CleanupInterval then t
    else t.(lastCleanup := now, recent := Unexpired(t.recent, now, t.cooldownSeconds))
  }

  /**
   * Cleanup changes nothing within five seconds of the last run; otherwise it records the
   * time and removes exactly the entries older than the cooldown, keeping the others' values.
   */
  lemma CleanupExact(t: Tracker, now: real)
    ensures now - t.lastCleanup < CleanupInterval ==> Cleanup(t, now) == t
    ensures now - t.lastCleanup >= CleanupInterval ==>
      Cleanup(t, now).lastCleanup == now &&
      (forall k :: k in Cleanup(t, now).recent <==>
         k in t.recent && now - t.recent[k] <= t.cooldownSeconds as real)
    ensures forall k :: k in Cleanup(t, now).recent ==> Cleanup(t, now).recent[k] == t.recent[k]
    ensures Cleanup(t, now).logged == t.logged && Cleanup(t, now).enabled == t.enabled
    ensures Cleanup(t, now).cooldownSeconds == t.cooldownSeconds
  {
  }

  // ---------------------------------------------------------------- the decision

  /** `(should_log, reason, should_delete_previous)`. */
  datatype Decision = Decision(shouldLog: bool, reason: string, deletePrevious: bool)

  const Disabled: Decision := Decision(false, "Logging disabled", false)
  const NoFaces: Decision := Decision(false, "No faces detected", false)
  const Updating: Decision := Decision(true, "Different violations detected - updating", true)
  const CooldownActive: Decision := Decision(false, "Cooldown active", false)
  const Approved: Decision := Decision(true, "Logging approved", false)

  function AlreadyLogged(name: string): Decision {
    Decision(false, "Already logged today: " + name, false)
  }

  datatype Checked = Checked(verdict: Option<Decision>, logged: DailyLog)

  /**
   * The walk over the identified persons: the first one logged today decides, by whether
   * their item set changed; stale entries of the persons passed over are deleted.
   */
  function CheckIdentified(logged: DailyLog, persons: seq<string>, items: seq<string>,
                           today: string): Checked
    decreases |persons|
  {
    if persons == [] then Checked(None, logged)
    else if LoggedOn(logged, persons[0], today) then
      Checked(Some(if DifferentItems(logged, persons[0], items) then Updating
                   else AlreadyLogged(persons[0])), logged)
    else CheckIdentified(DropStale(logged, persons[0], today), persons[1..], items, today)
  }

  datatype Outcome = Outcome(decision: Decision, tracker: Tracker)

  /** `_should_log_violation` on the state `t`, for faces already confidence-filtered. */
  function Decide(t: Tracker, faces: seq<Face>, items: seq<string>, now: real,
                  today: string): Outcome {
    if !t.enabled then Outcome(Disabled, t)
    else if faces == [] then Outcome(NoFaces, t)
    else
      var t1 := Cleanup(t, now);
      var c := CheckIdentified(t1.logged, IdentifiedNames(faces), items, today);
      var t2 := t1.(logged := c.logged);
      if c.verdict.Some? then Outcome(c.verdict.value, t2)
      else
        var key := ViolationKey(Names(faces), items);
        if key in t2.recent && now - t2.recent[key] < t2.cooldownSeconds as real then
          Outcome(CooldownActive, t2)
        else
          Outcome(Approved, t2.(recent := t2.recent[key := now]))
  }

  /** Names outside `persons` keep their entries in the walk. */
  lemma {:induction false} CheckIdentifiedFrame(logged: DailyLog, persons: seq<string>,
                                                items: seq<string>, today: string, q: string)
    requires q !in persons
    ensures q in CheckIdentified(logged, persons, items, today).logged <==> q in logged
    ensures q in logged ==> CheckIdentified(logged, persons, items, today).logged[q] == logged[q]
    decreases |persons|
  {
    if persons != [] && !LoggedOn(logged, persons[0], today) {
      CheckIdentifiedFrame(DropStale(logged, persons[0], today), persons[1..], items, today, q);
    }
  }

  /**
   * The first person in list order who is logged today decides the walk: a different item
   * set approves an update, the same set refuses with that person's name.
   */
  lemma {:induction false} FirstLoggedDecides(logged: DailyLog, persons: seq<string>,
                                              items: seq<string>, today: string, k: nat)
    requires k < |persons|
    requires forall j :: 0 <= j < k ==> !LoggedOn(logged, persons[j], today)
    requires LoggedOn(logged, persons[k], today)
    ensures CheckIdentified(logged, persons, items, today).verdict ==
      Some(if DifferentItems(logged, persons[k], items) then Updating else AlreadyLogged(persons[k]))
    decreases k
  {
    if k > 0 {
      var next := DropStale(logged, persons[0], today);
      assert persons[0] != persons[k];
      forall j | 0 <= j < k - 1 ensures !LoggedOn(next, persons[1..][j], today) {
        assert persons[1..][j] == persons[j + 1];
      }
      FirstLoggedDecides(next, persons[1..], items, today, k - 1);
    }
  }

  /**
   * When nobody is logged today the walk decides nothing and only removes the stale
   * entries of the persons it passed.
   */
  lemma {:induction false} NoneLoggedFallsThrough(logged: DailyLog, persons: seq<string>,
                                                  items: seq<string>, today: string)
    requires forall j :: 0 <= j < |persons| ==> !LoggedOn(logged, persons[j], today)
    ensures CheckIdentified(logged, persons, items, today).verdict == None
    ensures forall q :: q in CheckIdentified(logged, persons, items, today).logged <==>
      q in logged && q !in persons
    ensures forall q :: q in CheckIdentified(logged, persons, items, today).logged ==>
      CheckIdentified(logged, persons, items, today).logged[q] == logged[q]
    decreases |persons|
  {
    if persons != [] {
      var next := DropStale(logged, persons[0], today);
      forall j | 0 <= j < |persons| - 1 ensures !LoggedOn(next, persons[1..][j], today) {
        assert persons[1..][j] == persons[j + 1];
      }
      NoneLoggedFallsThrough(next, persons[1..], items, today);
      assert persons == [persons[0]] + persons[1..];
    }
  }

  /** Logging switched off refuses and changes nothing, whatever the frame holds. */
  lemma DecideWhenDisabled(t: Tracker, faces: seq<Face>, items: seq<string>, now: real,
                           today: string)
    requires !t.enabled
    ensures Decide(t, faces, items, now, today) == Outcome(Disabled, t)
  {
  }

  /** A frame without faces is never logged and changes nothing. */
  lemma DecideWithoutFaces(t: Tracker, items: seq<string>, now: real, today: string)
    requires t.enabled
    ensures Decide(t, [], items, now, today) == Outcome(NoFaces, t)
  {
  }

  /**
   * "Unknown" is never looked up in the daily map: its entry, if any, is left as it was, and
   * a frame of unknown faces only can be refused by nothing but the cooldown.
   */
  lemma UnknownNeverDailyChecked(t: Tracker, faces: seq<Face>, items: seq<string>, now: real,
                                 today: string)
    ensures UnknownName in Decide(t, faces, items, now, today).tracker.logged <==>
      UnknownName in t.logged
    ensures UnknownName in t.logged ==>
      Decide(t, faces, items, now, today).tracker.logged[UnknownName] == t.logged[UnknownName]
    ensures (forall i :: 0 <= i < |faces| ==> faces[i].name == UnknownName) ==>
      Decide(t, faces, items, now, today).decision in {Disabled, NoFaces, CooldownActive, Approved}
    ensures (forall i :: 0 <= i < |faces| ==> faces[i].name == UnknownName) ==>
      Decide(t, faces, items, now, today).tracker.logged == t.logged
  {
    CheckIdentifiedFrame(Cleanup(t, now).logged, IdentifiedNames(faces), items, today, UnknownName);
    if forall i :: 0 <= i < |faces| ==> faces[i].name == UnknownName {
      AllUnknownIdentifiesNobody(faces);
    }
  }

  lemma {:induction false} AllUnknownIdentifiesNobody(faces: seq<Face>)
    requires forall i :: 0 <= i < |faces| ==> faces[i].name == UnknownName
    ensures IdentifiedNames(faces) == []
  {
    if faces != [] {
      assert forall i :: 0 <= i < |faces[1..]| ==> faces[1..][i] == faces[i + 1];
      AllUnknownIdentifiesNobody(faces[1..]);
    }
  }

  /**
   * A person logged today with a different item set is approved at once with deletion of the
   * previous log: the cooldown is not consulted and not written.
   */
  lemma DifferentItemsBypassCooldown(t: Tracker, faces: seq<Face>, items: seq<string>,
                                     now: real, today: string, k: nat)
    requires t.enabled && faces != []
    requires k < |IdentifiedNames(faces)|
    requires forall j :: 0 <= j < k ==> !LoggedOn(t.logged, IdentifiedNames(faces)[j], today)
    requires LoggedOn(t.logged, IdentifiedNames(faces)[k], today)
    requires DifferentItems(t.logged, IdentifiedNames(faces)[k], items)
    ensures Decide(t, faces, items, now, today).decision == Updating
    ensures Decide(t, faces, items, now, today).tracker.recent == Cleanup(t, now).recent
  {
    FirstLoggedDecides(t.logged, IdentifiedNames(faces), items, today, k);
  }

  /** A person logged today with the same item set blocks the whole frame, naming them. */
  lemma SameItemsBlockedToday(t: Tracker, faces: seq<Face>, items: seq<string>, now: real,
                              today: string, k: nat)
    requires t.enabled && faces != []
    requires k < |IdentifiedNames(faces)|
    requires forall j :: 0 <= j < k ==> !LoggedOn(t.logged, IdentifiedNames(faces)[j], today)
    requires LoggedOn(t.logged, IdentifiedNames(faces)[k], today)
    requires !DifferentItems(t.logged, IdentifiedNames(faces)[k], items)
    ensures Decide(t, faces, items, now, today).decision == AlreadyLogged(IdentifiedNames(faces)[k])
    ensures Decide(t, faces, items, now, today).tracker.recent == Cleanup(t, now).recent
  {
    FirstLoggedDecides(t.logged, IdentifiedNames(faces), items, today, k);
  }

  /**
   * The cooldown step, reached when nobody in the frame is logged today: a fingerprint seen
   * less than `cooldownSeconds` ago refuses and leaves the map as cleanup left it; otherwise
   * the fingerprint is stamped with `now` and the frame is approved.
   */
  lemma CooldownStep(t: Tracker, faces: seq<Face>, items: seq<string>, now: real, today: string)
    requires t.enabled && faces != []
    requires forall p :: p in IdentifiedNames(faces) ==> !LoggedOn(t.logged, p, today)
    ensures var r := Cleanup(t, now).recent;
            var key := ViolationKey(Names(faces), items);
            var o := Decide(t, faces, items, now, today);
            if key in r && now - r[key] < t.cooldownSeconds as real
            then o.decision == CooldownActive && o.tracker.recent == r
            else o.decision == Approved && o.tracker.recent == r[key := now]
  {
    var t1 := Cleanup(t, now);
    assert t1.logged == t.logged;
    NoneLoggedFallsThrough(t.logged, IdentifiedNames(faces), items, today);
    assert CheckIdentified(t1.logged, IdentifiedNames(faces), items, today).verdict.None?;
  }

  /**
   * The cooldown window for a frame of unknown faces stamped at `t0`: refused while less than
   * the cooldown has passed, approved again from then on, with no daily cap.
   */
  lemma CooldownWindow(t: Tracker, faces: seq<Face>, items: seq<string>, t0: real, now: real,
                       today: string)
    requires t.enabled && faces != []
    requires forall i :: 0 <= i < |faces| ==> faces[i].name == UnknownName
    requires ViolationKey(Names(faces), items) in t.recent
    requires t.recent[ViolationKey(Names(faces), items)] == t0
    ensures now - t0 < t.cooldownSeconds as real ==>
      Decide(t, faces, items, now, today).decision == CooldownActive
    ensures now - t0 >= t.cooldownSeconds as real ==>
      Decide(t, faces, items, now, today).decision == Approved
  {
    AllUnknownIdentifiesNobody(faces);
  }

  // ---------------------------------------------------------------- recording a save

  /** What a queued save carries to the background worker. */
  datatype SaveJob = SaveJob(identified: seq<string>, items: seq<string>, deletePrevious: bool)

  /** The entry every identified person of a saved violation gets. */
  function SavedInfo(items: seq<string>, filepath: string, today: string): LogInfo {
    LogInfo(today, SortStrings(items), Some(filepath))
  }

  /**
   * The daily-map effect of a completed save: with `deletePrevious`, the previous entries of
   * the identified persons are removed first; then each identified person is marked.
   */
  function Recorded(logged: DailyLog, job: SaveJob, filepath: string, today: string): DailyLog {
    var base := if job.deletePrevious && job.identified != [] then logged - (set p | p in job.identified)
                else logged;
    base + map p | p in job.identified :: SavedInfo(job.items, filepath, today)
  }

  /** One more person of the save taken out of the daily map. */
  lemma DropPersonsStep(logged: DailyLog, done: seq<string>, next: seq<string>, x: string)
    requires next == done + [x]
    ensures logged - (set p | p in next) == (logged - (set p | p in done)) - {x}
  {
  }

  /** One more person of the save marked in the daily map. */
  lemma MarkPersonsStep(base: DailyLog, done: seq<string>, next: seq<string>, x: string,
                        info: LogInfo)
    requires next == done + [x]
    ensures base + (map p | p in next :: info) == (base + map p | p in done :: info)[x := info]
  {
  }

  /**
   * One frame end to end: filter, decide and, when approved, record the save. The save is
   * taken to have been queued and to have completed (see `ViolationLogger.SaveViolation` for
   * the queue bound).
   */
  function ProcessFrame(t: Tracker, minFaceConfidence: real, faces: seq<Face>, items: seq<string>,
                        now: real, today: string, filepath: string): (r: Outcome)
    ensures var o := Decide(t, FilterFaces(faces, minFaceConfidence), items, now, today);
      && r.decision == o.decision
      && r.tracker.recent == o.tracker.recent
      && (!r.decision.shouldLog ==> r == o)
      && (r.decision.shouldLog ==> forall p :: p in IdentifiedNames(FilterFaces(faces, minFaceConfidence)) ==>
            LoggedOn(r.tracker.logged, p, today) &&
            !DifferentItems(r.tracker.logged, p, items))
  {
    var filtered := FilterFaces(faces, minFaceConfidence);
    var o := Decide(t, filtered, items, now, today);
    if o.decision.shouldLog then
      var job := SaveJob(IdentifiedNames(filtered), items, o.decision.deletePrevious);
      RecordedMarksEveryone(o.tracker.logged, job, filepath, today);
      Outcome(o.decision, o.tracker.(logged := Recorded(o.tracker.logged, job, filepath, today)))
    else o
  }

  /** After a save, every identified person of the frame is logged on that day. */
  lemma RecordedMarksEveryone(logged: DailyLog, job: SaveJob, filepath: string, today: string)
    ensures forall p :: p in job.identified ==> LoggedOn(Recorded(logged, job, filepath, today), p, today)
    ensures forall p :: p in job.identified ==>
      !DifferentItems(Recorded(logged, job, filepath, today), p, job.items)
    ensures forall q :: q !in job.identified ==>
      (q in Recorded(logged, job, filepath, today) <==> q in logged)
  {
    var s := SortStrings(job.items);
    assert forall x :: x in s <==> x in multiset(s) <==> x in multiset(job.items) <==> x in job.items;
  }

  // ---------------------------------------------------------------- statistics

  /**
   * The count `get_stats` reports, as written: it compares each stored entry, an object,
   * with the date string, and an object never equals a string.
   */
  function PersonsLoggedTodayAsWritten(logged: DailyLog, today: string): nat {
    |set p | p in logged && EntryEqualsString(logged[p], today)|
  }

  /** Python's `==` between an entry object and a string. */
  predicate EntryEqualsString(e: LogInfo, s: string) {
    false
  }

  /** The evidently intended count: the persons whose entry is dated today. */
  function PersonsLoggedToday(logged: DailyLog, today: string): (n: nat)
    ensures n <= |logged|
  {
    var s := set p | p in logged && logged[p].date == today;
    assert s <= logged.Keys;
    SubsetCardinality(s, logged.Keys);
    |s|
  }

  lemma SubsetCardinality(a: set<string>, b: set<string>)
    requires a <= b
    ensures |a| <= |b|
  {
    assert b == a + (b - a);
  }

  /** A person just marked is counted by the intended definition... */
  lemma MarkedPersonIsCounted(logged: DailyLog, name: string, items: seq<string>,
                              filepath: string, today: string)
    ensures PersonsLoggedToday(MarkLogged(logged, name, items, filepath, today), today) >= 1
  {
    var m := MarkLogged(logged, name, items, filepath, today);
    var s := set p | p in m && m[p].date == today;
    assert name in s;
  }

  /** ...but never by the count as written, which is 0 for every daily map. */
  lemma StatsCountAsWrittenIsZero(logged: DailyLog, today: string)
    ensures PersonsLoggedTodayAsWritten(logged, today) == 0
  {
    assert (set p | p in logged && EntryEqualsString(logged[p], today)) == {};
  }

  /** The concrete case: Alice logged today, the reported count is still 0. */
  lemma StatsCountDiscrepancy()
    ensures var m := MarkLogged(map[], "Alice", ["Shorts"], "violation_1.jpg", "2025-01-25");
            PersonsLoggedTodayAsWritten(m, "2025-01-25") == 0 &&
            PersonsLoggedToday(m, "2025-01-25") == 1
  {
    var m := MarkLogged(map[], "Alice", ["Shorts"], "violation_1.jpg", "2025-01-25");
    StatsCountAsWrittenIsZero(m, "2025-01-25");
    assert (set p | p in m && m[p].date == "2025-01-25") == {"Alice"};
  }

  /** After loading, every entry is dated today, so all of them are counted. */
  lemma LoadedAllCounted(logged: DailyLog, today: string)
    requires forall p :: p in logged ==> logged[p].date == today
    ensures PersonsLoggedToday(logged, today) == |logged|
  {
    assert (set p | p in logged && logged[p].date == today) == logged.Keys;
  }

  datatype LoggerStats = LoggerStats(loggingEnabled: bool, cooldownSeconds: int,
                                     minFaceConfidence: real, activeViolations: nat,
                                     personsLoggedToday: nat)

  // ---------------------------------------------------------------- the logger object

  class ViolationLogger {
    var loggingEnabled: bool
    var cooldownSeconds: int
    const minFaceConfidence: real
    var recentViolations: CooldownMap
    var lastCleanupTime: real
    var loggedToday: DailyLog
    var pendingTasks: int
    const maxPendingTasks: int

    ghost predicate Valid()
      reads this
    {
      maxPendingTasks == MaxPendingTasks && 0 <= pendingTasks <= maxPendingTasks
    }

    /** The fields the decision reads and writes, as a `Tracker` value. */
    ghost function State(): Tracker
      reads this
    {
      Tracker(loggingEnabled, cooldownSeconds, recentViolations, lastCleanupTime, loggedToday)
    }

    /**
     * A new logger, switched off, with an empty cooldown map and the daily map loaded from
     * the parsed store `stored` (empty when there is no file).
     */
    constructor(cooldownSeconds: int, minFaceConfidence: real, now: real,
                stored: map<string, StoredEntry>, today: string)
      ensures Valid()
      ensures !loggingEnabled && this.cooldownSeconds == cooldownSeconds
      ensures this.minFaceConfidence == minFaceConfidence
      ensures recentViolations == map[] && lastCleanupTime == now && pendingTasks == 0
      ensures forall p :: p in loggedToday <==> p in stored && KeptOnLoad(stored[p], today)
      ensures forall p :: p in loggedToday ==> loggedToday[p] == LoadedInfo(stored[p], today)
    {
      var loaded := LoadDailyLogs(stored, today);
      loggingEnabled := false;
      this.cooldownSeconds := cooldownSeconds;
      this.minFaceConfidence := minFaceConfidence;
      recentViolations := map[];
      lastCleanupTime := now;
      pendingTasks := 0;
      maxPendingTasks := MaxPendingTasks;
      loggedToday := loaded;
    }

    /**
     * `_filter_faces_by_confidence`: same length and order; a face below the threshold is
     * renamed "Unknown" and loses its user id; every other face is unchanged.
     */
    method FilterFacesByConfidence(faces: seq<Face>) returns (filtered: seq<Face>)
      ensures |filtered| == |faces|
      ensures forall i :: 0 <= i < |faces| && faces[i].confidence < minFaceConfidence ==>
        filtered[i] == faces[i].(name := UnknownName, userId := None)
      ensures forall i :: 0 <= i < |faces| && faces[i].confidence >= minFaceConfidence ==>
        filtered[i] == faces[i]
      ensures filtered == FilterFaces(faces, minFaceConfidence)
    {
      filtered := [];
      for i := 0 to |faces|
        invariant filtered == FilterFaces(faces[..i], minFaceConfidence)
      {
        var face := faces[i];
        if face.confidence < minFaceConfidence {
          face := face.(name := UnknownName, userId := None);
        }
        filtered := filtered + [face];
      }
      assert faces[..|faces|] == faces;
    }

    method EnableLogging()
      modifies this`loggingEnabled, this`recentViolations
      ensures loggingEnabled && recentViolations == map[]
    {
      loggingEnabled := true;
      recentViolations := map[];
    }

    method DisableLogging()
      modifies this`loggingEnabled, this`recentViolations
      ensures !loggingEnabled && recentViolations == map[]
    {
      loggingEnabled := false;
      recentViolations := map[];
    }

    /** Flips the switch; the cooldown map is cleared only when logging becomes enabled. */
    method ToggleLogging() returns (enabled: bool)
      modifies this`loggingEnabled, this`recentViolations
      ensures loggingEnabled == !old(loggingEnabled) && enabled == loggingEnabled
      ensures recentViolations == if loggingEnabled then map[] else old(recentViolations)
    {
      loggingEnabled := !loggingEnabled;
      if loggingEnabled {
        recentViolations := map[];
      }
      enabled := loggingEnabled;
    }

    /** The cooldown is never set below one second. */
    method SetCooldown(seconds: int)
      modifies this`cooldownSeconds
      ensures cooldownSeconds >= 1
      ensures cooldownSeconds == if seconds < 1 then 1 else seconds
    {
      cooldownSeconds := if 1 < seconds then seconds else 1;
    }

    /** `_cleanup_old_violations`, collecting the expired keys and deleting them one by one. */
    method CleanupOldViolations(now: real)
      modifies this`recentViolations, this`lastCleanupTime
      ensures State() == Cleanup(old(State()), now)
    {
      if now - lastCleanupTime < CleanupInterval {
        assert State() == old(State());
        return;
      }
      lastCleanupTime := now;
      var expired := set k | k in recentViolations &&
                             now - recentViolations[k] > cooldownSeconds as real;
      ghost var allExpired := expired;
      ghost var before := recentViolations;
      while expired != {}
        invariant lastCleanupTime == now
        invariant expired <= allExpired
        invariant recentViolations == before - (allExpired - expired)
        decreases expired
      {
        var key :| key in expired;
        recentViolations := recentViolations - {key};
        expired := expired - {key};
      }
      assert recentViolations == Unexpired(before, now, cooldownSeconds);

    }

    /** `_is_person_logged_today`, which also deletes a stale entry for `name`. */
    method IsPersonLoggedToday(name: string, today: string) returns (logged: bool)
      modifies this`loggedToday
      ensures logged == LoggedOn(old(loggedToday), name, today)
      ensures loggedToday == DropStale(old(loggedToday), name, today)
    {
      if name in loggedToday {
        if loggedToday[name].date != today {
          loggedToday := loggedToday - {name};
          return false;
        }
      }
      logged := name in loggedToday && loggedToday[name].date == today;
    }

    method MarkPersonLoggedToday(name: string, items: seq<string>, filepath: string, today: string)
      modifies this`loggedToday
      ensures loggedToday == MarkLogged(old(loggedToday), name, items, filepath, today)
    {
      loggedToday := loggedToday[name := LogInfo(today, SortStrings(items), Some(filepath))];
    }

    method HasDifferentViolations(name: string, items: seq<string>) returns (different: bool)
      ensures different <==> DifferentItems(loggedToday, name, items)
    {
      if name !in loggedToday {
        return true;
      }
      var loggedItems := set x | x in loggedToday[name].items;
      var currentItems := set x | x in items;
      different := loggedItems != currentItems;
    }

    /** The daily-map part of `_delete_previous_log`: the entry for `name` is removed. */
    method DeletePreviousLog(name: string)
      modifies this`loggedToday
      ensures loggedToday == old(loggedToday) - {name}
    {
      if name !in loggedToday {
        return;
      }
      loggedToday := loggedToday - {name};
    }

    /** Drops any "Unknown" entry and marks the identified person instead. */
    method ReplaceUnknownWithIdentified(name: string, items: seq<string>, filepath: string,
                                        today: string)
      modifies this`loggedToday
      ensures loggedToday == MarkLogged(old(loggedToday) - {UnknownName}, name, items, filepath, today)
    {
      if UnknownName in loggedToday {
        DeletePreviousLog(UnknownName);
      }
      MarkPersonLoggedToday(name, items, filepath, today);
    }

    /**
     * `_should_log_violation`, walking the identified persons with an early return and then
     * consulting and writing the cooldown map. It computes exactly `Decide`.
     */
    method ShouldLogViolation(faces: seq<Face>, items: seq<string>, now: real, today: string)
      returns (d: Decision)
      modifies this`recentViolations, this`lastCleanupTime, this`loggedToday
      ensures Outcome(d, State()) == Decide(old(State()), faces, items, now, today)
    {
      if !loggingEnabled {
        return Disabled;
      }
      if faces == [] {
        return NoFaces;
      }
      CleanupOldViolations(now);
      ghost var cleaned := State();
      var identified := IdentifiedNames(faces);
      var i := 0;
      while i < |identified|
        invariant 0 <= i <= |identified|
        invariant State() == cleaned.(logged := loggedToday)
        invariant CheckIdentified(cleaned.logged, identified, items, today) ==
                  CheckIdentified(loggedToday, identified[i..], items, today)
      {
        assert identified[i..][1..] == identified[i + 1..];
        var logged := IsPersonLoggedToday(identified[i], today);
        if logged {
          var different := HasDifferentViolations(identified[i], items);
          if different {
            return Updating;
          } else {
            return AlreadyLogged(identified[i]);
          }
        }
        i := i + 1;
      }
      var key := ViolationKey(Names(faces), items);
      if key in recentViolations && now - recentViolations[key] < cooldownSeconds as real {
        return CooldownActive;
      }
      recentViolations := recentViolations[key := now];
      return Approved;
    }

    /**
     * The synchronous part of `save_violation`: filter, decide, and queue the save unless
     * the queue already holds `maxPendingTasks` saves.
     */
    method SaveViolation(faces: seq<Face>, items: seq<string>, now: real, today: string)
      returns (queued: bool, job: Option<SaveJob>)
      requires Valid()
      modifies this`recentViolations, this`lastCleanupTime, this`loggedToday, this`pendingTasks
      ensures Valid()
      ensures var filtered := FilterFaces(faces, minFaceConfidence);
              var o := Decide(old(State()), filtered, items, now, today);
              && State() == o.tracker
              && queued == (o.decision.shouldLog && old(pendingTasks) < maxPendingTasks)
              && pendingTasks == old(pendingTasks) + (if queued then 1 else 0)
              && job == (if queued then Some(SaveJob(IdentifiedNames(filtered), items,
                                                     o.decision.deletePrevious))
                         else None)
    {
      if !loggingEnabled {
        return false, None;
      }
      var filtered := FilterFacesByConfidence(faces);
      var d := ShouldLogViolation(filtered, items, now, today);
      if !d.shouldLog {
        return false, None;
      }
      if pendingTasks >= maxPendingTasks {
        return false, None;
      }
      pendingTasks := pendingTasks + 1;
      var identified := IdentifiedNames(filtered);
      return true, Some(SaveJob(identified, items, d.deletePrevious));
    }

    /**
     * The daily-map updates of the background save, after the image has been written:
     * previous entries removed when the item set changed, then every identified person marked.
     */
    method RecordSavedViolation(job: SaveJob, filepath: string, today: string)
      modifies this`loggedToday
      ensures loggedToday == Recorded(old(loggedToday), job, filepath, today)
    {
      if job.deletePrevious && job.identified != [] {
        for i := 0 to |job.identified|
          invariant loggedToday == old(loggedToday) - (set p | p in job.identified[..i])
        {
          assert job.identified[..i + 1] == job.identified[..i] + [job.identified[i]];
          DropPersonsStep(old(loggedToday), job.identified[..i], job.identified[..i + 1], job.identified[i]);
          DeletePreviousLog(job.identified[i]);
        }
        assert job.identified[..|job.identified|] == job.identified;
      }
      ghost var base := loggedToday;
      for i := 0 to |job.identified|
        invariant loggedToday == base + map p | p in job.identified[..i] :: SavedInfo(job.items, filepath, today)
      {
        assert job.identified[..i + 1] == job.identified[..i] + [job.identified[i]];
        MarkPersonsStep(base, job.identified[..i], job.identified[..i + 1], job.identified[i],
                        SavedInfo(job.items, filepath, today));
        MarkPersonLoggedToday(job.identified[i], job.items, filepath, today);
      }
      assert job.identified[..|job.identified|] == job.identified;
    }

    /** `_on_task_complete`: one queued save has finished. */
    method OnTaskComplete()
      requires Valid() && pendingTasks > 0
      modifies this`pendingTasks
      ensures Valid() && pendingTasks == old(pendingTasks) - 1
    {
      pendingTasks := pendingTasks - 1;
    }

    /**
     * `get_stats`, as written: the persons count compares records with the date string and
     * is therefore always 0 (the intended count is `PersonsLoggedToday`).
     */
    method GetStats(today: string) returns (stats: LoggerStats)
      ensures stats.loggingEnabled == loggingEnabled && stats.cooldownSeconds == cooldownSeconds
      ensures stats.minFaceConfidence == minFaceConfidence
      ensures stats.activeViolations == |recentViolations|
      ensures stats.personsLoggedToday == PersonsLoggedTodayAsWritten(loggedToday, today)
      ensures stats.personsLoggedToday == 0
    {
      StatsCountAsWrittenIsZero(loggedToday, today);
      stats := LoggerStats(loggingEnabled, cooldownSeconds, minFaceConfidence,
                           |recentViolations|, PersonsLoggedTodayAsWritten(loggedToday, today));
    }
  }

  /** `ViolationLogger()` with the class defaults: a 7-second cooldown and a 35% threshold. */
  method NewViolationLogger(now: real, stored: map<string, StoredEntry>, today: string)
    returns (l: ViolationLogger)
    ensures fresh(l) && l.Valid() && !l.loggingEnabled
    ensures l.cooldownSeconds == DefaultCooldownSeconds
    ensures l.minFaceConfidence == DefaultMinFaceConfidence
    ensures l.recentViolations == map[] && l.pendingTasks == 0
    ensures forall p :: p in l.loggedToday <==> p in stored && KeptOnLoad(stored[p], today)
  {
    l := new ViolationLogger(DefaultCooldownSeconds, DefaultMinFaceConfidence, now, stored, today);
  }

  /**
   * The process-wide getter. `instance` is the module's single instance, if one exists: it is
   * returned as it is and the arguments are ignored. Otherwise a new instance is built with
   * a 10-second cooldown and a 47% threshold, and the caller keeps it as the single instance.
   */
  method GetViolationLogger(instance: Option<ViolationLogger>, now: real,
                            stored: map<string, StoredEntry>, today: string)
    returns (l: ViolationLogger)
    ensures instance.Some? ==> l == instance.value
    ensures instance.None? ==> fresh(l) && l.Valid() && !l.loggingEnabled
    ensures instance.None? ==> l.cooldownSeconds == SingletonCooldownSeconds
    ensures instance.None? ==> l.minFaceConfidence == SingletonMinFaceConfidence
    ensures instance.None? ==> l.recentViolations == map[] && l.pendingTasks == 0
    ensures instance.None? ==>
      forall p :: p in l.loggedToday <==> p in stored && KeptOnLoad(stored[p], today)
  {
    if instance.Some? {
      return instance.value;
    }
    l := new ViolationLogger(SingletonCooldownSeconds, SingletonMinFaceConfidence, now, stored, today);
  }
}
