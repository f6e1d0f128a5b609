/**
 * Whole-frame runs of the violation logger: a known person and an unknown person seen
 * repeatedly, with the clock and the calendar day advancing.
 */
module ViolationScenarios {
  import opened Wrappers
  import opened Text
  import opened ViolationLog

  const Day1: string := "2025-01-25"
  const Day2: string := "2025-01-26"
  const Box: BBox := BBox(40, 120, 120, 40)

  /** A logger as the process-wide getter builds it, switched on, with nothing logged yet. */
  const Start: Tracker := Tracker(true, SingletonCooldownSeconds, map[], 0.0, map[])

  /**
   * Alice, matched at 85%, wearing shorts: logged at t=0; refused at t=5 and at t=20 because
   * she is already logged today; logged again on the next day.
   */
  lemma KnownPersonOncePerDay()
    ensures var alice := Face("Alice", 85.0, Some("alice"), Box);
            var r1 := ProcessFrame(Start, SingletonMinFaceConfidence, [alice], ["Shorts"], 0.0, Day1, "v1.jpg");
            var r2 := ProcessFrame(r1.tracker, SingletonMinFaceConfidence, [alice], ["Shorts"], 5.0, Day1, "v2.jpg");
            var r3 := ProcessFrame(r2.tracker, SingletonMinFaceConfidence, [alice], ["Shorts"], 20.0, Day1, "v3.jpg");
            var r4 := ProcessFrame(r3.tracker, SingletonMinFaceConfidence, [alice], ["Shorts"], 86400.0, Day2, "v4.jpg");
            && r1.decision == Approved
            && r2.decision == AlreadyLogged("Alice")
            && r3.decision == AlreadyLogged("Alice")
            && r4.decision == Approved
            && LoggedOn(r4.tracker.logged, "Alice", Day2)
  {
    var alice := Face("Alice", 85.0, Some("alice"), Box);
    var faces := FilterFaces([alice], SingletonMinFaceConfidence);
    assert faces == [alice];
    assert Names(faces) == ["Alice"] && IdentifiedNames(faces) == ["Alice"];
    var key := ViolationKey(["Alice"], ["Shorts"]);
    var job := SaveJob(["Alice"], ["Shorts"], false);
    assert SortStrings(["Shorts"]) == ["Shorts"];

    var r1 := ProcessFrame(Start, SingletonMinFaceConfidence, [alice], ["Shorts"], 0.0, Day1, "v1.jpg");
    assert r1.decision == Approved;
    var logged1 := Recorded(map[], job, "v1.jpg", Day1);
    RecordedMarksEveryone(map[], job, "v1.jpg", Day1);
    assert r1.tracker == Start.(recent := map[key := 0.0], logged := logged1);

    var r2 := ProcessFrame(r1.tracker, SingletonMinFaceConfidence, [alice], ["Shorts"], 5.0, Day1, "v2.jpg");
    SameItemsBlockedToday(r1.tracker, faces, ["Shorts"], 5.0, Day1, 0);
    assert r2.tracker == Cleanup(r1.tracker, 5.0);

    var r3 := ProcessFrame(r2.tracker, SingletonMinFaceConfidence, [alice], ["Shorts"], 20.0, Day1, "v3.jpg");
    SameItemsBlockedToday(r2.tracker, faces, ["Shorts"], 20.0, Day1, 0);
    assert r3.tracker.logged == logged1;

    var r4 := ProcessFrame(r3.tracker, SingletonMinFaceConfidence, [alice], ["Shorts"], 86400.0, Day2, "v4.jpg");
    CooldownStep(r3.tracker, faces, ["Shorts"], 86400.0, Day2);
    assert r4.decision == Approved;
    RecordedMarksEveryone(Decide(r3.tracker, faces, ["Shorts"], 86400.0, Day2).tracker.logged,
                          job, "v4.jpg", Day2);
  }

  /**
   * A face matched only at 30% counts as "Unknown": logged at t=0, refused by the cooldown
   * at t=0.5, logged again at t=20, with no daily cap.
   */
  lemma UnknownPersonOnlyCooldown()
    ensures var bob := Face("Bob", 30.0, Some("bob"), Box);
            var r1 := ProcessFrame(Start, SingletonMinFaceConfidence, [bob], ["Shorts"], 0.0, Day1, "v1.jpg");
            var r2 := ProcessFrame(r1.tracker, SingletonMinFaceConfidence, [bob], ["Shorts"], 0.5, Day1, "v2.jpg");
            var r3 := ProcessFrame(r2.tracker, SingletonMinFaceConfidence, [bob], ["Shorts"], 20.0, Day1, "v3.jpg");
            && r1.decision == Approved
            && r2.decision == CooldownActive
            && r3.decision == Approved
            && r3.tracker.logged == map[]
  {
    var bob := Face("Bob", 30.0, Some("bob"), Box);
    var faces := FilterFaces([bob], SingletonMinFaceConfidence);
    assert faces == [Face(UnknownName, 30.0, None, Box)];
    assert Names(faces) == [UnknownName] && IdentifiedNames(faces) == [];
    var key := ViolationKey([UnknownName], ["Shorts"]);

    var r1 := ProcessFrame(Start, SingletonMinFaceConfidence, [bob], ["Shorts"], 0.0, Day1, "v1.jpg");
    assert r1.decision == Approved;
    var job := SaveJob([], ["Shorts"], false);
    assert Recorded(map[], job, "v1.jpg", Day1) == map[];
    assert r1.tracker == Start.(recent := map[key := 0.0]);

    var r2 := ProcessFrame(r1.tracker, SingletonMinFaceConfidence, [bob], ["Shorts"], 0.5, Day1, "v2.jpg");
    CooldownWindow(r1.tracker, faces, ["Shorts"], 0.0, 0.5, Day1);
    assert r2.tracker == r1.tracker;

    var r3 := ProcessFrame(r2.tracker, SingletonMinFaceConfidence, [bob], ["Shorts"], 20.0, Day1, "v3.jpg");
    CooldownWindow(r2.tracker, faces, ["Shorts"], 0.0, 20.0, Day1);
    assert Recorded(map[], job, "v3.jpg", Day1) == map[];
  }
}
