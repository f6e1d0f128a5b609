# DressGuardAI rules core, in Dafny

DressGuardAI checks people on camera for dress-code compliance. It runs a clothing detector and
face recognition on each frame, sorts the detected clothing into approved, prohibited and
neutral classes, and logs a violation image when the rules say that one is worth logging. This
project models the rule logic around those detectors and proves properties of it:

- **Violation logger** (`ViolationLog.dfy`, with end-to-end runs in `ViolationScenarios.dfy`).
  This is the de-duplication engine that decides per frame whether a violation is logged:
  - a face-confidence filter that turns weak matches into `"Unknown"`;
  - the fingerprint pre-image built from face names and item names;
  - the cooldown map from fingerprint to time, purged at most every 5 seconds;
  - the per-person daily map, filtered when it is loaded;
  - the enable/disable switch and the bound on pending background saves.

  The decision ladder is the pure function `Decide` over a `Tracker` value. The class
  `ViolationLogger` updates its fields step by step, as the program does, and each of its
  methods is proved to agree with the pure functions.
- **Compliance rules** (`Compliance.dfy`):
  - the `ComplianceManager` class, holding the two normalised class-name sets and their
    add/remove/replace operations;
  - the three classifiers, which put each detection into exactly one bucket.
- **TTL cache** (`Cache.dfy`): `SimpleCache`, with expiry times and hit/miss counters.
- **Frame processing** (`FrameProcessing.dfy`): the frame-skip counter and the
  detection-parameter tiers.
- **Server rules** (`Server.dfy`): rules embedded in the server's handlers and in its webcam
  stream:
  - the distance/detection mode switch and its progress value;
  - the upload checks;
  - the case-insensitive model lookup;
  - overlap resolution when a new rule set is posted;
  - filtering of the rule set to the current model's class names.
- **Support modules**:
  - `Text.dfy`: ASCII lower-casing, Python's `strip`, string order and sorting, `join`,
    order-keeping de-duplication, and the text after the last dot;
  - `Config.dfy`: the configuration constants;
  - `Wrappers.dfy`: `Option` and `Result`.

Clocks are parameters. `now` is seconds as a `real`, and `today` is the ISO date string.
Confidences are `real`; they are only ever compared.

## Model

| member | source | states |
|---|---|---|
| ViolationLog.ViolationLogger.FilterFacesByConfidence | utils/violation_logger.py:154-169 | same length and order; a face below the threshold becomes `"Unknown"` with no user id; a face at or above it is unchanged; confidences and boxes are never altered |
| ViolationLog.IdentifiedNames | utils/violation_logger.py:266 | `"Unknown"` is never among the identified names; every other face name is |
| ViolationLog.IdentifiedNamesAreFaceNames | utils/violation_logger.py:266 | every identified name is the name of one of the faces |
| ViolationLog.IdentifiedNamesInOrder | utils/violation_logger.py:266 | the identified names keep the faces' list order, duplicates included: a concatenation of faces gives the concatenation of their names, and one face gives its name unless it is `"Unknown"` |
| ViolationLog.FingerprintOrderInsensitive | utils/violation_logger.py:209-214 | the fingerprint pre-image is the same for any reordering of the names or the items |
| ViolationLog.FingerprintIgnoresFaceOrder | utils/violation_logger.py:209-214 | reordering the faces of a frame does not change its fingerprint |
| ViolationLog.NamesPermute | utils/violation_logger.py:210 | permuted faces give a permuted name list |
| ViolationLog.FingerprintKeepsDuplicates | utils/violation_logger.py:210-214 | two Unknown faces give a different fingerprint from one: duplicates are not collapsed |
| ViolationLog.FingerprintCountsEveryFace | utils/violation_logger.py:210-214 | one more face with a non-empty name, `"Unknown"` or a duplicate included, lengthens the fingerprint pre-image by that name plus one separator when other faces are present, so the fingerprint always changes |
| ViolationLog.LoadDailyLogs | utils/violation_logger.py:50-61 | a stored entry is kept exactly when it is an old-format date equal to today or a record dated today; old-format entries become records with no items and no file; every kept entry is dated today |
| ViolationLog.ViolationLogger.constructor | utils/violation_logger.py:19-36 | logging starts off, the cooldown map is empty, the cleanup clock starts at `now`, no saves are pending, the queue bound is 3, and the daily map is the loaded one |
| ViolationLog.MarkThenLogged | utils/violation_logger.py:87-105 | after marking, the person is logged today and not on another day, the same items are not "different", and the other persons' entries are unchanged |
| ViolationLog.DropStaleKeepsToday | utils/violation_logger.py:74-85 | the query keeps the person's entry exactly when it is dated today, unchanged when kept; every other person keeps the same entry |
| ViolationLog.ViolationLogger.IsPersonLoggedToday | utils/violation_logger.py:74-85 | the answer is "entry dated today", and a stale entry is deleted as a side effect |
| ViolationLog.ViolationLogger.MarkPersonLoggedToday | utils/violation_logger.py:87-94 | stores today, the sorted items and the file path for that person only |
| ViolationLog.ViolationLogger.HasDifferentViolations | utils/violation_logger.py:97-105 | true exactly when the person has no entry or the stored item set differs from the current one |
| ViolationLog.ViolationLogger.DeletePreviousLog | utils/violation_logger.py:107-124 | removes exactly that person's entry (the image deletion is not modelled) |
| ViolationLog.ViolationLogger.ReplaceUnknownWithIdentified | utils/violation_logger.py:126-142 | drops the `"Unknown"` entry, then marks the identified person |
| ViolationLog.ViolationLogger.EnableLogging | utils/violation_logger.py:172-176 | logging on and the cooldown map emptied |
| ViolationLog.ViolationLogger.DisableLogging | utils/violation_logger.py:178-182 | logging off and the cooldown map emptied |
| ViolationLog.ViolationLogger.ToggleLogging | utils/violation_logger.py:184-191 | the flag flips and the new value is returned; the map is emptied only when the new state is enabled |
| ViolationLog.ViolationLogger.SetCooldown | utils/violation_logger.py:568-570 | the cooldown becomes `max(1, seconds)` |
| ViolationLog.CleanupExact | utils/violation_logger.py:219-234 | nothing changes unless at least 5 s have passed since the last purge; otherwise the purge time becomes `now` and exactly the entries older than the cooldown (strictly) are removed; surviving timestamps are unchanged |
| ViolationLog.ViolationLogger.CleanupOldViolations | utils/violation_logger.py:219-234 | the new state is the purge function of the old state |
| ViolationLog.DecideWhenDisabled | utils/violation_logger.py:254-255 | with logging off the answer is `(False, "Logging disabled", False)` and nothing changes |
| ViolationLog.DecideWithoutFaces | utils/violation_logger.py:257-260 | with no faces the answer is `(False, "No faces detected", False)` and nothing changes |
| ViolationLog.UnknownNeverDailyChecked | utils/violation_logger.py:266-280 | the decision never adds or removes the daily entry of `"Unknown"`; a frame of only Unknown faces leaves the daily map as it was |
| ViolationLog.AllUnknownIdentifiesNobody | utils/violation_logger.py:266 | a frame of only Unknown faces has no identified persons |
| ViolationLog.CheckIdentifiedFrame | utils/violation_logger.py:270-272 | the walk over identified persons touches only their own daily entries |
| ViolationLog.FirstLoggedDecides | utils/violation_logger.py:270-280 | the first identified person, in list order, who is logged today decides: same items give "Already logged today: name", different items give "updating" |
| ViolationLog.NoneLoggedFallsThrough | utils/violation_logger.py:270-282 | when no identified person is logged today, the walk has no verdict and only drops stale entries |
| ViolationLog.DifferentItemsBypassCooldown | utils/violation_logger.py:274-277 | a person logged today with a different item set is approved with `deletePrevious`, with no cooldown check and no cooldown write |
| ViolationLog.SameItemsBlockedToday | utils/violation_logger.py:278-280 | a person logged today with the same item set is refused by name; the cooldown map is only purged |
| ViolationLog.CooldownStep | utils/violation_logger.py:284-298 | a fingerprint stamped less than the cooldown ago is refused with "Cooldown active" and the map is unchanged; otherwise the call is approved and the fingerprint is stamped with `now` |
| ViolationLog.CooldownWindow | utils/violation_logger.py:282-298 | an all-Unknown frame is refused inside the cooldown window and approved again after it, with no daily cap |
| ViolationLog.ViolationLogger.ShouldLogViolation | utils/violation_logger.py:239-298 | the decision and the new state are those of the pure ladder `Decide` |
| ViolationLog.ViolationLogger.SaveViolation | utils/violation_logger.py:300-335 | logging off or a refused decision queues nothing; a full queue (3 pending) queues nothing, but the cooldown stamp stays; otherwise one more save is pending, carrying the identified persons, the items and `deletePrevious` |
| ViolationLog.ViolationLogger.RecordSavedViolation | utils/violation_logger.py:383-409 | with `deletePrevious` and identified persons, their old entries are removed first; then every identified person is marked with the new file |
| ViolationLog.ProcessFrame | utils/violation_logger.py:239-335 | one frame end to end, from the face filter (154-169) through the decision to a completed save (383-409): the decision and cooldown map are those of `Decide` on the filtered faces; a refused frame changes nothing else; after an approved frame every identified person is logged today with those items. The queue had room and the save completed |
| ViolationLog.RecordedMarksEveryone | utils/violation_logger.py:405-409 | after a save every identified person is logged today with those items, and no one else's presence changes |
| ViolationLog.ViolationLogger.OnTaskComplete | utils/violation_logger.py:361-364 | one pending save fewer, and the bound is kept |
| ViolationLog.PersonsLoggedToday | utils/violation_logger.py:554-557 | corrected count: at most the number of entries |
| ViolationLog.MarkedPersonIsCounted | utils/violation_logger.py:87-94 | once someone is marked today, the corrected count is at least 1 |
| ViolationLog.LoadedAllCounted | utils/violation_logger.py:50-61 | after loading, every entry counts as logged today |
| ViolationLog.StatsCountAsWrittenIsZero | utils/violation_logger.py:557 | as written, the count is 0 for every daily map |
| ViolationLog.StatsCountDiscrepancy | utils/violation_logger.py:557 | with Alice marked today, the count as written is 0 and the corrected one is 1 |
| ViolationLog.ViolationLogger.GetStats | utils/violation_logger.py:554-566 | reports the switch, cooldown, face threshold and active cooldown entries; the persons count is the as-written one, which compares records with the date string and is always 0 (see Findings) |
| ViolationLog.GetViolationLogger | utils/violation_logger.py:574-581 | an existing instance is returned as it is and the arguments are ignored; without one, a new logger is built with cooldown 10 and face threshold 47, logging off and the loaded daily map |
| ViolationLog.NewViolationLogger | utils/violation_logger.py:19 | the class defaults: cooldown 7 and face threshold 35, logging off and the loaded daily map |
| ViolationScenarios.KnownPersonOncePerDay | utils/violation_logger.py:239-298 | Alice wearing shorts: logged at t=0; refused by name at t=5 and t=20; logged again the next day |
| ViolationScenarios.UnknownPersonOnlyCooldown | utils/violation_logger.py:239-298 | a weak match becomes Unknown: logged at t=0, refused by the cooldown at t=0.5, logged again at t=20; the daily map stays empty |
| Text.Strip | utils/compliance.py:52 | Python's `strip`: the result neither starts nor ends with whitespace |
| Text.StripExact | utils/compliance.py:52 | the result of `strip` is a slice of the input, and every character outside that slice is whitespace |
| Text.NormaliseIdempotent | utils/compliance.py:64 | normalising a normalised name changes nothing |
| Text.SortStrings | utils/violation_logger.py:92 | the result is sorted and a permutation of the input |
| Text.SortIgnoresOrder | utils/violation_logger.py:210-211 | inputs that are permutations of each other sort to the same list |
| Text.SortedUnique | utils/violation_logger.py:210-211 | two sorted permutations of each other are equal |
| Text.BelowTotal | utils/compliance.py:88 | string order is total (with BelowReflexive, BelowAntisymmetric and BelowTransitive it is a total order) |
| Text.BelowTransitive | utils/compliance.py:88 | string order is transitive |
| Text.Dedup | utils/compliance.py:154-155 | `dict.fromkeys`: no duplicates, the same elements, first-occurrence order |
| Text.AfterLastDot | main.py:160 | `split('.')[-1]`: no dot, a suffix of the name, preceded by a dot when shorter than the name |
| Config.ConfiguredSetsDisjoint | config.py:23-35 | the built-in approved and prohibited sets are disjoint |
| Compliance.ComplianceManager.constructor | utils/compliance.py:13-18 | the built-in sets and threshold 0.5 |
| Compliance.ComplianceManager.SetCompliantClasses | utils/compliance.py:50-54 | the approved set becomes the set of normalised names |
| Compliance.ComplianceManager.SetNonCompliantClasses | utils/compliance.py:56-60 | the prohibited set becomes the set of normalised names |
| Compliance.NormalisedSetExact | utils/compliance.py:52 | every stored name is in normal form and every given name is stored normalised |
| Compliance.ComplianceManager.AddCompliantClass | utils/compliance.py:62-68 | the normalised name is approved and not prohibited; other names are untouched; disjointness is kept |
| Compliance.ComplianceManager.AddNonCompliantClass | utils/compliance.py:70-76 | the mirror image of adding an approved name |
| Compliance.ComplianceManager.RemoveClass | utils/compliance.py:78-83 | the normalised name is in neither set; disjointness is kept |
| Compliance.AddedClassApproved | utils/compliance.py:62-68 | after adding, a confident detection of that name is approved |
| Compliance.AddedClassProhibited | utils/compliance.py:70-76 | after adding as prohibited, a confident detection of that name is prohibited |
| Compliance.RemovedClassNeutral | utils/compliance.py:78-83 | after removal, a confident detection of that name is neutral |
| Compliance.ComplianceManager.GetConfig | utils/compliance.py:85-91 | both lists are sorted, duplicate-free and hold exactly the set's names |
| Compliance.SortedList | utils/compliance.py:88-89 | `sorted(list(s))` is sorted, duplicate-free and has the set's elements |
| Compliance.ComplianceManager.CheckCompliance | utils/compliance.py:93-163 | the buckets are exactly the low, prohibited, approved and neutral detections in order; skipped detections never appear among the non-compliant ones; the high-confidence count is the number of distinct normalised names; the names are de-duplicated in first-occurrence order; compliant exactly when no confident detection has a prohibited name |
| Compliance.SelectExact | utils/compliance.py:109-141 | a bucket holds only detections of its category, and is empty exactly when no detection has that category |
| Compliance.SelectComplete | utils/compliance.py:109-141 | every detection of a chosen category is in the bucket |
| Compliance.BucketsPartition | utils/compliance.py:271-295 | the four bucket sizes add up to the number of detections |
| Compliance.ProhibitedWins | utils/compliance.py:125-137 | a name in both sets is prohibited |
| Compliance.CategoryIgnoresSpelling | utils/compliance.py:110 | classifying an already-normalised name gives the same bucket |
| Compliance.IsCompliant | utils/compliance.py:165-241 | strict verdict over the built-in sets: compliant exactly when every confident detection has an approved name; prohibited and neutral names are both flagged, de-duplicated in order |
| Compliance.FlaggedSize | utils/compliance.py:199-219 | the strict flag list holds as many entries as there are prohibited and neutral detections together |
| Compliance.StrictFlagsUnlisted | utils/compliance.py:213-218 | a confident detection listed in neither set, anywhere in the list, is among the flagged ones, with the reason "Not in approved list" |
| Compliance.GetComplianceDetails | utils/compliance.py:244-304 | the four buckets in order; the counts add up to the total; compliant exactly when nothing is prohibited or unknown, i.e. every confident detection is approved |
| Cache.SimpleCache.constructor | utils/cache.py:18-28 | an empty cache with both counters at 0 |
| Cache.NewGlobalCache | utils/cache.py:162 | the shared cache is empty, with both counters at 0 and the default ttl of 300 seconds |
| Cache.SimpleCache.Get | utils/cache.py:47-72 | the result and the new state are those of `Fetch`: a missing key is a miss and changes nothing else; an expired entry is deleted and counted as a miss; a live entry is a hit |
| Cache.GetCountsOnce | utils/cache.py:57-72 | every lookup is counted once, as a hit exactly when it returns a value, which happens exactly for a live entry |
| Cache.GetFrame | utils/cache.py:57-72 | a lookup only ever removes the expired entry it looked up |
| Cache.SimpleCache.Set | utils/cache.py:74-92 | stores the value, expiring at `now + ttl`, where an absent ttl or a ttl of 0 falls back to the default |
| Cache.GetAfterSet | utils/cache.py:74-90 | a value stored is returned until its expiry, with a hit counted |
| Cache.GetAfterExpiry | utils/cache.py:61-68 | after its expiry the value misses and the entry is gone |
| Cache.SetOtherKeys | utils/cache.py:86-90 | storing one key leaves every other key's lookup unchanged |
| Cache.SimpleCache.Delete | utils/cache.py:94-103 | removes only that key; an absent key changes nothing |
| Cache.GetAfterDelete | utils/cache.py:94-103 | a deleted key misses |
| Cache.SimpleCache.Clear | utils/cache.py:105-110 | no entries and both counters 0 |
| Cache.SimpleCache.CleanupExpired | utils/cache.py:112-124 | removes exactly the entries with `now > expires`; the counters are untouched |
| Cache.CleanupTransparent | utils/cache.py:112-124 | a purge never changes what a later lookup returns |
| Cache.CleanupIdempotent | utils/cache.py:112-124 | a second purge at the same time removes nothing |
| Cache.Stats | utils/cache.py:126-142 | total requests are hits plus misses; entries is the size of the map |
| Cache.SimpleCache.GetStats | utils/cache.py:126-142 | the statistics of the current state |
| FrameProcessing.FrameProcessor.constructor | utils/frame_processor.py:17-26 | both counters start at 0 |
| FrameProcessing.NewFrameProcessor | utils/frame_processor.py:17 | the default processor: longest side 1280 and both counters at 0 |
| FrameProcessing.FrameProcessor.ShouldProcessFrame | utils/frame_processor.py:65-81 | one call of the counter machine `Step`; `skip <= frame` is kept |
| FrameProcessing.StepCounts | utils/frame_processor.py:75-81 | each call adds 1 to the frame count; it processes exactly when the new count is a multiple of the interval, and otherwise adds 1 to the skip count |
| FrameProcessing.RunKeepsOrder | utils/frame_processor.py:75-81 | the skip count never exceeds the frame count |
| FrameProcessing.IntervalOneProcessesAll | utils/frame_processor.py:65-78 | with interval 1 every frame is processed and nothing is skipped |
| FrameProcessing.RunProcessesOneInK | utils/frame_processor.py:75-81 | from reset counters, n calls with interval k > 0 process exactly n / k frames |
| FrameProcessing.Stats | utils/frame_processor.py:146-149 | total = processed + skipped |
| FrameProcessing.FrameProcessor.GetStats | utils/frame_processor.py:139-151 | the counts of the current state |
| FrameProcessing.FrameProcessor.ResetStats | utils/frame_processor.py:153-156 | both counters back to 0 |
| FrameProcessing.ParamsTiers | utils/frame_processor.py:159-193 | below 640·480 pixels: conf 0.3 and 100 boxes; above 1920·1080: conf 0.2 and 500; otherwise 0.25 and 300; iou is always 0.45; half precision exactly on `"cuda"` |
| FrameProcessing.ParamsMonotone | utils/frame_processor.py:170-187 | more pixels never raise the confidence threshold and never lower the box limit |
| Server.ModeStepRules | main.py:527-542 | a good frame adds to the good run and ends the bad run, and a bad frame the reverse; at most one run is nonzero; detection starts only on a good frame with a long enough good run, and stops only on a bad frame with a long enough bad run; a good frame never stops detection and a bad frame never starts it |
| Server.ModeRunKeepsInvariant | main.py:527-542 | every reachable state has at most one nonzero run and, outside detection, a good run shorter than required |
| Server.GoodRun | main.py:527-533 | n good frames in a row leave a good run of n more and start detection exactly when that run reaches the requirement |
| Server.BadRun | main.py:534-542 | n bad frames in a row leave a bad run of n more and stop detection exactly when that run reaches the limit |
| Server.StreamStartsDetecting | main.py:527-533 | from the start of the stream, 5 good frames start detection and 4 do not |
| Server.StreamStopsDetecting | main.py:534-542 | from detection, 10 bad frames stop it and, from a clean run, 9 do not |
| Server.StreamModes | main.py:510-592 | the stream's loop follows the mode function frame by frame; without a distance checker every frame is detected |
| Server.Progress | main.py:569 | the progress value is between 0 and 100 |
| Server.ProgressFull | main.py:569 | progress is 100 exactly when the good run has reached the requirement |
| Server.ProgressBelowFullInDistanceMode | main.py:567-569 | in distance mode a reachable state's progress is below 100 |
| Server.ValidateUploadExact | main.py:155-187 | an upload is accepted exactly when the detector is ready, the extension is allowed, at most 10 MiB were sent, the image decoded and both sides are within 50..4096; a 503 is exactly a missing detector; each refusal names the first check that fails |
| Server.UploadExtensionOf | main.py:160-161 | the extension checked is the text after the last dot, lower-cased |
| Server.UploadExtensionWithoutDot | main.py:160-161 | a name without a dot is taken whole, so a bare `jpg` passes the extension check |
| Server.FirstMatch | main.py:238-242 | the first id equal to the request up to ASCII case; none before it matches; absent when none matches |
| Server.MatchModel | main.py:221-245 | 503 without a detector; otherwise the first case-insensitive match, or a 400 naming the available models when there is none (or the match is empty) |
| Server.UpdateComplianceConfig | main.py:361-386 | both lists are normalised; the overlap is removed from the approved set only and reported; the stored sets are disjoint; the prohibited set is the normalised input; the returned copy is sorted |
| Server.UpdatedRulesClassify | main.py:365-373 | after an update, a name posted in both lists is prohibited and a name posted only as approved is approved |
| Server.KeepAllowed | main.py:331-341 | the filtered list holds exactly the listed names that the model knows |
| Server.KeepAllowedKeepsOrder | main.py:331-341 | filtering keeps a sorted, duplicate-free list sorted and duplicate-free |
| Server.GetComplianceConfig | main.py:324-343 | sorted, duplicate-free lists of the configured names, restricted to the current model's lower-cased names when a model with names is loaded |

## Left out

- MD5 digests of the violation fingerprint and of cache keys: the fingerprint is modelled as its pre-image string (`ViolationKey`), and `_generate_key` is not modelled.
- Image pipeline: all cv2 drawing, encoding, resizing and enhancement, MJPEG streaming, and frame validation by brightness.
- File and JSON I/O. The model covers the daily-log file, the violation images and text logs, and the compliance config file only through the in-memory maps and sets they read and write. Loading the daily log starts from an already-parsed map.
- The stored configuration file that `ComplianceManager` loads at start.
- Concurrency: the thread pool, the lock, the async cleanup task, and the background save itself. `RecordSavedViolation` gives the save's effect on the daily map as one sequential step, which always completes. In the program, the previous entries are deleted before the image is drawn and written, so if drawing or `imwrite` raises, those persons stay deleted and are not marked again.
- ViolationLog.ProcessFrame: takes the save as queued and completed. A frame refused only because 3 saves are pending is not modelled here; `ViolationLogger.SaveViolation` models that case, where the daily map stays as `Decide` left it.
- The wall clock and the calendar date: they are parameters. `Decide` takes one `now` for both clock reads of a call, the one in the cooldown purge and the one in the cooldown check and stamp; the source reads the clock twice, microseconds apart.
- Unicode case folding: `Lower` folds ASCII letters only. `Strip` does follow Python's whitespace set.
- Missing-key defaults: a detection without a confidence defaulting to 0.0, and a stored record without a date.
- Float statistics: `hit_rate`, `skip_rate`, and the resize scale in `preprocess_frame`.
- Server.Progress: exact integer arithmetic; truncation of the float product may differ by one.
- MatchModel: the detector's own model switch, and its 500 on failure, are not modelled.
- ValidateUpload: the up-front connection and FastAPI plumbing are not modelled; the decoder's result is a parameter.
- UpdateComplianceConfig: a `null` threshold posted by a client is not modelled; the threshold is a real.
- FrameProcessing.FrameProcessor.ShouldProcessFrame: requires a nonzero interval, because Python raises on 0 (and would have counted the frame first).
- ViolationLog.ViolationLogger.OnTaskComplete: requires a pending save, since the callback only runs after a save was queued.
- Distance checkers, face recognition, embeddings, the YOLO wrapper and model discovery: they sit outside these rules.
- The global cache helpers `cache_model_metadata` / `get_cached_model_metadata` and `get_size_estimate`.

## Findings

| source | as written | input that shows it | evidently intended | confidence | as-written member | corrected member |
|---|---|---|---|---|---|---|
| utils/violation_logger.py:557 | `get_stats` counts entries of the daily map that are equal to the date string, but every entry is a record, so the count is always 0 | Alice marked today: `persons_logged_today` is 0 | count the persons whose record is dated today (1 here) | not executed | ViolationLog.StatsCountDiscrepancy | ViolationLog.MarkedPersonIsCounted |

Where the documented design and the code differ, the model follows the code:
- The fingerprint keeps duplicate names and every `"Unknown"`.
- A person already logged today with a different item set is approved without a cooldown check.
- A person seen again on the same day is refused by the daily map ("Already logged today") before the cooldown is consulted.
- The cooldown stamp is written at decision time, even when the save queue then turns the frame away.
