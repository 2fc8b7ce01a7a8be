# Children's Museum of Franklin train board — a verified model of its core

The board in the Children's Museum shows when the next trains pass on the
commuter-rail line. It fetches a schedule document from the MBTA v3 API. The
document's `data` list holds one schedule per trip. Its `included` list holds
the predictions those trips reference. From these the board picks the soonest
trains that left no more than two minutes ago and shows each one as a short
countdown: "Arriving", "7min", "1h" or "1h 5min".

This project models that core in Dafny and proves what it promises:

- `collections_extra.dfy` covers `LimitedSizeOrderedSet` and
  `LimitedSizeOrderedDict`. They are containers that forget their oldest key
  once they grow past `max_size`. Each is a class with a key order (`seq`)
  and a hash index (`set` or `map`) that its methods update in place. Every
  mutating method is proved against a specification function of the old
  order. The queries are stated directly on the fields.
- `schedule.dfy` holds the parsed feed and the choice of a trip's time. The
  predicted arrival comes first, then the predicted departure, then the
  scheduled arrival, then the scheduled departure.
- `lists.dfy` holds the list steps the pipeline is built from: Python's
  stable `list.sort`, the filtering comprehension, and padding then slicing
  to a fixed number of slots.
- `train_predictor.dfy` covers `TrainArrival`, `sort_by_time` and
  `_analyze_data`. The last is a method with its loops, proved equal to a
  specification function, with lemmas about what it lists.
- `board_text.dfy` defines Python's `round(x / 60)`, the rendering of counts,
  and a reader `ReadBoard`. The reader turns a countdown text back into
  "Arriving" or a number of minutes. It accepts exactly one text per
  reading, its canonical text (so it also accepts "0min", which no
  formatter prints). It is therefore injective, and a lemma that fixes what a
  formatter's text reads as fixes the text itself.
- `time_conversion.dfy` covers `relative_time_from_now` and `time_is_soon`.
- `legacy_board.dfy` covers `get_arrival_in_minutes_from_now` and
  `transform_json` from the single-script board in `code.py`. The transform
  rewrites the response dictionary in place and takes the formatter as a
  parameter. Given the formatter as written it stores what the source
  stores. The transform is proved to list the very trains `_analyze_data`
  selects.

Times are whole seconds. A formatter takes the number of seconds from now
until the train.

## Model

| member | source | states |
|---|---|---|
| CollectionsExtra.LimitedSizeOrderedSet.constructor | collections_extra.py:8-10 | A new set is empty, has the given capacity and satisfies the invariant: distinct keys, at most `max_size` of them, index equal to the order's keys |
| CollectionsExtra.LimitedSizeOrderedSet.Add | collections_extra.py:12-26 | The new order is `SetAdd` of the old one: a new key is appended and the oldest key is evicted past capacity, while a present key moves to the newest end. The invariant is kept |
| CollectionsExtra.LimitedSizeOrderedSet.Clear | collections_extra.py:28-29 | The set is empty afterwards and keeps its invariant |
| CollectionsExtra.LimitedSizeOrderedSet.Contains | collections_extra.py:31-32 | The hash lookup answers true exactly when the key is in the order |
| CollectionsExtra.LimitedSizeOrderedSet.Len | collections_extra.py:34-35 | The size of the index is the length of the order and never exceeds `max_size` |
| CollectionsExtra.LimitedSizeOrderedSet.Iter | collections_extra.py:37-38 | Iteration yields the keys oldest first, with no repeats and at most `max_size` of them |
| CollectionsExtra.SetAddBounded | collections_extra.py:12-26 | `add` keeps the keys distinct and the size within `max_size`; with a positive capacity the added key is present afterwards |
| CollectionsExtra.SetAddNew | collections_extra.py:13-24 | A new key is appended below capacity. At capacity it replaces the oldest key: exactly that key goes and every other key stays. With capacity 0 nothing is kept |
| CollectionsExtra.SetAddExisting | collections_extra.py:25-26 | Re-adding a present key keeps the size and the members, puts the key last, and leaves the other keys in their order |
| CollectionsExtra.SetEvictionExample | collections_extra_test.py:28-50 | Capacity 5: adding 1 to 5 gives [1..5], and adding 6 then gives [2..6] |
| CollectionsExtra.SetReinsertExample | collections_extra_test.py:52-78 | Capacity 3: re-adding 1 to [1,2,3] gives [2,3,1], and adding 4 evicts 2, not 1 |
| CollectionsExtra.LimitedSizeOrderedDict.constructor | collections_extra.py:42-44 | A new dictionary is empty, has the given capacity and satisfies the invariant: distinct keys, at most `max_size`, map keys equal to the order's keys |
| CollectionsExtra.LimitedSizeOrderedDict.Clear | collections_extra.py:46-47 | The dictionary is empty afterwards and keeps its invariant |
| CollectionsExtra.LimitedSizeOrderedDict.SetItem | collections_extra.py:49-65 | The new order is `PutOrder` and the new map is `PutValues` of the old state: delete the key, re-add it last with its value, and pop the oldest entry past capacity. The invariant is kept |
| CollectionsExtra.LimitedSizeOrderedDict.GetItem | collections_extra.py:67-68 | Gives the stored value for a present key and `KeyError` for an absent one |
| CollectionsExtra.LimitedSizeOrderedDict.Contains | collections_extra.py:70-71 | True exactly when the key is in the order |
| CollectionsExtra.LimitedSizeOrderedDict.Len | collections_extra.py:73-74 | The number of entries is the length of the order and never exceeds `max_size` |
| CollectionsExtra.LimitedSizeOrderedDict.Iter | collections_extra.py:76-77 | Iteration yields the keys oldest first, with no repeats and at most `max_size` of them, and exactly the keys that hold a value |
| CollectionsExtra.PutOrderBounded | collections_extra.py:49-65 | `d[k] = v` keeps the keys distinct and the size within `max_size` |
| CollectionsExtra.ReinsertStep | collections_extra.py:52-55 | Deleting a key and appending it again leaves a distinct order with the old keys plus that key |
| CollectionsExtra.EvictStep | collections_extra.py:64-65 | Popping the first key removes the head of the order and only that key |
| CollectionsExtra.PutKeepsIndex | collections_extra.py:49-65 | After `d[k] = v` the map's keys are exactly the new order's keys, and every other surviving key keeps its value |
| CollectionsExtra.PutThenGet | collections_extra.py:55-68 | With a positive capacity, after `d[k] = v` the key is newest and `d[k]` gives `v` |
| CollectionsExtra.PutExisting | collections_extra.py:52-56 | Re-setting a present key changes neither the size nor the set of keys |
| CollectionsExtra.PutNewAtCapacity | collections_extra.py:55-65 | A new key at capacity evicts the oldest key and its value, and nothing else |
| CollectionsExtra.DeleteThenStore | collections_extra.py:52-55 | A step of the `SetItem` proof: deleting a key before storing a value under it gives the same map as storing directly |
| CollectionsExtra.SetItemSize | collections_extra.py:55-56 | A step of the `SetItem` proof: after the store, the number of entries is the length of the refreshed order |
| CollectionsExtra.SetItemEvict | collections_extra.py:64-65 | A step of the `SetItem` proof: the first key of the refreshed order is its head, and popping it drops that head |
| CollectionsExtra.DictReinsertExample | collections_extra_test.py:139-174 | Capacity 3: re-setting 1 gives order [2,3,1], and setting 4 evicts 2 |
| CollectionsExtra.DictReinsertValuesExample | collections_extra_test.py:157-163 | Re-setting 1 to "new_1" replaces its value and keeps 2 and 3 |
| CollectionsExtra.DictEvictValuesExample | collections_extra_test.py:167-174 | Setting 4 then drops 2 and its value, and keeps 1 as "new_1" |
| Schedule.IncludedIndex | train_predictor.py:47 | The index has exactly the ids of the `included` resources as keys: every resource's id is a key, and every key is some resource's id, so a reference missing from `included` does not resolve |
| Schedule.IncludedIndexLastWins | train_predictor.py:47 | When ids repeat, the last resource with an id is the one the index keeps |
| Schedule.PredictedTime | train_predictor.py:84-87 | A trip has a predicted time only when its prediction reference resolves in `included`; it is then that resource's arrival or departure time, and absent exactly when both are |
| Schedule.ScheduledTime | train_predictor.py:90-94 | The scheduled time is the trip's own arrival or departure time, and absent exactly when both are |
| Schedule.TripTime | train_predictor.py:96-97 | A trip has a time exactly when it has a predicted or a scheduled time, and the time is one of those two |
| Schedule.TripTimePrecedence | train_predictor.py:81-96 | A trip's time is the predicted arrival, else the predicted departure (only when the reference resolves), else the scheduled arrival, else the scheduled departure. It is absent exactly when all four are missing |
| Lists.InsertSorted | train_predictor.py:103 | Insertion adds exactly one copy of the element: the multiset grows by it |
| Lists.StableSort | train_predictor.py:103 | Sorting is a permutation: same multiset |
| Lists.StableSortSorted | train_predictor.py:103 | The sorted list is in ascending key order |
| Lists.InsertSortedSorted | train_predictor.py:103 | Inserting into a sorted list keeps it sorted |
| Lists.InsertSortedBounded | train_predictor.py:103 | Insertion introduces no key above a bound that the list and the element respect |
| Lists.StableSortStable | train_predictor.py:103 | The sort is stable: elements with equal keys keep their relative order |
| Lists.InsertSortedWithKey | train_predictor.py:103 | Insertion places the element after every element with its key and leaves other key classes unchanged |
| Lists.WithKeyAppend | train_predictor.py:103 | Appending an element extends only its own key class |
| Lists.KeepFrom | train_predictor.py:113 | The filter never lengthens the list, and every kept element is at or past the cutoff |
| Lists.KeepFromMembership | train_predictor.py:113 | An element is kept exactly when it is in the list and at or past the cutoff |
| Lists.KeepFromMultiset | train_predictor.py:113 | The filter keeps every copy of an element at or past the cutoff and no copy of any other |
| Lists.KeepFromSorted | train_predictor.py:113 | Filtering a sorted list leaves it sorted |
| Lists.Slots | train_predictor.py:118-120 | Padding and cutting always give exactly `count` slots |
| Lists.SlotsShape | train_predictor.py:118-120 | Slot `i` holds the `i`-th element when there is one and `None` otherwise; no element follows a `None` |
| TrainPredictor.SortByTime | train_predictor.py:9-11 | The sort key of a train is its time; the order it produces is stated by `SelectedSorted` and `SlotsSorted` |
| TrainPredictor.Candidates | train_predictor.py:80-100 | The loop appends at most one train per trip; `CandidatesCount` states that it appends exactly one for each trip with a time |
| TrainPredictor.CandidatesMembership | train_predictor.py:80-100 | A train is collected exactly when some trip has that time and that `direction_id` |
| TrainPredictor.CandidatesCount | train_predictor.py:80-100 | A train is collected exactly as many times as there are trips with its time and its `direction_id`: one train for every trip that has a time |
| TrainPredictor.MatchingTripsSplit | train_predictor.py:80-100 | A step of the `CandidatesCount` proof: the trips matching a train are those before the last trip, plus the last one when it matches |
| TrainPredictor.ArrivalSlots | train_predictor.py:116-120 | `_analyze_data` always returns exactly `count` entries |
| TrainPredictor.AnalyzeData | train_predictor.py:44-130 | The method with its loops returns `ArrivalSlots`: collect, stable-sort by time, drop stale trains, pad with `None`, cut to `count` |
| TrainPredictor.SelectedIsRecent | train_predictor.py:103-113 | Sorting then filtering keeps exactly the non-stale trains, each as often as it is among the candidates, which `CandidatesCount` ties to the feed's trips |
| TrainPredictor.SelectedSorted | train_predictor.py:103-113 | The selected trains are in ascending time order |
| TrainPredictor.SelectedContains | train_predictor.py:103-113 | Every non-stale candidate appears in the selection at some index |
| TrainPredictor.SlotsSorted | train_predictor.py:103-120 | The listed trains are in ascending time order |
| TrainPredictor.PaddingLast | train_predictor.py:118-120 | All listed trains come before the `None` padding |
| TrainPredictor.SlotsFromFeed | train_predictor.py:80-120 | A listed train left at most 120 s before `now`. It comes from a trip of the feed with that time and direction |
| TrainPredictor.SlotsComplete | train_predictor.py:113-120 | When at most `count` trains are not stale, every one of them is listed |
| TrainPredictor.EarliestKept | train_predictor.py:103-120 | When more trains qualify than fit, every slot is filled, and a train left out is no earlier than any listed train |
| BoardText.Round60 | time_conversion.py:39-47 | `round(x/60)` is within half a minute of `x` seconds, and a halfway case goes to the even count |
| BoardText.NatToString | time_conversion.py:49 | A rendered count is a non-empty string of decimal digits with no leading zero |
| BoardText.LeadingDigits | time_conversion.py:49-55 | The leading digits form a prefix of the text made only of digits |
| BoardText.DigitsRoundTrip | time_conversion.py:49 | Reading a rendered count gives the count back |
| BoardText.CanonicalRoundTrip | time_conversion.py:49 | The other direction: a digit string without a leading zero is the rendering of its value |
| BoardText.LeadingDigitsOf | time_conversion.py:49-55 | A rendered count followed by a non-digit is read up to the non-digit |
| BoardText.ReadCount | time_conversion.py:49-55 | A text that starts with a rendered count and then a non-digit is read by its units |
| BoardText.ReadMinutesText | time_conversion.py:48-49 | Below an hour, "<m>min" reads back as `m` minutes |
| BoardText.ReadHoursMinutesUnits | time_conversion.py:55 | After a count `h` of at least one, the units "h <e>min" with `e` in 1..59 read as `60h + e` minutes |
| BoardText.ReadHoursText | time_conversion.py:51-55 | With at least one hour and fewer than 60 extra minutes, "<h>h" and "<h>h <e>min" read back as `60h + e` minutes |
| BoardText.MinutesText | time_conversion.py:49 | The f-string "<m>min"; its read-back is stated by `ReadMinutesText` |
| BoardText.HoursText | time_conversion.py:51-55 | The f-strings "<h>h" when there are no extra minutes and "<h>h <e>min" otherwise; their read-back is stated by `ReadHoursText` |
| BoardText.ReadCanonicalText | time_conversion.py:36-55 | Every reading ("Arriving" or a number of minutes) has a canonical text that reads back as it |
| BoardText.ReadBoardSound | time_conversion.py:36-55 | The reader accepts exactly one text per reading, its canonical text: "Arriving", "<m>min" below an hour, "<h>h" or "<h>h <e>min" with `h` ≥ 1 and `e` in 1..59, counts without leading zeros. Any text it reads is the canonical text of its reading |
| BoardText.ReadBoardInjective | time_conversion.py:36-55 | Two texts that read the same are the same text, so a read-back lemma fixes a formatter's exact text, not just its minutes |
| BoardText.StrictReaderExamples | time_conversion.py:48-55 | "100min", "0h 5min", "05min" and "1h 0min" are not canonical texts, and the reader rejects them |
| BoardText.RejectsHourOfMinutes | time_conversion.py:48-49 | "100min" is unreadable: minutes are written only below an hour |
| BoardText.RejectsZeroHours | time_conversion.py:51-55 | "0h 5min" is unreadable: an hour count is at least one |
| BoardText.RejectsLeadingZero | time_conversion.py:49 | "05min" is unreadable: a count has no leading zero |
| BoardText.RejectsZeroExtra | time_conversion.py:52-55 | "1h 0min" is unreadable: zero extra minutes are not written |
| TimeConversion.TimeIsSoon | time_conversion.py:20-24 | A train is soon exactly when it is less than 30 s away, and a soon train is shown as "Arriving" |
| TimeConversion.RelativeTimeFromNow | time_conversion.py:27-55 | The countdown text is never empty |
| TimeConversion.RelativeTimeReadsBack | time_conversion.py:27-55 | The text reads back as "Arriving" up to 60 s and otherwise as `round(seconds/60)` minutes. Since the reader accepts exactly one text per reading, this fixes the text: "<m>min" below an hour, "<h>h" or "<h>h <e>min" with `e` in 1..59 from an hour on |
| TimeConversion.ArrivingExactlyWithinAMinute | time_conversion.py:36-37 | "Arriving" is shown exactly when the train is at most 60 s away, past trains included |
| TimeConversion.CountdownAccuracy | time_conversion.py:39-55 | Beyond a minute the board reads at least 1 minute, within 30 s of the true wait, and an even count on a tie |
| TimeConversion.ArrivingIsNotAlwaysSoon | time_conversion.py:20-37 | The converse of `TimeIsSoon`'s second clause fails: a train 45 s away is shown as "Arriving" but is not soon |
| TimeConversion.MinuteExamples | time_conversion_test.py:17-33 | −60 s, 30 s and 60 s give "Arriving"; 70 s gives "1min"; 110 s and 130 s give "2min" |
| TimeConversion.HourExamples | time_conversion_test.py:35-39 | 3610 s gives "1h" and 3670 s gives "1h 1min" |
| TimeConversion.HalfwayExamples | time_conversion.py:39-47 | 90 s and 150 s both give "2min" and 210 s gives "4min", because Python rounds half to even |
| LegacyBoard.ArrivalInMinutesFromNowAsWritten | code.py:76-98 | As written, the text is blank exactly when there is no time |
| LegacyBoard.RoundedHours | code.py:93-94 | `round(m/60.0)` hours plus `m % 60` minutes is `m` plus an extra 60 whenever the minutes past the hour exceed 30, or equal 30 after an odd hour |
| LegacyBoard.AsWrittenReadsBack | code.py:76-98 | For every input, the as-written text reads back as what is due (blank, "Arriving", or the rounded minutes), except that an overshooting countdown reads 60 minutes too long. With the injective reader this fixes the as-written text |
| LegacyBoard.AsWrittenHoursReadBack | code.py:93-98 | From an hour on, the as-written text reads as the rounded minutes, plus 60 exactly when it overshoots |
| LegacyBoard.RoundedHoursReadBack | code.py:93-98 | For a countdown of at least an hour, the text built from the rounded hours and `m % 60` reads as `m`, plus 60 when the minutes past the hour round the hours up |
| LegacyBoard.AsWrittenHoursReading | code.py:93-98 | From an hour on, the as-written text reads as what is due, or an hour more when it overshoots |
| LegacyBoard.AsWrittenMinutesReadBack | code.py:86-91 | Below an hour the as-written text reads back as what is due |
| LegacyBoard.FormattersAgree | code.py:86-98 | Without an overshoot, and so on every countdown below an hour, the as-written and corrected formatters print the same text |
| LegacyBoard.AsWrittenCounterexample | code.py:93 | A train 6000 s away (100 minutes) reads back as 160 minutes |
| LegacyBoard.AsWrittenExample | code.py:93-98 | That text is "2h 40min" |
| LegacyBoard.ArrivalInMinutesFromNow | code.py:76-98 | With whole hours, the text is blank exactly when there is no time |
| LegacyBoard.ArrivalInMinutesReadsBack | code.py:76-98 | The corrected text reads back as what is due: nothing for an empty slot, "Arriving" up to one rounded minute, otherwise the rounded minutes. With the injective reader this fixes the text: "<m>min" below an hour, "<h>h" or "<h>h <e>min" with `e` in 1..59 from an hour on |
| LegacyBoard.CorrectedExample | code.py:93-98 | The same 6000 s train shows as "1h 40min" |
| LegacyBoard.AgreesWithRelativeTime | code.py:86-91 | From two rounded minutes on, this formatter and `relative_time_from_now` give the same text. From 61 to 89 s this one says "Arriving" where the other says "1min" |
| LegacyBoard.TripTimes | code.py:137-155 | The loop appends at most one time per trip; `TripTimesCount` states that it appends exactly one for each trip with a time |
| LegacyBoard.TripTimesCount | code.py:137-155 | A time is collected exactly as many times as there are trips with that time |
| LegacyBoard.TimedTripsSplit | code.py:137-155 | A step of the `TripTimesCount` proof: the trips with a given time are those before the last trip, plus the last one when it has that time |
| LegacyBoard.SlotTimes | code.py:158-173 | There are always exactly three slots |
| LegacyBoard.BoardTexts | code.py:177 | There are always exactly three texts, one per slot, whichever formatter is given |
| LegacyBoard.FeedOf | code.py:104-137 | `get("data", [])` and `get("included", [])`: the lists under those keys, and the empty list when a key is missing |
| LegacyBoard.JsonDict.constructor | code.py:101 | The dictionary holds the given entries |
| LegacyBoard.TransformJson | code.py:101-193 | The method with its loops leaves the dictionary holding only "times", mapped to the three texts of the feed it held before. Given `ArrivalInMinutesFromNowAsWritten` it stores what the source stores |
| LegacyBoard.BoardTextsRead | code.py:171-177 | With the corrected formatter each text is blank exactly for a padding slot, and reads back as what is due for its slot |
| LegacyBoard.BoardTextsAsWritten | code.py:177 | The board as written shows, slot by slot, the corrected text wherever there is no overshoot, and a text reading 60 minutes too long where there is one |
| LegacyBoard.SlotAsWrittenHolds | code.py:86-98 | For one slot, the as-written text equals the corrected one without an overshoot, and reads an hour too long with one |
| LegacyBoard.TripTimesAreCandidateTimes | code.py:137-155 | The times the transform collects are the times of the trains `_analyze_data` collects |
| LegacyBoard.TimesAppend | code.py:155 | Taking times commutes with appending a train |
| LegacyBoard.TimesInsertSorted | code.py:158 | Inserting a train by time and then taking times is inserting its time |
| LegacyBoard.TimesStableSort | code.py:158 | Sorting trains by time and then taking times is sorting the times |
| LegacyBoard.TimesKeepFrom | code.py:166 | Dropping stale trains and then taking times is dropping stale times |
| LegacyBoard.SelectedTimes | code.py:137-166 | The times of the trains `_analyze_data` selects are the times the transform selects |
| LegacyBoard.SlotsMatchPredictor | code.py:137-173 | Slot by slot, the transform's three times are the times of the trains `_analyze_data(3, ...)` returns |
| LegacyBoard.SlotsOfTimes | code.py:169-173 | Padding the times gives the times of the padded trains |

## Left out

- Fetching the document over the network (`_fetch_schedules_and_predictions`,
  `next_trains`), the Matrix Portal set-up and run loop of `code.py`,
  `application.py`, the display, buttons, logging and boot files are not
  part of this model. They are I/O and hardware.
- `gc.collect()`, `del` and `print_debug` are left out: they do not change
  any value the core computes.
- The clock (`datetime.now()`, the `nowFcn` dependency) is a `now`
  parameter. The `TimeConversionDependencies` and `TrainPredictor`
  constructors are not modelled. They store these dependencies, and the
  `TrainPredictor` constructor also registers the JSON content type with
  the network (train_predictor.py:27-28); that is network I/O.
- ISO 8601 parsing with `fromisoformat` and the removal of the time zone are
  not modelled. A time is a whole number of seconds, so sub-second instants
  are left out. The floating-point `total_seconds() / 60` is taken as exact,
  and `Round60` rounds it half to even, as Python's `round` does.
- `Lists.StableSort` sorts by time. The source sorts the ISO strings, which
  gives the same order only when every timestamp has the same UTC offset and
  format. Feeds that mix offsets are not modelled.
- A JSON `null`, a missing key and an empty string for a time are all
  `None`. Any other falsy or non-string JSON value is not modelled.
- A resource in `included` without an `id` is not modelled; the source
  raises `KeyError` at train_predictor.py:47 and code.py:104.
- Every `included` resource has attributes in the model. When a referenced
  resource has no `attributes`, the source raises `KeyError`
  (train_predictor.py:86, code.py:143); that error is not modelled.
- A `relationships` or `prediction` value that is JSON `null` makes the
  source raise `AttributeError` (train_predictor.py:81, code.py:138); the
  model has no such value.
- The source falls back to the empty list only when `data` or `included` is
  missing. When the value is of another JSON type, the source raises
  `TypeError` or `AttributeError`. `FeedOf` reads such a value as the empty
  list, so these errors are not modelled.
- `maxSize` is a `nat`. A negative `max_size` in Python behaves like 0, which
  the model does not cover.
- `count` is a `nat`. With a negative count the source's slice
  `trains[:count]` drops elements from the end, which is not modelled.
- The direction offsets that main.py:48-51 passes to `TrainPredictor`, and
  the `Direction` that display.py:4 imports from it, are not defined in
  train_predictor.py and are not modelled.
- BoardTexts: it takes the formatter as a parameter, so the source's
  behaviour is `BoardTexts(doc, now, ArrivalInMinutesFromNowAsWritten)`.
  Its read-back (`BoardTextsRead`) is proved for the corrected formatter.
  For the as-written formatter, `BoardTextsAsWritten` relates the two slot
  by slot.

## Findings

| source | as written | input that shows it | evidently intended | confidence | as-written member | corrected member |
|---|---|---|---|---|---|---|
| code.py:93 | `time_in_hours = round(time_in_minutes/60.0)` rounds the hour count, so whenever the minutes past the hour exceed 30 (or equal 30 after an odd hour) the hours are one too many, while `extra_minutes = time_in_minutes % 60` still adds the remainder | a train 6000 s away (100 minutes): the board shows "2h 40min", which is 160 minutes | the whole hours `time_in_minutes // 60`, as in `divmod` in time_conversion.py:51, giving "1h 40min" | not executed | LegacyBoard.AsWrittenCounterexample | LegacyBoard.ArrivalInMinutesReadsBack |
