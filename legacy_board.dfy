/** The single-script board of `code.py`: a JSON transform that turns the
    schedule document, in place, into the three countdown texts the display
    shows, and the formatter it uses for each of them. */
module LegacyBoard {
  import opened Wrappers
  import opened Schedule
  import opened Lists
  import opened BoardText
  import TrainPredictor
  import TimeConversion

  /** The board has three lines of countdowns. */
  const SlotCount := 3

  /** `get_arrival_in_minutes_from_now` exactly as written: from an hour on,
      the hour count is `round(minutes / 60.0)`, which rounds up from half
      past the hour. */
  function ArrivalInMinutesFromNowAsWritten(now: Time, time: Option<Time>): (text: string)
    ensures text == "" <==> time.None?
  {
    if time.None? then ""
    else
      var minutes := Round60(time.value - now);
      if minutes <= 1 then "Arriving"
      else if minutes < 60 then MinutesText(minutes)
      else
        assert Round60(minutes) >= 1;
        HoursText(Round60(minutes), minutes % 60)
  }

  /** `get_arrival_in_minutes_from_now` with the whole hours of the rounded
      minutes, as the remainder beside it and the newer formatter intend. */
  function ArrivalInMinutesFromNow(now: Time, time: Option<Time>): (text: string)
    ensures text == "" <==> time.None?
  {
    if time.None? then ""
    else
      var minutes := Round60(time.value - now);
      if minutes <= 1 then "Arriving"
      else if minutes < 60 then MinutesText(minutes)
      else HoursText(minutes / 60, minutes % 60)
  }

  /** Python's `round(minutes / 60.0)` is the whole hours, plus one when the
      minutes past the hour exceed 30, or equal 30 after an odd hour. */
  lemma RoundedHours(minutes: int)
    ensures var overshoot := minutes % 60 > 30 || (minutes % 60 == 30 && (minutes / 60) % 2 == 1);
      60 * Round60(minutes) + minutes % 60 == minutes + if overshoot then 60 else 0
  {
  }

  /** The as-written hour count is one too many: the train is at least an
      hour away and its minutes past the hour exceed 30, or equal 30 after an
      odd hour. */
  predicate Overshoots(now: Time, time: Option<Time>)
  {
    time.Some? &&
    var minutes := Round60(time.value - now);
    minutes >= 60 && (minutes % 60 > 30 || (minutes % 60 == 30 && (minutes / 60) % 2 == 1))
  }

  /** As written, the text reads back as what is due, except that an
      overshooting countdown reads a full hour too long. */
  lemma AsWrittenReadsBack(now: Time, time: Option<Time>)
    ensures ReadBoard(ArrivalInMinutesFromNowAsWritten(now, time)) ==
      if Overshoots(now, time) then Some(InMinutes(Round60(time.value - now) + 60)) else DueReading(now, time)
  {
    if time.Some? {
      if Round60(time.value - now) >= 60 {
        AsWrittenHoursReading(now, time.value);
      } else {
        AsWrittenMinutesReadBack(now, time.value);
        assert !Overshoots(now, time);
      }
    } else {
      assert ArrivalInMinutesFromNowAsWritten(now, time) == "";
      assert LeadingDigits("") == [];
    }
  }

  /** From an hour on, the as-written text reads as what is due, or an hour
      more when it overshoots. */
  lemma AsWrittenHoursReading(now: Time, time: Time)
    requires Round60(time - now) >= 60
    ensures ReadBoard(ArrivalInMinutesFromNowAsWritten(now, Some(time))) ==
      if Overshoots(now, Some(time)) then Some(InMinutes(Round60(time - now) + 60)) else DueReading(now, Some(time))
  {
    AsWrittenHoursReadBack(now, time);
  }

  /** Below an hour the as-written text is the corrected one, and reads back
      as what is due. */
  lemma AsWrittenMinutesReadBack(now: Time, time: Time)
    requires Round60(time - now) < 60
    ensures ReadBoard(ArrivalInMinutesFromNowAsWritten(now, Some(time))) == DueReading(now, Some(time))
  {
    FormattersAgree(now, Some(time));
    ArrivalInMinutesReadsBack(now, Some(time));
  }

  /** From an hour on, the as-written text reads as the rounded minutes, plus
      an hour exactly when it overshoots. */
  lemma AsWrittenHoursReadBack(now: Time, time: Time)
    requires Round60(time - now) >= 60
    ensures var minutes := Round60(time - now);
      ReadBoard(ArrivalInMinutesFromNowAsWritten(now, Some(time))) ==
        Some(InMinutes(minutes + if Overshoots(now, Some(time)) then 60 else 0))
  {
    var minutes := Round60(time - now);
    assert ArrivalInMinutesFromNowAsWritten(now, Some(time)) == HoursText(Round60(minutes), minutes % 60);
    RoundedHoursReadBack(minutes);
  }

  /** The as-written hour text of a countdown of `minutes` reads as those
      minutes, plus an hour when the minutes past the hour round it up. */
  lemma RoundedHoursReadBack(minutes: int)
    requires minutes >= 60
    ensures var overshoot := minutes % 60 > 30 || (minutes % 60 == 30 && (minutes / 60) % 2 == 1);
      ReadBoard(HoursText(Round60(minutes), minutes % 60)) ==
        Some(InMinutes(minutes + if overshoot then 60 else 0))
  {
    var hours, extra := Round60(minutes), minutes % 60;
    var overshoot := extra > 30 || (extra == 30 && (minutes / 60) % 2 == 1);
    RoundedHours(minutes);
    assert 60 * hours + extra == minutes + if overshoot then 60 else 0;
    ReadHoursText(hours, extra);
  }

  /** Without an overshoot the two formatters print the same text; in
      particular they agree on every countdown below an hour. */
  lemma FormattersAgree(now: Time, time: Option<Time>)
    ensures !Overshoots(now, time) ==>
      ArrivalInMinutesFromNowAsWritten(now, time) == ArrivalInMinutesFromNow(now, time)
  {
    if time.Some? && Round60(time.value - now) >= 60 {
      RoundedHours(Round60(time.value - now));
    }
  }

  /** A train 100 minutes (6000 s) away reads as 160 minutes on the board as
      written. */
  lemma AsWrittenCounterexample()
    ensures Round60(6000) == 100
    ensures ReadBoard(ArrivalInMinutesFromNowAsWritten(0, Some(6000))) == Some(InMinutes(160))
  {
    AsWrittenReadsBack(0, Some(6000));
  }

  /** The text behind that reading is "2h 40min". */
  lemma AsWrittenExample()
    ensures ArrivalInMinutesFromNowAsWritten(0, Some(6000)) == "2h 40min"
  {
    assert Round60(6000) == 100 && Round60(100) == 2;
    assert ArrivalInMinutesFromNowAsWritten(0, Some(6000)) == HoursText(2, 40);
    assert NatToString(2) == "2" && NatToString(40) == "40";
  }

  /** The corrected formatter shows the same train as "1h 40min". */
  lemma CorrectedExample()
    ensures ArrivalInMinutesFromNow(0, Some(6000)) == "1h 40min"
  {
    assert Round60(6000) == 100;
    assert ArrivalInMinutesFromNow(0, Some(6000)) == HoursText(1, 40);
    assert NatToString(1) == "1" && NatToString(40) == "40";
  }

  /** What a rider should read for a slot: nothing for an empty slot,
      "Arriving" up to a rounded minute, otherwise the rounded minutes. */
  function DueReading(now: Time, time: Option<Time>): Option<Reading>
  {
    if time.None? then None
    else if Round60(time.value - now) <= 1 then Some(Arriving)
    else Some(InMinutes(Round60(time.value - now)))
  }

  /** The corrected formatter reads back as what is due: its text is blank for
      an empty slot, and otherwise names the rounded minutes. */
  lemma ArrivalInMinutesReadsBack(now: Time, time: Option<Time>)
    ensures ReadBoard(ArrivalInMinutesFromNow(now, time)) == DueReading(now, time)
  {
    if time.Some? {
      var minutes := Round60(time.value - now);
      if 1 < minutes < 60 {
        assert ArrivalInMinutesFromNow(now, time) == MinutesText(minutes);
        ReadMinutesText(minutes);
      } else if minutes >= 60 {
        assert ArrivalInMinutesFromNow(now, time) == HoursText(minutes / 60, minutes % 60);
        ReadHoursText(minutes / 60, minutes % 60);
      }
    }
  }

  /** The two formatters agree from two rounded minutes on; below that the
      newer one shows "1min" for a train 61 to 89 seconds away, where this one
      already shows "Arriving". */
  lemma AgreesWithRelativeTime(now: Time, time: Time)
    ensures Round60(time - now) >= 2 ==>
      ArrivalInMinutesFromNow(now, Some(time)) == TimeConversion.RelativeTimeFromNow(time - now)
    ensures 60 < time - now < 90 ==>
      ArrivalInMinutesFromNow(now, Some(time)) == "Arriving" &&
      TimeConversion.RelativeTimeFromNow(time - now) == "1min"
  {
  }

  /** The times the loop over `data` appends, in feed order. */
  function TripTimes(trips: seq<Trip>, index: map<string, StopTimes>): (times: seq<Time>)
    ensures |times| <= |trips|
  {
    if trips == [] then []
    else
      var t := TripTime(trips[|trips| - 1], index);
      TripTimes(trips[..|trips| - 1], index) + (if t.Some? then [t.value] else [])
  }

  /** The loop appends one time for every trip that has one: a time is
      collected as many times as there are trips with that time. */
  lemma {:induction false} TripTimesCount(trips: seq<Trip>, index: map<string, StopTimes>, time: Time)
    ensures multiset(TripTimes(trips, index))[time] == |set i | 0 <= i < |trips| && TripTime(trips[i], index) == Some(time)|
  {
    if trips != [] {
      var init, last := trips[..|trips| - 1], trips[|trips| - 1];
      TripTimesCount(init, index, time);
      TimedTripsSplit(trips, index, time);
      var t := TripTime(last, index);
      var added := if t.Some? then [t.value] else [];
      assert TripTimes(trips, index) == TripTimes(init, index) + added;
      assert multiset(TripTimes(trips, index))[time] == multiset(TripTimes(init, index))[time] + multiset(added)[time];
      if t == Some(time) {
        assert added == [time];
      } else {
        assert time !in added;
      }
    }
  }

  /** The trips with a given time are those of all but the last trip, plus the
      last one when it has that time. */
  lemma TimedTripsSplit(trips: seq<Trip>, index: map<string, StopTimes>, time: Time)
    requires trips != []
    ensures
      var init, last := trips[..|trips| - 1], trips[|trips| - 1];
      var before := set i | 0 <= i < |init| && TripTime(init[i], index) == Some(time);
      (set i | 0 <= i < |trips| && TripTime(trips[i], index) == Some(time)) ==
        if TripTime(last, index) == Some(time) then before + {|init|} else before
  {
    var init := trips[..|trips| - 1];
    assert forall i :: 0 <= i < |init| ==> init[i] == trips[i];
  }

  /** The sort key of `times.sort()`: a time itself. */
  function TimeKey(t: Time): int
  {
    t
  }

  /** The three slots `transform_json` fills for a feed when the clock reads
      `now`: the sorted times that are not stale, padded with `None`. */
  function SlotTimes(doc: Document, now: Time): (slots: seq<Option<Time>>)
    ensures |slots| == SlotCount
  {
    var times := TripTimes(doc.data, IncludedIndex(doc.included));
    Slots(KeepFrom(StableSort(times, TimeKey), TimeKey, now - TrainPredictor.StaleSeconds), SlotCount)
  }

  /** A countdown formatter: the clock reading and a slot's time give the
      slot's text. */
  type Formatter = (Time, Option<Time>) -> string

  /** The texts `transform_json` stores under "times" when it formats each
      slot with `format`; the source's formatter is
      `ArrivalInMinutesFromNowAsWritten`. */
  function BoardTexts(doc: Document, now: Time, format: Formatter): (texts: seq<string>)
    ensures |texts| == SlotCount
  {
    var slots := SlotTimes(doc, now);
    seq(SlotCount, i requires 0 <= i < SlotCount => format(now, slots[i]))
  }

  /** A JSON value of the document dictionary, as far as the transform looks
      at it. */
  datatype JsonValue =
    | TripList(trips: seq<Trip>)
    | ResourceList(resources: seq<Resource>)
    | TextList(texts: seq<string>)

  /** The parsed response dictionary, which the transform rewrites in place. */
  class JsonDict {
    var entries: map<string, JsonValue>

    constructor(entries: map<string, JsonValue>)
      ensures this.entries == entries
    {
      this.entries := entries;
    }
  }

  /** `schedule_json.get("data", [])` and `schedule_json.get("included", [])`. */
  function FeedOf(entries: map<string, JsonValue>): (doc: Document)
    ensures "data" in entries && entries["data"].TripList? ==> doc.data == entries["data"].trips
    ensures "data" !in entries ==> doc.data == []
    ensures "included" in entries && entries["included"].ResourceList? ==> doc.included == entries["included"].resources
    ensures "included" !in entries ==> doc.included == []
  {
    Document(
      if "data" in entries && entries["data"].TripList? then entries["data"].trips else [],
      if "included" in entries && entries["included"].ResourceList? then entries["included"].resources else [])
  }

  /** `transform_json`: select, sort, filter and pad the times, format each
      one, then replace the whole dictionary by the single key "times". The
      source formats with `ArrivalInMinutesFromNowAsWritten`. */
  method TransformJson(json: JsonDict, now: Time, format: Formatter)
    modifies json
    ensures json.entries == map["times" := TextList(BoardTexts(FeedOf(old(json.entries)), now, format))]
  {
    var doc := FeedOf(json.entries);
    var included := IncludedIndex(doc.included);
    var times: seq<Time> := [];
    for i := 0 to |doc.data|
      invariant times == TripTimes(doc.data[..i], included)
    {
      var time := TripTime(doc.data[i], included);
      assert doc.data[..i + 1][..i] == doc.data[..i];
      if time.Some? {
        times := times + [time.value];
      }
    }
    assert doc.data[..|doc.data|] == doc.data;
    times := StableSort(times, TimeKey);
    times := KeepFrom(times, TimeKey, now - TrainPredictor.StaleSeconds);
    var padded: seq<Option<Time>> := seq(|times|, j requires 0 <= j < |times| => Some(times[j]));
    while |padded| < SlotCount
      invariant |times| <= |padded|
      invariant forall j :: 0 <= j < |padded| ==> padded[j] == if j < |times| then Some(times[j]) else None
    {
      padded := padded + [None];
    }
    var slots := padded[..SlotCount];
    assert slots == SlotTimes(doc, now);
    var readable := seq(SlotCount, j requires 0 <= j < SlotCount => format(now, slots[j]));
    json.entries := map[];
    json.entries := json.entries["times" := TextList(readable)];
  }

  /** With the corrected formatter each text is blank exactly for a padding
      slot, and reads back as what is due for its slot. */
  lemma BoardTextsRead(doc: Document, now: Time)
    ensures var slots := SlotTimes(doc, now);
      var texts := BoardTexts(doc, now, ArrivalInMinutesFromNow);
      forall i :: 0 <= i < SlotCount ==>
        (texts[i] == "" <==> slots[i].None?) && ReadBoard(texts[i]) == DueReading(now, slots[i])
  {
    var slots := SlotTimes(doc, now);
    var texts := BoardTexts(doc, now, ArrivalInMinutesFromNow);
    forall i | 0 <= i < SlotCount
      ensures texts[i] == "" <==> slots[i].None?
      ensures ReadBoard(texts[i]) == DueReading(now, slots[i])
    {
      assert texts[i] == ArrivalInMinutesFromNow(now, slots[i]);
      ArrivalInMinutesReadsBack(now, slots[i]);
    }
  }

  /** The board as written shows the corrected text in every slot that does
      not overshoot, and in an overshooting slot a text an hour too long. */
  lemma BoardTextsAsWritten(doc: Document, now: Time)
    ensures var slots := SlotTimes(doc, now);
      var asWritten := BoardTexts(doc, now, ArrivalInMinutesFromNowAsWritten);
      var corrected := BoardTexts(doc, now, ArrivalInMinutesFromNow);
      forall i :: 0 <= i < SlotCount ==> SlotAsWritten(now, slots[i], asWritten[i], corrected[i])
  {
    var slots := SlotTimes(doc, now);
    var asWritten := BoardTexts(doc, now, ArrivalInMinutesFromNowAsWritten);
    var corrected := BoardTexts(doc, now, ArrivalInMinutesFromNow);
    forall i | 0 <= i < SlotCount
      ensures SlotAsWritten(now, slots[i], asWritten[i], corrected[i])
    {
      assert asWritten[i] == ArrivalInMinutesFromNowAsWritten(now, slots[i]);
      assert corrected[i] == ArrivalInMinutesFromNow(now, slots[i]);
      SlotAsWrittenHolds(now, slots[i]);
    }
  }

  /** Each slot's two texts are related as `SlotAsWritten` says. */
  lemma SlotAsWrittenHolds(now: Time, slot: Option<Time>)
    ensures SlotAsWritten(now, slot, ArrivalInMinutesFromNowAsWritten(now, slot), ArrivalInMinutesFromNow(now, slot))
  {
    FormattersAgree(now, slot);
    AsWrittenReadsBack(now, slot);
  }

  /** How the as-written text of a slot relates to the corrected one: equal
      without an overshoot, an hour too long with one. */
  predicate SlotAsWritten(now: Time, slot: Option<Time>, asWritten: string, corrected: string)
  {
    (!Overshoots(now, slot) ==> asWritten == corrected) &&
    (Overshoots(now, slot) ==> ReadBoard(asWritten) == Some(InMinutes(Round60(slot.value - now) + 60)))
  }

  /** The times of a list of trains. */
  function Times(trains: seq<TrainPredictor.TrainArrival>): (times: seq<Time>)
    ensures |times| == |trains|
    ensures forall i :: 0 <= i < |trains| ==> times[i] == trains[i].time
  {
    seq(|trains|, i requires 0 <= i < |trains| => trains[i].time)
  }

  /** The times the transform collects are the times of the trains the
      predictor collects. */
  lemma {:induction false} TripTimesAreCandidateTimes(trips: seq<Trip>, index: map<string, StopTimes>)
    ensures TripTimes(trips, index) == Times(TrainPredictor.Candidates(trips, index))
  {
    if trips != [] {
      TripTimesAreCandidateTimes(trips[..|trips| - 1], index);
    }
  }

  /** Taking times commutes with appending a train. */
  lemma TimesAppend(trains: seq<TrainPredictor.TrainArrival>, train: TrainPredictor.TrainArrival)
    ensures Times(trains + [train]) == Times(trains) + [train.time]
  {
  }

  /** Inserting a train by time and then taking times is inserting its time. */
  lemma {:induction false} TimesInsertSorted(trains: seq<TrainPredictor.TrainArrival>, x: TrainPredictor.TrainArrival)
    ensures Times(InsertSorted(trains, x, TrainPredictor.SortByTime)) == InsertSorted(Times(trains), x.time, TimeKey)
  {
    if trains == [] || trains[|trains| - 1].time <= x.time {
      TimesAppend(trains, x);
    } else {
      var init, last := trains[..|trains| - 1], trains[|trains| - 1];
      assert trains == init + [last];
      TimesAppend(init, last);
      assert Times(trains)[..|trains| - 1] == Times(init);
      assert InsertSorted(Times(trains), x.time, TimeKey) == InsertSorted(Times(init), x.time, TimeKey) + [last.time];
      TimesInsertSorted(init, x);
      TimesAppend(InsertSorted(init, x, TrainPredictor.SortByTime), last);
    }
  }

  /** Sorting trains by time and then taking times is sorting the times. */
  lemma {:induction false} TimesStableSort(trains: seq<TrainPredictor.TrainArrival>)
    ensures Times(StableSort(trains, TrainPredictor.SortByTime)) == StableSort(Times(trains), TimeKey)
  {
    if trains != [] {
      var init, last := trains[..|trains| - 1], trains[|trains| - 1];
      var sortedInit := StableSort(init, TrainPredictor.SortByTime);
      assert StableSort(trains, TrainPredictor.SortByTime) == InsertSorted(sortedInit, last, TrainPredictor.SortByTime);
      assert Times(trains)[..|trains| - 1] == Times(init);
      assert StableSort(Times(trains), TimeKey) == InsertSorted(StableSort(Times(init), TimeKey), last.time, TimeKey);
      TimesStableSort(init);
      TimesInsertSorted(sortedInit, last);
    }
  }

  /** Dropping stale trains and then taking times is dropping stale times. */
  lemma {:induction false} TimesKeepFrom(trains: seq<TrainPredictor.TrainArrival>, cutoff: int)
    ensures Times(KeepFrom(trains, TrainPredictor.SortByTime, cutoff)) == KeepFrom(Times(trains), TimeKey, cutoff)
  {
    if trains != [] {
      var init, last := trains[..|trains| - 1], trains[|trains| - 1];
      assert Times(trains)[..|trains| - 1] == Times(init);
      TimesKeepFrom(init, cutoff);
      if last.time >= cutoff {
        TimesAppend(KeepFrom(init, TrainPredictor.SortByTime, cutoff), last);
      }
    }
  }

  /** The times of the trains the predictor selects are the times the
      transform selects. */
  lemma SelectedTimes(doc: Document, now: Time)
    ensures Times(TrainPredictor.Selected(doc, now)) ==
      KeepFrom(StableSort(TripTimes(doc.data, IncludedIndex(doc.included)), TimeKey), TimeKey, now - TrainPredictor.StaleSeconds)
  {
    var index := IncludedIndex(doc.included);
    var candidates := TrainPredictor.Candidates(doc.data, index);
    TripTimesAreCandidateTimes(doc.data, index);
    TimesStableSort(candidates);
    TimesKeepFrom(StableSort(candidates, TrainPredictor.SortByTime), now - TrainPredictor.StaleSeconds);
  }

  /** The transform lists the times of the very trains that `_analyze_data`
      selects for three slots, in the same slots. */
  lemma SlotsMatchPredictor(doc: Document, now: Time)
    ensures var trains := TrainPredictor.ArrivalSlots(SlotCount, doc, now);
      forall i :: 0 <= i < SlotCount ==>
        SlotTimes(doc, now)[i] == if trains[i].Some? then Some(trains[i].value.time) else None
  {
    var selected := TrainPredictor.Selected(doc, now);
    SelectedTimes(doc, now);
    assert SlotTimes(doc, now) == Slots(Times(selected), SlotCount);
    SlotsOfTimes(selected, SlotCount);
  }

  /** The slots of the times are the times of the slots. */
  lemma SlotsOfTimes(trains: seq<TrainPredictor.TrainArrival>, count: nat)
    ensures var slots := Slots(trains, count);
      forall i :: 0 <= i < count ==>
        Slots(Times(trains), count)[i] == if slots[i].Some? then Some(slots[i].value.time) else None
  {
  }
}
