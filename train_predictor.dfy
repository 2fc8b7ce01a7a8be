/** The arrival selection of `TrainPredictor._analyze_data`: from a parsed
    schedule feed and the current time, the `count` soonest trains that have
    not left more than two minutes ago, padded with `None`. */
module TrainPredictor {
  import opened Wrappers
  import opened Schedule
  import opened Lists

  /** How long after its time a train is still listed, in seconds. */
  const StaleSeconds := 120

  /** A train that will pass the museum: its time and the schedule's
      `direction_id`. */
  datatype TrainArrival = TrainArrival(time: Time, direction: Option<int>)

  /** The sort key `sort_by_time`. */
  function SortByTime(train: TrainArrival): (key: int)
    ensures key == train.time
  {
    train.time
  }

  /** The trains the loop over `data` appends, in feed order: one per trip
      that has a time. */
  function Candidates(trips: seq<Trip>, index: map<string, StopTimes>): (trains: seq<TrainArrival>)
    ensures |trains| <= |trips|
  {
    if trips == [] then []
    else
      var last := trips[|trips| - 1];
      var t := TripTime(last, index);
      Candidates(trips[..|trips| - 1], index) + (if t.Some? then [TrainArrival(t.value, last.directionId)] else [])
  }

  /** The candidates of the feed that are not stale, in feed order. */
  function Recent(doc: Document, now: Time): seq<TrainArrival>
  {
    KeepFrom(Candidates(doc.data, IncludedIndex(doc.included)), SortByTime, now - StaleSeconds)
  }

  /** The candidates after the sort and the staleness filter. */
  function Selected(doc: Document, now: Time): seq<TrainArrival>
  {
    KeepFrom(StableSort(Candidates(doc.data, IncludedIndex(doc.included)), SortByTime), SortByTime, now - StaleSeconds)
  }

  /** What `_analyze_data(count, doc)` returns when the clock reads `now`. */
  function ArrivalSlots(count: nat, doc: Document, now: Time): (slots: seq<Option<TrainArrival>>)
    ensures |slots| == count
  {
    Slots(Selected(doc, now), count)
  }

  /** `_analyze_data`: collect a train per timed trip, sort by time, drop the
      stale ones, then pad with `None` and cut to `count`. */
  method AnalyzeData(count: nat, doc: Document, now: Time) returns (slots: seq<Option<TrainArrival>>)
    ensures slots == ArrivalSlots(count, doc, now)
    ensures |slots| == count
  {
    var included := IncludedIndex(doc.included);
    var trains: seq<TrainArrival> := [];
    for i := 0 to |doc.data|
      invariant trains == Candidates(doc.data[..i], included)
    {
      var item := doc.data[i];
      var time := TripTime(item, included);
      assert doc.data[..i + 1][..i] == doc.data[..i];
      if time.Some? {
        trains := trains + [TrainArrival(time.value, item.directionId)];
      }
    }
    assert doc.data[..|doc.data|] == doc.data;
    trains := StableSort(trains, SortByTime);
    trains := KeepFrom(trains, SortByTime, now - StaleSeconds);
    var padded: seq<Option<TrainArrival>> := seq(|trains|, j requires 0 <= j < |trains| => Some(trains[j]));
    while |padded| < count
      invariant |trains| <= |padded|
      invariant forall j :: 0 <= j < |padded| ==> padded[j] == if j < |trains| then Some(trains[j]) else None
    {
      padded := padded + [None];
    }
    slots := padded[..count];
  }

  /** A train is a candidate exactly when some trip has that time and that
      direction. */
  lemma {:induction false} CandidatesMembership(trips: seq<Trip>, index: map<string, StopTimes>, train: TrainArrival)
    ensures train in Candidates(trips, index) <==>
      exists i :: 0 <= i < |trips| && TripTime(trips[i], index) == Some(train.time) && trips[i].directionId == train.direction
  {
    if trips != [] {
      var init, last := trips[..|trips| - 1], trips[|trips| - 1];
      CandidatesMembership(init, index, train);
      if exists i :: 0 <= i < |trips| && TripTime(trips[i], index) == Some(train.time) && trips[i].directionId == train.direction {
        var i :| 0 <= i < |trips| && TripTime(trips[i], index) == Some(train.time) && trips[i].directionId == train.direction;
        if i < |init| {
          assert init[i] == trips[i];
        }
      }
      if exists i :: 0 <= i < |init| && TripTime(init[i], index) == Some(train.time) && init[i].directionId == train.direction {
        var i :| 0 <= i < |init| && TripTime(init[i], index) == Some(train.time) && init[i].directionId == train.direction;
        assert trips[i] == init[i];
      }
    }
  }

  /** The loop appends one train for every trip that has a time: a train is
      collected as many times as there are trips with its time and its
      direction. */
  lemma {:induction false} CandidatesCount(trips: seq<Trip>, index: map<string, StopTimes>, train: TrainArrival)
    ensures multiset(Candidates(trips, index))[train] ==
      |set i | 0 <= i < |trips| && TripTime(trips[i], index) == Some(train.time) && trips[i].directionId == train.direction|
  {
    if trips != [] {
      var init, last := trips[..|trips| - 1], trips[|trips| - 1];
      CandidatesCount(init, index, train);
      MatchingTripsSplit(trips, index, train);
      var t := TripTime(last, index);
      var added := if t.Some? then [TrainArrival(t.value, last.directionId)] else [];
      assert Candidates(trips, index) == Candidates(init, index) + added;
      assert multiset(Candidates(trips, index))[train] == multiset(Candidates(init, index))[train] + multiset(added)[train];
      if t == Some(train.time) && last.directionId == train.direction {
        assert added == [train];
      } else {
        assert train !in added;
      }
    }
  }

  /** The trips matching a train are those of all but the last trip, plus the
      last one when it matches. */
  lemma MatchingTripsSplit(trips: seq<Trip>, index: map<string, StopTimes>, train: TrainArrival)
    requires trips != []
    ensures
      var init, last := trips[..|trips| - 1], trips[|trips| - 1];
      var before := set i | 0 <= i < |init| && TripTime(init[i], index) == Some(train.time) && init[i].directionId == train.direction;
      (set i | 0 <= i < |trips| && TripTime(trips[i], index) == Some(train.time) && trips[i].directionId == train.direction) ==
        if TripTime(last, index) == Some(train.time) && last.directionId == train.direction then before + {|init|} else before
  {
    var init := trips[..|trips| - 1];
    assert forall i :: 0 <= i < |init| ==> init[i] == trips[i];
  }

  /** Sorting and filtering keep each train as often as the feed has it and
      it is not stale. */
  lemma SelectedIsRecent(doc: Document, now: Time)
    ensures multiset(Selected(doc, now)) == multiset(Recent(doc, now))
    ensures |Selected(doc, now)| == |Recent(doc, now)|
  {
    var c := Candidates(doc.data, IncludedIndex(doc.included));
    var cutoff := now - StaleSeconds;
    forall x
      ensures multiset(Selected(doc, now))[x] == multiset(Recent(doc, now))[x]
    {
      KeepFromMultiset(StableSort(c, SortByTime), SortByTime, cutoff, x);
      KeepFromMultiset(c, SortByTime, cutoff, x);
    }
    assert multiset(Selected(doc, now)) == multiset(Recent(doc, now));
    assert |multiset(Selected(doc, now))| == |Selected(doc, now)|;
  }

  /** The selected trains are in ascending time order. */
  lemma SelectedSorted(doc: Document, now: Time)
    ensures SortedBy(Selected(doc, now), SortByTime)
  {
    var c := Candidates(doc.data, IncludedIndex(doc.included));
    StableSortSorted(c, SortByTime);
    KeepFromSorted(StableSort(c, SortByTime), SortByTime, now - StaleSeconds);
  }

  /** Every candidate that is not stale is among the selected trains. */
  lemma SelectedContains(doc: Document, now: Time, train: TrainArrival) returns (j: nat)
    requires train in Candidates(doc.data, IncludedIndex(doc.included)) && train.time >= now - StaleSeconds
    ensures j < |Selected(doc, now)| && Selected(doc, now)[j] == train
  {
    var c := Candidates(doc.data, IncludedIndex(doc.included));
    assert train in multiset(c);
    assert train in multiset(StableSort(c, SortByTime));
    KeepFromMembership(StableSort(c, SortByTime), SortByTime, now - StaleSeconds, train);
    var selected := Selected(doc, now);
    j :| 0 <= j < |selected| && selected[j] == train;
  }

  /** The listed trains are in ascending time order. */
  lemma SlotsSorted(count: nat, doc: Document, now: Time)
    ensures var slots := ArrivalSlots(count, doc, now);
      forall i, j :: 0 <= i < j < count && slots[i].Some? && slots[j].Some? ==> slots[i].value.time <= slots[j].value.time
  {
    SelectedSorted(doc, now);
    SlotsShape(Selected(doc, now), count);
  }

  /** All listed trains come before the padding. */
  lemma PaddingLast(count: nat, doc: Document, now: Time)
    ensures var slots := ArrivalSlots(count, doc, now);
      forall i, j :: 0 <= i < j < count && slots[i].None? ==> slots[j].None?
  {
    SlotsShape(Selected(doc, now), count);
  }

  /** No listed train left more than two minutes before `now`, and each one
      comes from a trip of the feed, with that trip's time and direction. */
  lemma SlotsFromFeed(count: nat, doc: Document, now: Time)
    ensures var slots := ArrivalSlots(count, doc, now);
      forall i :: 0 <= i < count && slots[i].Some? ==>
        slots[i].value.time >= now - StaleSeconds &&
        exists k :: (0 <= k < |doc.data| && TripTime(doc.data[k], IncludedIndex(doc.included)) == Some(slots[i].value.time)
          && doc.data[k].directionId == slots[i].value.direction)
  {
    var index := IncludedIndex(doc.included);
    var c := Candidates(doc.data, index);
    var slots := ArrivalSlots(count, doc, now);
    forall i | 0 <= i < count && slots[i].Some?
      ensures slots[i].value.time >= now - StaleSeconds
      ensures exists k :: (0 <= k < |doc.data| && TripTime(doc.data[k], index) == Some(slots[i].value.time)
          && doc.data[k].directionId == slots[i].value.direction)
    {
      var t := slots[i].value;
      assert t == Selected(doc, now)[i];
      KeepFromMembership(StableSort(c, SortByTime), SortByTime, now - StaleSeconds, t);
      assert t in multiset(StableSort(c, SortByTime));
      CandidatesMembership(doc.data, index, t);
    }
  }

  /** When at most `count` trains are not stale, every one of them is listed. */
  lemma SlotsComplete(count: nat, doc: Document, now: Time, train: TrainArrival)
    requires |Recent(doc, now)| <= count
    requires train in Candidates(doc.data, IncludedIndex(doc.included)) && train.time >= now - StaleSeconds
    ensures Some(train) in ArrivalSlots(count, doc, now)
  {
    SelectedIsRecent(doc, now);
    var j := SelectedContains(doc, now, train);
    assert ArrivalSlots(count, doc, now)[j] == Some(train);
  }

  /** When more than `count` trains are not stale, every slot is filled and a
      train left out is no earlier than any listed one. */
  lemma EarliestKept(count: nat, doc: Document, now: Time, train: TrainArrival)
    requires count <= |Recent(doc, now)|
    requires train in Candidates(doc.data, IncludedIndex(doc.included)) && train.time >= now - StaleSeconds
    requires Some(train) !in ArrivalSlots(count, doc, now)
    ensures var slots := ArrivalSlots(count, doc, now);
      forall i :: 0 <= i < count ==> slots[i].Some? && slots[i].value.time <= train.time
  {
    var selected := Selected(doc, now);
    var slots := ArrivalSlots(count, doc, now);
    SelectedIsRecent(doc, now);
    var j := SelectedContains(doc, now, train);
    assert forall k :: 0 <= k < count ==> slots[k] == Some(selected[k]);
    assert j >= count;
    SelectedSorted(doc, now);
  }
}
