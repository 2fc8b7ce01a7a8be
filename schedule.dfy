/** The already-parsed schedule feed: a JSON:API compound document whose
    primary `data` holds one schedule resource per trip stopping at the
    station, and whose `included` side table holds the resources (predictions
    among them) those trips reference through `relationships`. Timestamps are
    whole seconds, as `fromisoformat` yields them once the time zone is
    stripped. */
module Schedule {
  import opened Wrappers

  /** A wall-clock instant in whole seconds. */
  type Time = int

  /** The `arrival_time` and `departure_time` attributes of a schedule or
      prediction; `None` stands for a JSON `null`, an absent key or an empty
      string, all of which the source treats as false. */
  datatype StopTimes = StopTimes(arrivalTime: Option<Time>, departureTime: Option<Time>)

  /** One entry of `data`: its scheduled times, its `direction_id`, and the
      `id` inside `relationships.prediction.data`, if there is one. */
  datatype Trip = Trip(attributes: StopTimes, directionId: Option<int>, predictionId: Option<string>)

  /** One entry of `included`: its `id` and its time attributes. */
  datatype Resource = Resource(id: string, attributes: StopTimes)

  datatype Document = Document(data: seq<Trip>, included: seq<Resource>)

  /** The dictionary comprehension `{item["id"]: item for item in included}`:
      it is built front to back, so a later resource replaces an earlier one
      with the same id. */
  function IncludedIndex(included: seq<Resource>): (index: map<string, StopTimes>)
    ensures forall i :: 0 <= i < |included| ==> included[i].id in index
    ensures forall id :: id in index ==> exists i :: 0 <= i < |included| && included[i].id == id
  {
    if included == [] then map[]
    else
      var init, last := included[..|included| - 1], included[|included| - 1];
      assert forall i :: 0 <= i < |init| ==> init[i] == included[i];
      IncludedIndex(init)[last.id := last.attributes]
  }

  /** Python's `a or b` on two optional times: the first one that is present. */
  function FirstPresent(a: Option<Time>, b: Option<Time>): (r: Option<Time>)
    ensures a.Some? ==> r == a
    ensures a.None? ==> r == b
  {
    if a.Some? then a else b
  }

  /** The trip's prediction time: the referenced resource's arrival time, else
      its departure time, provided the reference resolves in `included`. */
  function PredictedTime(trip: Trip, index: map<string, StopTimes>): (t: Option<Time>)
    ensures !Resolves(trip, index) ==> t.None?
    ensures Resolves(trip, index) ==>
      (t.None? <==> index[trip.predictionId.value] == StopTimes(None, None)) &&
      (t.Some? ==> t == index[trip.predictionId.value].arrivalTime || t == index[trip.predictionId.value].departureTime)
  {
    if trip.predictionId.Some? && trip.predictionId.value in index then
      var pred := index[trip.predictionId.value];
      FirstPresent(pred.arrivalTime, pred.departureTime)
    else None
  }

  /** The trip's own arrival time, else its own departure time. */
  function ScheduledTime(trip: Trip): (t: Option<Time>)
    ensures t.None? <==> trip.attributes == StopTimes(None, None)
    ensures t.Some? ==> t == trip.attributes.arrivalTime || t == trip.attributes.departureTime
  {
    FirstPresent(trip.attributes.arrivalTime, trip.attributes.departureTime)
  }

  /** The time shown for a trip: the prediction time when there is one,
      otherwise the scheduled time. */
  function TripTime(trip: Trip, index: map<string, StopTimes>): (t: Option<Time>)
    ensures t.None? <==> PredictedTime(trip, index).None? && ScheduledTime(trip).None?
    ensures t.Some? ==> t == PredictedTime(trip, index) || t == ScheduledTime(trip)
  {
    FirstPresent(PredictedTime(trip, index), ScheduledTime(trip))
  }

  /** The reference resolves to an entry of the side table. */
  predicate Resolves(trip: Trip, index: map<string, StopTimes>)
  {
    trip.predictionId.Some? && trip.predictionId.value in index
  }

  /** The order of preference: predicted arrival, predicted departure (both only
      when the prediction reference resolves), scheduled arrival, scheduled
      departure; a trip has no time exactly when all four are missing. */
  lemma TripTimePrecedence(trip: Trip, index: map<string, StopTimes>)
    ensures var t := TripTime(trip, index);
      var sched := trip.attributes;
      (Resolves(trip, index) && index[trip.predictionId.value].arrivalTime.Some? ==>
        t == index[trip.predictionId.value].arrivalTime) &&
      (Resolves(trip, index) && index[trip.predictionId.value].arrivalTime.None?
        && index[trip.predictionId.value].departureTime.Some? ==>
        t == index[trip.predictionId.value].departureTime) &&
      ((!Resolves(trip, index) || index[trip.predictionId.value] == StopTimes(None, None)) ==>
        t == (if sched.arrivalTime.Some? then sched.arrivalTime else sched.departureTime)) &&
      (t.None? <==>
        (!Resolves(trip, index) || index[trip.predictionId.value] == StopTimes(None, None))
        && sched == StopTimes(None, None))
  {
  }

  /** A later resource with the same id wins: the index maps an id to the
      attributes of the last resource that carries it. */
  lemma {:induction false} IncludedIndexLastWins(included: seq<Resource>, i: nat)
    requires i < |included|
    requires forall j :: i < j < |included| ==> included[j].id != included[i].id
    ensures IncludedIndex(included)[included[i].id] == included[i].attributes
  {
    var n := |included| - 1;
    var init := included[..n];
    if i < n {
      assert init[i] == included[i];
      assert forall j :: i < j < |init| ==> init[j] == included[j];
      IncludedIndexLastWins(init, i);
      assert IncludedIndex(included) == IncludedIndex(init)[included[n].id := included[n].attributes];
    }
  }
}
