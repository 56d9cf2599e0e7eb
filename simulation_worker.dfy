/**
  The car-following rule a worker applies to one chunk of vehicles
  (`updateVehicles` in workers/simulation-worker.ts and its compiled twin
  workers/simulation-worker.js, which runs the same statements).

  A chunk is updated in two passes: first every vehicle picks a new speed from
  the gap to the vehicle after it in the chunk (the last one looks at the
  chunk's first), then every vehicle moves forward by its new speed around a
  circular road.
 */
module SimulationWorker {
  import opened JsMath

  /** One vehicle on the circular road; its identity is its index in the sequence. */
  datatype Vehicle = Vehicle(position: real, speed: real, braking: bool)

  /** Below this gap to the vehicle ahead a vehicle brakes. */
  const GapThreshold: real := 10.0
  /** Braking never takes a vehicle below this speed. */
  const MinSpeed: real := 5.0
  /** Accelerating never takes a vehicle above this speed. */
  const MaxSpeed: real := 30.0
  /** Speed gained per tick when the road ahead is clear. */
  const SpeedIncrement: real := 0.5
  /** Factor applied to the speed per tick when braking. */
  const BrakingFactor: real := 0.8

  /** A vehicle on a road of length `roadLength` and within the speed limits. */
  predicate OnRoad(v: Vehicle, roadLength: real) {
    0.0 <= v.position < roadLength && MinSpeed <= v.speed <= MaxSpeed
  }

  predicate AllOnRoad(s: seq<Vehicle>, roadLength: real) {
    forall i :: 0 <= i < |s| ==> OnRoad(s[i], roadLength)
  }

  /**
    The distance forward from position `from` to position `to`: their
    difference, with `roadLength` added when it is negative.
   */
  function Gap(from: real, to: real, roadLength: real): (g: real)
    ensures 0.0 <= from < roadLength && 0.0 <= to < roadLength ==> 0.0 <= g < roadLength
    ensures from <= to ==> g == to - from
  {
    var gap := to - from;
    if gap < 0.0 then gap + roadLength else gap
  }

  /** Driving the gap forward from `from` arrives exactly at `to`. */
  lemma GapReachesNext(from: real, to: real, roadLength: real)
    requires 0.0 <= from < roadLength && 0.0 <= to < roadLength
    ensures Remainder(from + Gap(from, to, roadLength), roadLength) == to
  {
  }

  /**
    The index of the vehicle that the one at `i` looks at, `(i + 1) % n`
    (see NextIndexIsRemainder): the next one in the chunk, wrapping to 0.
   */
  function NextIndex(i: nat, n: nat): (j: nat)
    requires i < n
    ensures j < n
    ensures j == 0 <==> i == n - 1
  {
    if i + 1 == n then 0 else i + 1
  }

  /** `NextIndex` is the source's `(i + 1) % vehicles.length`. */
  lemma NextIndexIsRemainder(i: nat, n: nat)
    requires i < n
    ensures NextIndex(i, n) == (i + 1) % n
  {
  }

  /**
    The speed pass for one vehicle, given the vehicle it looks at: braking
    below the gap threshold, accelerating otherwise. The position is left alone.
   */
  function Decide(v: Vehicle, next: Vehicle, roadLength: real): (r: Vehicle)
    ensures r.position == v.position
    ensures r.braking <==> Gap(v.position, next.position, roadLength) < GapThreshold
    ensures r.braking ==> MinSpeed <= r.speed && BrakingFactor * v.speed <= r.speed
    ensures r.braking ==> r.speed == MinSpeed || r.speed == BrakingFactor * v.speed
    ensures !r.braking ==> r.speed <= MaxSpeed && r.speed <= v.speed + SpeedIncrement
    ensures !r.braking ==> r.speed == MaxSpeed || r.speed == v.speed + SpeedIncrement
    ensures MinSpeed <= v.speed <= MaxSpeed ==> MinSpeed <= r.speed <= MaxSpeed
  {
    if Gap(v.position, next.position, roadLength) < GapThreshold then
      v.(speed := Max(v.speed * BrakingFactor, MinSpeed), braking := true)
    else
      v.(speed := Min(v.speed + SpeedIncrement, MaxSpeed), braking := false)
  }

  /** The position pass for one vehicle: forward by its speed, taken modulo the road length as JavaScript's `%` does. */
  function Advance(v: Vehicle, roadLength: real): (r: Vehicle)
    requires roadLength != 0.0
    ensures r.speed == v.speed && r.braking == v.braking
    ensures 0.0 < roadLength && 0.0 <= v.position + v.speed ==> 0.0 <= r.position < roadLength
    ensures 0.0 <= v.position + v.speed < roadLength ==> r.position == v.position + v.speed
    ensures 0.0 < roadLength <= v.position + v.speed < roadLength + roadLength ==>
              r.position == v.position + v.speed - roadLength
  {
    v.(position := Remainder(v.position + v.speed, roadLength))
  }

  /** The first pass over a chunk: every vehicle decides against the next one's (pre-tick) position. */
  function SpeedPass(s: seq<Vehicle>, roadLength: real): seq<Vehicle> {
    seq(|s|, i requires 0 <= i < |s| => Decide(s[i], s[NextIndex(i, |s|)], roadLength))
  }

  /** The second pass over a chunk: every vehicle moves by its (new) speed. */
  function PositionPass(s: seq<Vehicle>, roadLength: real): seq<Vehicle>
    requires roadLength != 0.0
  {
    seq(|s|, i requires 0 <= i < |s| => Advance(s[i], roadLength))
  }

  /** What `updateVehicles` makes of a chunk: the speed pass, then the position pass. */
  function UpdateChunk(s: seq<Vehicle>, roadLength: real): seq<Vehicle>
    requires roadLength != 0.0
  {
    PositionPass(SpeedPass(s, roadLength), roadLength)
  }

  /**
    `updateVehicles(vehicles, roadLength)`: the two passes, in place, over
    the chunk; it returns the same array.
   */
  method UpdateVehicles(vehicles: array<Vehicle>, roadLength: real) returns (updated: array<Vehicle>)
    requires roadLength != 0.0
    modifies vehicles
    ensures updated == vehicles
    ensures vehicles[..] == UpdateChunk(old(vehicles[..]), roadLength)
  {
    UpdateSpeeds(vehicles, roadLength);
    UpdatePositions(vehicles, roadLength);
    updated := vehicles;
  }

  /**
    The gap/speed pass of `updateVehicles`. Positions are not written here, so
    every gap is measured between pre-tick positions, also for the last
    vehicle, whose neighbour (the first) has already had its speed changed.
   */
  method UpdateSpeeds(vehicles: array<Vehicle>, roadLength: real)
    modifies vehicles
    ensures vehicles[..] == SpeedPass(old(vehicles[..]), roadLength)
  {
    ghost var before := vehicles[..];
    var n := vehicles.Length;
    var i := 0;
    while i < n
      invariant 0 <= i <= n
      invariant forall k :: 0 <= k < i ==> vehicles[k] == Decide(before[k], before[NextIndex(k, n)], roadLength)
      invariant forall k :: i <= k < n ==> vehicles[k] == before[k]
    {
      var nextIdx := NextIndex(i, n);
      var v := vehicles[i];
      var gap := vehicles[nextIdx].position - v.position;
      if gap < 0.0 {
        gap := gap + roadLength;
      }
      assert gap == Gap(before[i].position, before[nextIdx].position, roadLength);
      if gap < GapThreshold {
        v := v.(speed := Max(v.speed * BrakingFactor, MinSpeed), braking := true);
      } else {
        v := v.(speed := Min(v.speed + SpeedIncrement, MaxSpeed), braking := false);
      }
      assert v == Decide(before[i], before[nextIdx], roadLength);
      vehicles[i] := v;
      i := i + 1;
    }
    SpeedPassByElements(before, vehicles[..], roadLength);
  }

  /** The position pass of `updateVehicles`: each vehicle moves by the speed the first pass gave it. */
  method UpdatePositions(vehicles: array<Vehicle>, roadLength: real)
    requires roadLength != 0.0
    modifies vehicles
    ensures vehicles[..] == PositionPass(old(vehicles[..]), roadLength)
  {
    ghost var before := vehicles[..];
    var i := 0;
    while i < vehicles.Length
      invariant 0 <= i <= vehicles.Length
      invariant forall k :: 0 <= k < i ==> vehicles[k] == Advance(before[k], roadLength)
      invariant forall k :: i <= k < vehicles.Length ==> vehicles[k] == before[k]
    {
      vehicles[i] := Advance(vehicles[i], roadLength);
      i := i + 1;
    }
    PositionPassByElements(before, vehicles[..], roadLength);
  }

  /** A chunk whose every vehicle has made its decision is the speed pass's result. */
  lemma SpeedPassByElements(before: seq<Vehicle>, after: seq<Vehicle>, roadLength: real)
    requires |after| == |before|
    requires forall k :: 0 <= k < |before| ==> after[k] == Decide(before[k], before[NextIndex(k, |before|)], roadLength)
    ensures after == SpeedPass(before, roadLength)
  {
  }

  /** A chunk whose every vehicle has moved is the position pass's result. */
  lemma PositionPassByElements(before: seq<Vehicle>, after: seq<Vehicle>, roadLength: real)
    requires roadLength != 0.0 && |after| == |before|
    requires forall k :: 0 <= k < |before| ==> after[k] == Advance(before[k], roadLength)
    ensures after == PositionPass(before, roadLength)
  {
  }

  /**
    The rule each vehicle of the chunk follows, in terms of the chunk before
    the tick: it brakes exactly when the gap between its pre-tick position and
    its neighbour's is below the threshold, its new speed is the clamped
    braked or accelerated speed, and it moves by that new speed.
   */
  lemma UpdateChunkAt(s: seq<Vehicle>, roadLength: real, i: nat)
    requires roadLength != 0.0 && i < |s|
    ensures |UpdateChunk(s, roadLength)| == |s|
    ensures var r := UpdateChunk(s, roadLength)[i];
      && (r.braking <==> Gap(s[i].position, s[NextIndex(i, |s|)].position, roadLength) < GapThreshold)
      && (r.braking ==> r.speed == Max(s[i].speed * BrakingFactor, MinSpeed))
      && (!r.braking ==> r.speed == Min(s[i].speed + SpeedIncrement, MaxSpeed))
      && r.position == Remainder(s[i].position + r.speed, roadLength)
  {
    var d := SpeedPass(s, roadLength)[i];
    assert d == Decide(s[i], s[NextIndex(i, |s|)], roadLength);
    assert UpdateChunk(s, roadLength)[i] == Advance(d, roadLength);
  }

  /** The neighbour lookup is local to the chunk: the last vehicle compares itself with the chunk's first. */
  lemma LastLooksAtFirst(s: seq<Vehicle>, roadLength: real)
    requires roadLength != 0.0 && |s| > 0
    ensures UpdateChunk(s, roadLength)[|s| - 1].braking <==>
              Gap(s[|s| - 1].position, s[0].position, roadLength) < GapThreshold
  {
    UpdateChunkAt(s, roadLength, |s| - 1);
  }

  /** A chunk of one vehicle always brakes: its neighbour is itself, at gap 0. */
  lemma SingleVehicleBrakes(v: Vehicle, roadLength: real)
    requires roadLength != 0.0
    ensures UpdateChunk([v], roadLength)[0].braking
    ensures UpdateChunk([v], roadLength)[0].speed == Max(v.speed * BrakingFactor, MinSpeed)
  {
    UpdateChunkAt([v], roadLength, 0);
  }

  /** An empty chunk comes back empty. */
  lemma EmptyChunkUnchanged(roadLength: real)
    requires roadLength != 0.0
    ensures UpdateChunk([], roadLength) == []
  {
  }

  /** A gap of exactly the threshold does not brake: the comparison is strict. */
  lemma ThresholdIsStrict(v: Vehicle, next: Vehicle, roadLength: real)
    requires Gap(v.position, next.position, roadLength) == GapThreshold
    ensures !Decide(v, next, roadLength).braking
    ensures Decide(v, next, roadLength).speed == Min(v.speed + SpeedIncrement, MaxSpeed)
  {
  }

  /**
    A tick keeps every vehicle on the road and within the speed limits:
    positions stay in [0, roadLength) and speeds in [MinSpeed, MaxSpeed].
   */
  lemma {:induction false} UpdateChunkKeepsOnRoad(s: seq<Vehicle>, roadLength: real)
    requires 0.0 < roadLength && AllOnRoad(s, roadLength)
    ensures |UpdateChunk(s, roadLength)| == |s|
    ensures AllOnRoad(UpdateChunk(s, roadLength), roadLength)
  {
    var r := UpdateChunk(s, roadLength);
    forall i | 0 <= i < |s|
      ensures OnRoad(r[i], roadLength)
    {
      var d := SpeedPass(s, roadLength)[i];
      assert OnRoad(s[i], roadLength);
      assert d == Decide(s[i], s[NextIndex(i, |s|)], roadLength);
      assert MinSpeed <= d.speed <= MaxSpeed;
      assert r[i] == Advance(d, roadLength);
    }
  }

  /** The first worked example: four vehicles on a road of 100, all accelerating; the last wraps. */
  lemma FourVehicleExample()
    ensures UpdateChunk(
              [Vehicle(0.0, 20.0, false), Vehicle(10.0, 20.0, false), Vehicle(20.0, 20.0, false), Vehicle(90.0, 20.0, false)],
              100.0)
            == [Vehicle(20.5, 20.5, false), Vehicle(30.5, 20.5, false), Vehicle(40.5, 20.5, false), Vehicle(10.5, 20.5, false)]
  {
    var s := [Vehicle(0.0, 20.0, false), Vehicle(10.0, 20.0, false), Vehicle(20.0, 20.0, false), Vehicle(90.0, 20.0, false)];
    var r := UpdateChunk(s, 100.0);
    UpdateChunkAt(s, 100.0, 0);
    assert !r[0].braking;
    assert r[0].speed == 20.5;
    assert r[0].position == 20.5;
    assert r[0] == Vehicle(20.5, 20.5, false);
    UpdateChunkAt(s, 100.0, 1);
    assert !r[1].braking;
    assert r[1].speed == 20.5;
    assert r[1].position == 30.5;
    assert r[1] == Vehicle(30.5, 20.5, false);
    UpdateChunkAt(s, 100.0, 2);
    assert !r[2].braking;
    assert r[2].speed == 20.5;
    assert r[2].position == 40.5;
    assert r[2] == Vehicle(40.5, 20.5, false);
    UpdateChunkAt(s, 100.0, 3);
    assert !r[3].braking;
    assert r[3].speed == 20.5;
    assert r[3].position == 10.5;
    assert r[3] == Vehicle(10.5, 20.5, false);
  }

  /** The second worked example: two vehicles on a road of 50; the first brakes, the second accelerates. */
  lemma TwoVehicleExample()
    ensures UpdateChunk([Vehicle(0.0, 20.0, false), Vehicle(5.0, 20.0, false)], 50.0)
            == [Vehicle(16.0, 16.0, true), Vehicle(25.5, 20.5, false)]
  {
    var s := [Vehicle(0.0, 20.0, false), Vehicle(5.0, 20.0, false)];
    var r := UpdateChunk(s, 50.0);
    UpdateChunkAt(s, 50.0, 0);
    assert r[0].braking;
    assert r[0].speed == 16.0;
    assert r[0].position == 16.0;
    assert r[0] == Vehicle(16.0, 16.0, true);
    UpdateChunkAt(s, 50.0, 1);
    assert !r[1].braking;
    assert r[1].speed == 20.5;
    assert r[1].position == 25.5;
    assert r[1] == Vehicle(25.5, 20.5, false);
  }
}
