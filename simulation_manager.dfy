/**
  The step coordinator of src/app/lib/simulation-manager.ts: the global
  vehicle state, its initial value, and `stepSimulation`, which slices the
  state into contiguous chunks, has worker `idx` update chunk `idx`, and
  replaces the state with the updated chunks joined back in chunk order.

  The worker threads are not modelled as threads: worker `idx` answering the
  message with chunk `idx` is `UpdateVehicles` applied to a fresh copy of that
  chunk (the copy stands for the structured clone `postMessage` makes).
 */
module SimulationManager {
  import opened JsMath
  import opened SimulationWorker

  /** Size of the worker pool. */
  const NumWorkers: nat := 2
  /** Length of the circular road. */
  const RoadLength: real := 1000.0
  /** Number of vehicles, fixed for the life of the process. */
  const NumVehicles: nat := 100
  /** Speed every vehicle starts with. */
  const InitialSpeed: real := 20.0

  function MinInt(a: int, b: int): int {
    if a <= b then a else b
  }

  /**
    The starting state: `n` vehicles spread evenly over the road, vehicle `i`
    at `i * roadLength / n`, none braking.
   */
  function InitialVehicles(n: nat, roadLength: real): seq<Vehicle> {
    seq(n, i requires 0 <= i < n => Vehicle(Spread(i, n, roadLength), InitialSpeed, false))
  }

  /** Where vehicle `i` of `n` starts: `i * roadLength / n`. */
  function Spread(i: nat, n: nat, roadLength: real): real
    requires i < n
  {
    (i as real * roadLength) / n as real
  }

  /**
    The starting vehicles lie in [0, roadLength), all at the initial speed and
    not braking; so they start on the road and within the speed limits.
   */
  lemma InitialVehiclesOnRoad(n: nat, roadLength: real)
    requires 0.0 < roadLength
    ensures |InitialVehicles(n, roadLength)| == n
    ensures forall i :: 0 <= i < n ==>
              InitialVehicles(n, roadLength)[i].speed == InitialSpeed && !InitialVehicles(n, roadLength)[i].braking
    ensures AllOnRoad(InitialVehicles(n, roadLength), roadLength)
  {
    var vs := InitialVehicles(n, roadLength);
    forall i | 0 <= i < n
      ensures OnRoad(vs[i], roadLength)
    {
      SpreadInRange(i, n, roadLength);
    }
  }

  /** The starting positions strictly increase with the index. */
  lemma InitialPositionsIncrease(n: nat, roadLength: real)
    requires 0.0 < roadLength
    ensures forall i, j :: 0 <= i < j < n ==>
              InitialVehicles(n, roadLength)[i].position < InitialVehicles(n, roadLength)[j].position
  {
    var vs := InitialVehicles(n, roadLength);
    forall i, j | 0 <= i < j < n
      ensures Spread(i, n, roadLength) < Spread(j, n, roadLength)
    {
      SpreadIncreasing(i, j, n, roadLength);
    }
  }

  lemma SpreadInRange(i: nat, n: nat, roadLength: real)
    requires i < n && 0.0 < roadLength
    ensures 0.0 <= Spread(i, n, roadLength) < roadLength
  {
    var ir, nr := i as real, n as real;
    ScaleLe(roadLength, 0.0, ir);
    ScaleLt(roadLength, ir, nr);
    QuotientScale(ir * roadLength, nr, 0.0);
    QuotientScale(ir * roadLength, nr, roadLength);
  }

  lemma SpreadIncreasing(i: nat, j: nat, n: nat, roadLength: real)
    requires i < j < n && 0.0 < roadLength
    ensures Spread(i, n, roadLength) < Spread(j, n, roadLength)
  {
    var a, b, nr := i as real * roadLength, j as real * roadLength, n as real;
    ScaleLt(roadLength, i as real, j as real);
    QuotientScale(b, nr, a / nr);
    assert nr * (a / nr) == a;
  }

  /** `Math.ceil(n / w)`: the chunk size that spreads `n` vehicles over `w` workers. */
  function ChunkSize(n: nat, w: nat): (c: nat)
    requires 0 < w
    ensures n <= c * w
    ensures 0 < c ==> (c - 1) * w < n
    ensures 0 < n ==> 0 < c
  {
    var q := n as real / w as real;
    var c := Ceil(q);
    QuotientScale(n as real, w as real, c as real);
    QuotientScale(n as real, w as real, c as real - 1.0);
    assert (w as real) * (c as real - 1.0) == (c * w - w) as real;
    c
  }

  /**
    The chunks `stepSimulation` cuts: from index 0 in steps of `size`, each
    `slice(i, i + size)`, the last one possibly shorter.
   */
  function Chunks<T>(s: seq<T>, size: nat): seq<seq<T>>
    requires 0 < size || s == []
    decreases |s|
  {
    if s == [] then []
    else if |s| <= size then [s]
    else [s[..size]] + Chunks(s[size..], size)
  }

  /** `[].concat(...results)`: the chunks joined in order. */
  function Flatten<T>(ss: seq<seq<T>>): seq<T> {
    if ss == [] then [] else ss[0] + Flatten(ss[1..])
  }

  /** The sum of the chunks' lengths. */
  function TotalLength<T>(ss: seq<seq<T>>): nat {
    if ss == [] then 0 else |ss[0]| + TotalLength(ss[1..])
  }

  /** How many chunks `n` vehicles make at `size` per chunk: the ceiling of `n / size`. */
  function ChunkCount(n: nat, size: nat): nat
    requires 0 < size || n == 0
  {
    if n == 0 then 0 else (n + size - 1) / size
  }

  /** Worker `j`'s reply for each chunk `j`: the chunk with the rule applied. */
  function UpdateEach(chunks: seq<seq<Vehicle>>, roadLength: real): seq<seq<Vehicle>>
    requires roadLength != 0.0
  {
    seq(|chunks|, j requires 0 <= j < |chunks| => UpdateChunk(chunks[j], roadLength))
  }

  /** The state after one tick: every chunk updated on its own, the replies joined in chunk order. */
  function Tick(vs: seq<Vehicle>, size: nat, roadLength: real): seq<Vehicle>
    requires (0 < size || vs == []) && roadLength != 0.0
  {
    Flatten(UpdateEach(Chunks(vs, size), roadLength))
  }

  /** Joining the chunks gives back the sequence they were cut from. */
  lemma {:induction false} FlattenChunks<T>(s: seq<T>, size: nat)
    requires 0 < size || s == []
    ensures Flatten(Chunks(s, size)) == s
    decreases |s|
  {
    if s != [] && |s| > size {
      FlattenChunks(s[size..], size);
      assert s == s[..size] + s[size..];
    }
  }

  /** The length of a join is the sum of the lengths joined. */
  lemma {:induction false} FlattenLength<T>(ss: seq<seq<T>>)
    ensures |Flatten(ss)| == TotalLength(ss)
  {
    if ss != [] {
      FlattenLength(ss[1..]);
    }
  }

  /** The chunks' lengths add up to the number of vehicles. */
  lemma ChunkLengthsAddUp<T>(s: seq<T>, size: nat)
    requires 0 < size || s == []
    ensures TotalLength(Chunks(s, size)) == |s|
  {
    FlattenChunks(s, size);
    FlattenLength(Chunks(s, size));
  }

  /**
    The shape of the partition: ceiling of `|s| / size` chunks, none empty,
    none longer than `size`, and all but the last exactly `size` long.
   */
  lemma {:induction false} ChunksShape<T>(s: seq<T>, size: nat)
    requires 0 < size || s == []
    ensures |Chunks(s, size)| == ChunkCount(|s|, size)
    ensures forall j :: 0 <= j < |Chunks(s, size)| ==> 0 < |Chunks(s, size)[j]| <= size
    ensures forall j :: 0 <= j < |Chunks(s, size)| - 1 ==> |Chunks(s, size)[j]| == size
    decreases |s|
  {
    if s != [] && |s| > size {
      var rest := Chunks(s[size..], size);
      ChunksShape(s[size..], size);
      assert Chunks(s, size) == [s[..size]] + rest;
      assert (|s| + size - 1) / size == (|s| - size + size - 1) / size + 1 by {
        DivShift(|s| - 1, size);
      }
    } else if s != [] {
      assert (|s| + size - 1) / size == 1 by {
        DivShift(|s| - 1, size);
      }
    }
  }

  /** Dividing `k + size` by `size` gives one more than dividing `k`, with the same remainder. */
  lemma DivShift(k: int, size: nat)
    requires 0 < size && 0 <= k
    ensures (k + size) / size == k / size + 1
    ensures (k + size) % size == k % size
    ensures k < size ==> k / size == 0 && k % size == k
  {
    var q, r := k / size, k % size;
    assert k + size == (q + 1) * size + r;
    DivUnique(k + size, size, q + 1, r);
    if k < size {
      DivUnique(k, size, 0, k);
    }
  }

  /** A non-negative number divided by a positive one gives a non-negative quotient. */
  lemma DivNonNegative(k: int, size: nat)
    requires 0 <= k && 0 < size
    ensures 0 <= k / size
  {
    var q := k / size;
    assert k == q * size + k % size;
    if q < 0 {
      MulMono(q, -1, size);
    }
  }

  /** Quotient and remainder are determined by `x == q * d + r` with `0 <= r < d`. */
  lemma DivUnique(x: int, d: nat, q: int, r: int)
    requires 0 < d && 0 <= r < d && x == q * d + r
    ensures x / d == q && x % d == r
  {
    var q', r' := x / d, x % d;
    assert x == q' * d + r';
    if q' > q {
      assert (q + 1) * d == q * d + d;
      MulMono(q + 1, q', d);
    } else if q' < q {
      assert (q' + 1) * d == q' * d + d;
      MulMono(q' + 1, q, d);
    }
  }

  lemma MulMono(a: int, b: int, c: nat)
    requires a <= b
    ensures a * c <= b * c
  {
    assert b * c - a * c == (b - a) * c;
  }

  /** Chunk `j` is the slice of `size` elements starting at `j * size`, clipped at the end. */
  lemma {:induction false} ChunkAt<T>(s: seq<T>, size: nat, j: nat)
    requires 0 < size && j < |Chunks(s, size)|
    ensures j * size < |s|
    ensures Chunks(s, size)[j] == s[j * size .. MinInt(j * size + size, |s|)]
    decreases |s|
  {
    if j > 0 {
      assert |s| > size;
      var rest := s[size..];
      assert Chunks(s, size)[j] == Chunks(rest, size)[j - 1];
      ChunkAt(rest, size, j - 1);
      var m := (j - 1) * size;
      assert m + size == j * size;
      assert rest[m .. MinInt(m + size, |rest|)] == s[j * size .. MinInt(j * size + size, |s|)];
    }
  }

  /**
    There are never more chunks than workers, so `workers[idx]` exists for
    every chunk `idx`.
   */
  lemma ChunkCountWithinWorkers(n: nat, w: nat)
    requires 0 < w
    ensures ChunkCount(n, ChunkSize(n, w)) <= w
  {
    var c := ChunkSize(n, w);
    if n > 0 {
      var q, r := (n + c - 1) / c, (n + c - 1) % c;
      assert n + c - 1 == q * c + r;
      if q > w {
        assert (w + 1) * c == w * c + c;
        MulMono(w + 1, q, c);
        assert false;
      }
    }
  }

  /**
    Element `k` of a join of chunks that are all `size` long but the last is
    element `k % size` of chunk `k / size`.
   */
  lemma {:induction false} FlattenAt<T>(ss: seq<seq<T>>, size: nat, k: nat)
    requires 0 < size
    requires forall j :: 0 <= j < |ss| ==> |ss[j]| <= size
    requires forall j :: 0 <= j < |ss| - 1 ==> |ss[j]| == size
    requires k < |Flatten(ss)|
    ensures k / size < |ss| && k % size < |ss[k / size]|
    ensures Flatten(ss)[k] == ss[k / size][k % size]
  {
    if k < |ss[0]| {
      DivShift(k, size);
    } else {
      assert |ss| > 1;
      FlattenAt(ss[1..], size, k - size);
      DivShift(k - size, size);
    }
  }

  /**
    A tick keeps the number of vehicles, and vehicle `k` afterwards is element
    `k % size` of the updated chunk `k / size`.
   */
  lemma TickAt(vs: seq<Vehicle>, size: nat, roadLength: real, k: nat)
    requires 0 < size && roadLength != 0.0 && k < |vs|
    ensures |Tick(vs, size, roadLength)| == |vs|
    ensures k / size < |Chunks(vs, size)| && k % size < |Chunks(vs, size)[k / size]|
    ensures Tick(vs, size, roadLength)[k] == UpdateChunk(Chunks(vs, size)[k / size], roadLength)[k % size]
  {
    var chunks := Chunks(vs, size);
    var replies := UpdateEach(chunks, roadLength);
    ChunksShape(vs, size);
    UpdateEachLength(chunks, roadLength);
    FlattenLength(replies);
    ChunkLengthsAddUp(vs, size);
    FlattenAt(replies, size, k);
    DivNonNegative(k, size);
    UpdateEachAt(chunks, roadLength, k / size);
  }

  /** Reply `j` is chunk `j` with the rule applied. */
  lemma UpdateEachAt(chunks: seq<seq<Vehicle>>, roadLength: real, j: nat)
    requires roadLength != 0.0 && j < |chunks|
    ensures UpdateEach(chunks, roadLength)[j] == UpdateChunk(chunks[j], roadLength)
  {
  }

  /** Each reply is as long as the chunk it answers, so the replies add up to the same total. */
  lemma {:induction false} UpdateEachLength(chunks: seq<seq<Vehicle>>, roadLength: real)
    requires roadLength != 0.0
    ensures |UpdateEach(chunks, roadLength)| == |chunks|
    ensures forall j :: 0 <= j < |chunks| ==> |UpdateEach(chunks, roadLength)[j]| == |chunks[j]|
    ensures TotalLength(UpdateEach(chunks, roadLength)) == TotalLength(chunks)
  {
    if chunks != [] {
      UpdateEachLength(chunks[1..], roadLength);
      assert UpdateEach(chunks, roadLength)[1..] == UpdateEach(chunks[1..], roadLength);
    }
  }

  /** Every vehicle stays on the road and within the speed limits from one tick to the next. */
  lemma TickKeepsOnRoad(vs: seq<Vehicle>, size: nat, roadLength: real)
    requires 0 < size && 0.0 < roadLength && AllOnRoad(vs, roadLength)
    ensures |Tick(vs, size, roadLength)| == |vs|
    ensures AllOnRoad(Tick(vs, size, roadLength), roadLength)
  {
    var chunks := Chunks(vs, size);
    var replies := UpdateEach(chunks, roadLength);
    FlattenChunks(vs, size);
    FlattenOnRoad(chunks, roadLength);
    forall j | 0 <= j < |replies|
      ensures AllOnRoad(replies[j], roadLength)
    {
      UpdateEachAt(chunks, roadLength, j);
      UpdateChunkKeepsOnRoad(chunks[j], roadLength);
    }
    FlattenOnRoad(replies, roadLength);
    UpdateEachLength(chunks, roadLength);
    FlattenLength(replies);
    ChunkLengthsAddUp(vs, size);
  }

  /** A join is on the road exactly when every part of it is. */
  lemma {:induction false} FlattenOnRoad(ss: seq<seq<Vehicle>>, roadLength: real)
    ensures AllOnRoad(Flatten(ss), roadLength) <==> forall j :: 0 <= j < |ss| ==> AllOnRoad(ss[j], roadLength)
  {
    if ss != [] {
      FlattenOnRoad(ss[1..], roadLength);
      var a, b := ss[0], Flatten(ss[1..]);
      assert Flatten(ss) == a + b;
      assert AllOnRoad(a + b, roadLength) <==> AllOnRoad(a, roadLength) && AllOnRoad(b, roadLength) by {
        assert forall i :: 0 <= i < |a| ==> (a + b)[i] == a[i];
        assert forall i :: 0 <= i < |b| ==> (a + b)[|a| + i] == b[i];
      }
      assert forall j :: 1 <= j < |ss| ==> ss[j] == ss[1..][j - 1];
    }
  }

  /** With the whole state in one chunk the chunk-local rule is the rule on the whole ring. */
  lemma OneChunkIsWholeRing(vs: seq<Vehicle>, size: nat, roadLength: real)
    requires 0 < size && |vs| <= size && roadLength != 0.0
    ensures Tick(vs, size, roadLength) == UpdateChunk(vs, roadLength)
  {
    if vs == [] {
      assert Tick(vs, size, roadLength) == [];
    } else {
      assert Chunks(vs, size) == [vs];
      assert UpdateEach([vs], roadLength) == [UpdateChunk(vs, roadLength)];
      assert Flatten([UpdateChunk(vs, roadLength)]) == UpdateChunk(vs, roadLength) + [];
    }
  }

  /**
    With more than one chunk a chunk's last vehicle does not look at the
    vehicle physically ahead of it: here vehicle 1, at 50, is 5 behind
    vehicle 2 but, being last in its chunk, measures its gap to vehicle 0 and
    accelerates, where the rule on the whole ring brakes.
   */
  lemma ChunkBoundaryMissesNeighbour()
    ensures var vs := [Vehicle(0.0, 20.0, false), Vehicle(50.0, 20.0, false), Vehicle(55.0, 20.0, false), Vehicle(80.0, 20.0, false)];
      && Gap(vs[1].position, vs[2].position, 100.0) < GapThreshold
      && !Tick(vs, 2, 100.0)[1].braking
      && UpdateChunk(vs, 100.0)[1].braking
  {
    var vs := [Vehicle(0.0, 20.0, false), Vehicle(50.0, 20.0, false), Vehicle(55.0, 20.0, false), Vehicle(80.0, 20.0, false)];
    TickAt(vs, 2, 100.0, 1);
    ChunkAt(vs, 2, 0);
    UpdateChunkAt(vs[0..2], 100.0, 1);
    UpdateChunkAt(vs, 100.0, 1);
  }

  /** The shipped configuration: chunks of 50, two of them, one per worker. */
  lemma DefaultPartition()
    ensures ChunkSize(NumVehicles, NumWorkers) == 50
    ensures ChunkCount(NumVehicles, ChunkSize(NumVehicles, NumWorkers)) == NumWorkers
  {
  }

  /** In the shipped configuration vehicle `i` starts at `10 * i`: consecutive vehicles are exactly the gap threshold apart. */
  lemma DefaultInitialSpacing()
    ensures |InitialVehicles(NumVehicles, RoadLength)| == NumVehicles
    ensures forall i :: 0 <= i < NumVehicles ==> InitialVehicles(NumVehicles, RoadLength)[i].position == GapThreshold * i as real
  {
  }

  /**
    The first tick of the shipped configuration: every gap is at least the
    threshold (exactly 10 inside a chunk, 510 from a chunk's last vehicle back
    to its first), so no vehicle brakes and every one speeds up to 20.5.
   */
  lemma FirstTickAccelerates()
    ensures |Tick(InitialVehicles(NumVehicles, RoadLength), ChunkSize(NumVehicles, NumWorkers), RoadLength)| == NumVehicles
    ensures forall k :: 0 <= k < NumVehicles ==>
              !Tick(InitialVehicles(NumVehicles, RoadLength), ChunkSize(NumVehicles, NumWorkers), RoadLength)[k].braking
              && Tick(InitialVehicles(NumVehicles, RoadLength), ChunkSize(NumVehicles, NumWorkers), RoadLength)[k].speed == InitialSpeed + SpeedIncrement
  {
    var vs := InitialVehicles(NumVehicles, RoadLength);
    DefaultPartition();
    DefaultInitialSpacing();
    ChunksShape(vs, 50);
    TickAt(vs, 50, RoadLength, 0);
    forall k | 0 <= k < NumVehicles
      ensures !Tick(vs, 50, RoadLength)[k].braking && Tick(vs, 50, RoadLength)[k].speed == InitialSpeed + SpeedIncrement
    {
      TickAt(vs, 50, RoadLength, k);
      var j, m := k / 50, k % 50;
      ChunkAt(vs, 50, j);
      var c := Chunks(vs, 50)[j];
      assert k == j * 50 + m;
      assert c == vs[j * 50 .. j * 50 + 50];
      UpdateChunkAt(c, RoadLength, m);
      if m < 49 {
        assert c[NextIndex(m, 50)] == vs[k + 1];
      } else {
        assert c[NextIndex(m, 50)] == vs[j * 50];
      }
    }
  }

  /**
    `stepSimulation`'s loop: cut `vs` into consecutive slices of `size`
    elements, pushing each onto `chunks`.
   */
  method Partition<T>(vs: seq<T>, size: nat) returns (chunks: seq<seq<T>>)
    requires 0 < size || vs == []
    ensures chunks == Chunks(vs, size)
  {
    chunks := [];
    var i := 0;
    while i < |vs|
      invariant 0 <= i
      invariant chunks + Chunks(vs[MinInt(i, |vs|)..], size) == Chunks(vs, size)
      decreases |vs| - i
    {
      ChunksFrom(vs, size, i);
      chunks := chunks + [vs[i..MinInt(i + size, |vs|)]];
      i := i + size;
    }
  }

  /** The chunks of the tail from `i` are the slice `slice(i, i + size)` followed by the chunks of the tail after it. */
  lemma ChunksFrom<T>(vs: seq<T>, size: nat, i: nat)
    requires 0 < size && i < |vs|
    ensures Chunks(vs[i..], size) == [vs[i..MinInt(i + size, |vs|)]] + Chunks(vs[MinInt(i + size, |vs|)..], size)
  {
    var rest := vs[i..];
    if |rest| > size {
      assert rest[..size] == vs[i..i + size];
      assert rest[size..] == vs[i + size..];
    } else {
      assert rest == vs[i..|vs|];
      assert vs[|vs|..] == [];
    }
  }

  /** The coordinator's module state: the global vehicle sequence, replaced once per tick. */
  class Simulation {
    var vehicles: seq<Vehicle>

    /** A full complement of vehicles, all on the road and within the speed limits. */
    ghost predicate Valid()
      reads this
    {
      |vehicles| == NumVehicles && AllOnRoad(vehicles, RoadLength)
    }

    /** The module's initialisation of `vehicles`. */
    constructor ()
      ensures Valid()
      ensures vehicles == InitialVehicles(NumVehicles, RoadLength)
    {
      vehicles := InitialVehicles(NumVehicles, RoadLength);
      InitialVehiclesOnRoad(NumVehicles, RoadLength);
    }

    /**
      `stepSimulation`: one tick. Worker `idx` handles chunk `idx`; a worker in
      `failing` raises its 'error' event, which rejects the tick, and then the
      state is left as it was.
     */
    method Step(failing: set<nat>) returns (ok: bool)
      requires Valid()
      modifies this
      ensures Valid()
      ensures ok <==> forall idx :: 0 <= idx < ChunkCount(NumVehicles, ChunkSize(NumVehicles, NumWorkers)) ==> idx !in failing
      ensures ok ==> vehicles == Tick(old(vehicles), ChunkSize(NumVehicles, NumWorkers), RoadLength)
      ensures !ok ==> vehicles == old(vehicles)
    {
      var chunkSize := ChunkSize(NumVehicles, NumWorkers);
      var chunks := Partition(vehicles, chunkSize);
      ChunksShape(vehicles, chunkSize);
      ChunkCountWithinWorkers(NumVehicles, NumWorkers);
      var results: seq<seq<Vehicle>> := [];
      var failed := false;
      for idx := 0 to |chunks|
        invariant vehicles == old(vehicles)
        invariant |results| == idx
        invariant forall j :: 0 <= j < idx ==> results[j] == UpdateChunk(chunks[j], RoadLength)
        invariant failed <==> exists j :: 0 <= j < idx && j in failing
      {
        // Chunk idx is posted to workers[idx], which exists.
        assert idx < NumWorkers;
        var message := new Vehicle[|chunks[idx]|](k requires 0 <= k < |chunks[idx]| => chunks[idx][k]);
        assert message[..] == chunks[idx];
        var reply := UpdateVehicles(message, RoadLength);
        if idx in failing {
          failed := true;
        }
        results := results + [reply[..]];
      }
      ok := !failed;
      if ok {
        assert results == UpdateEach(chunks, RoadLength);
        TickKeepsOnRoad(vehicles, chunkSize, RoadLength);
        vehicles := Flatten(results);
      }
    }

    /** `getVehicles`: the current state, read without changing it. */
    method GetVehicles() returns (current: seq<Vehicle>)
      ensures current == vehicles
    {
      current := vehicles;
    }
  }
}
