# parallel-traffic-flow: the traffic step, in Dafny

parallel-traffic-flow simulates vehicles on a single circular road. The road is split among a pool of worker threads. This project models one tick of it:

- **The worker's car-following rule**, `updateVehicles` in `workers/simulation-worker.ts`, file `simulation_worker.dfy`. A worker gets a chunk of vehicles, each with a `position`, a `speed` and a `braking` flag, and updates the chunk in place in two passes.
  - **The speed pass.** Each vehicle measures the forward gap to the next vehicle *in its chunk*; the last one measures to the chunk's first. A gap below 10 brakes: the speed becomes `max(0.8 * speed, 5)`. Any other gap accelerates: the speed becomes `min(speed + 0.5, 30)`.
  - **The position pass.** Each vehicle moves by its new speed, taken modulo the road length.
- **The coordinator's tick**, `stepSimulation` in `src/app/lib/simulation-manager.ts`, file `simulation_manager.dfy`.
  - It holds the global vehicle sequence.
  - It cuts the sequence into `ceil(N / W)`-sized chunks and has worker `idx` update chunk `idx`.
  - It replaces the sequence, in one assignment, with the replies joined in chunk order.
  - The module also fixes the initial state (100 vehicles, evenly spaced, at speed 20) and `getVehicles`, the read accessor.
- **The JavaScript number operations** the rule uses, file `js_math.dfy`: `%` (a truncated remainder), `Math.ceil`, `Math.max` and `Math.min`.

`workers/simulation-worker.js` is the compiled form of `workers/simulation-worker.ts`. Its `updateVehicles` runs the same statements in the same order. The model therefore has one `UpdateVehicles`, and it stands for both files. Some rows below cite the `.js` lines that a property is about.

The model takes the source's form:

- `UpdateVehicles` is a method over an `array<Vehicle>`. It changes the array in place with two loops, `UpdateSpeeds` and `UpdatePositions`, and returns the same array. Each loop is proved against a specification function on the array's contents: `SpeedPass`, `PositionPass` and `UpdateChunk`.
- The coordinator is the class `Simulation`. Its field `vehicles: seq<Vehicle>` is replaced once per successful `Step`.
- The chunk-building loop is the method `Partition`, proved against the function `Chunks`.
- A whole tick is specified by the function `Tick`. It cuts the state into chunks, applies `UpdateChunk` to each, and joins the replies.

Worker dispatch is sequential. Handing chunk `idx` to worker `idx` is modelled as copying the chunk into a fresh array and calling `UpdateVehicles` on the copy. The copy stands for the structured clone made by `postMessage`.

Worker failure is a parameter. A worker's `'error'` event rejects the `Promise.all`, so the assignment to `vehicles` is never reached. `Step` models this with `failing`, the set of workers that raise that event. When any worker in use is in the set, `Step` returns `false` and the state is unchanged.

Numbers are real numbers. `%` follows JavaScript's sign rule, so a negative dividend gives a non-positive result. `x % 0` is NaN in JavaScript, and a real cannot be NaN, so `Remainder` requires a non-zero divisor. Everything the rule promises is proved for a road length greater than 0.

The chunk-local neighbour is reproduced as written.

- `OneChunkIsWholeRing` proves that with a single chunk, the tick is the rule applied to the whole ring.
- `ChunkBoundaryMissesNeighbour` gives four vehicles in two chunks. In that example, a vehicle 5 behind the next vehicle on the road still accelerates, because the last vehicle of a chunk measures its gap to the first vehicle of the same chunk.

The code does not say whether this was intended, so it is not reported as a defect.

The code never validates its configuration: the road length, the vehicle count and the worker count are constants in the module. The model therefore has no configuration-error path. `DefaultPartition` shows that the shipped constants give two chunks of 50, one chunk per worker. `FirstTickAccelerates` follows from the starting spacing: inside a chunk every gap is exactly 10, the threshold, which does not brake, and the gap from a chunk's last vehicle back to its first is 510.

## Model

| member | source | states |
|---|---|---|
| JsMath.Remainder | workers/simulation-worker.ts:31 | JavaScript `x % y` with a quotient truncated toward zero. For `x >= 0` and `y > 0` the result is in `[0, y)`. It is `x` itself when `x < y`, and `x - y` when `y <= x < 2y`. A negative `x` gives a non-positive result above `-y`. |
| JsMath.Trunc | workers/simulation-worker.ts:31 | The quotient that JavaScript's `%` keeps is truncated toward zero: for `q >= 0` it is the integer part of `q`, and for `q < 0` it is the least integer not below `q` |
| JsMath.RemainderCongruent | workers/simulation-worker.ts:31 | `x % y` differs from `x` by a whole multiple of `y` |
| JsMath.RemainderUnique | workers/simulation-worker.ts:31 | For `x >= 0` and `y > 0`, `x % y` is the only number in `[0, y)` that differs from `x` by a whole multiple of `y`; with `RemainderCongruent` this fixes its value for every non-negative sum |
| JsMath.Ceil | src/app/lib/simulation-manager.ts:30 | `Math.ceil(x)` is the integer `c` with `x <= c < x + 1` |
| JsMath.Max | workers/simulation-worker.ts:21 | `Math.max(a, b)` is at least both arguments and is one of them |
| JsMath.Min | workers/simulation-worker.ts:24 | `Math.min(a, b)` is at most both arguments and is one of them |
| SimulationWorker.Gap | workers/simulation-worker.ts:18-19 | With both positions in `[0, L)`, the adjusted gap is in `[0, L)`. When the next position is not behind, the gap is the plain difference. |
| SimulationWorker.GapReachesNext | workers/simulation-worker.ts:18-19 | The gap is the forward distance on the ring: moving `gap` forward from a vehicle, modulo `L`, lands exactly on the next one |
| SimulationWorker.NextIndex | workers/simulation-worker.ts:17 | The neighbour index is inside the chunk, and it is 0 exactly for the chunk's last vehicle |
| SimulationWorker.NextIndexIsRemainder | workers/simulation-worker.js:7 | The neighbour index is `(i + 1) % vehicles.length` |
| SimulationWorker.Decide | workers/simulation-worker.ts:20-26 | The position is unchanged. `braking` is set exactly when the gap is below 10. The braking speed is at least 5 and at least `0.8 * speed`, and it is one of the two, so it is their maximum. The accelerating speed is at most 30 and at most `speed + 0.5`, and it is one of the two, so it is their minimum. A speed in `[5, 30]` stays in `[5, 30]`. |
| SimulationWorker.Advance | workers/simulation-worker.ts:31 | Speed and braking are unchanged. For `L > 0` and a non-negative sum, the new position is in `[0, L)`. It is `position + speed` below `L`, and the sum minus `L` when the sum wraps once. |
| SimulationWorker.SpeedPass | workers/simulation-worker.ts:16-27 | The speed pass as a function of the chunk. It has no contract of its own. `UpdateSpeeds` is proved to compute it, and `UpdateChunkAt` proves each vehicle's decision against its neighbour's pre-tick position. |
| SimulationWorker.PositionPass | workers/simulation-worker.ts:30-32 | The position pass as a function of the chunk. It has no contract of its own. `UpdatePositions` is proved to compute it, and `UpdateChunkAt` and `UpdateChunkKeepsOnRoad` prove that each new position is the old one plus the new speed, modulo `L`, in `[0, L)`. |
| SimulationWorker.UpdateChunk | workers/simulation-worker.ts:14-35 | What `updateVehicles` makes of a chunk, as a function. It has no contract of its own. `UpdateVehicles` is proved to compute it, and `UpdateChunkAt`, `UpdateChunkKeepsOnRoad`, `LastLooksAtFirst`, `SingleVehicleBrakes`, `EmptyChunkUnchanged` and the two examples prove what it does. |
| SimulationWorker.UpdateVehicles | workers/simulation-worker.ts:14-35 | The whole `updateVehicles`: the array ends up holding `UpdateChunk` of its old contents, so it has the same length and order, and the method returns the same array |
| SimulationWorker.UpdateSpeeds | workers/simulation-worker.ts:16-27 | After the first loop, every vehicle holds its decision against its neighbour's pre-tick position. Positions are not changed yet, and the last vehicle's neighbour is already updated. |
| SimulationWorker.UpdatePositions | workers/simulation-worker.ts:30-32 | After the second loop, every vehicle has advanced by the speed the first loop gave it |
| SimulationWorker.UpdateChunkAt | workers/simulation-worker.js:6-23 | For each vehicle of the chunk: it brakes exactly when its pre-tick gap to its neighbour is below 10, its speed is the clamped braked or accelerated speed, and its position is the old position plus the new speed modulo `L`. The length is preserved. |
| SimulationWorker.LastLooksAtFirst | workers/simulation-worker.ts:17 | The chunk's last vehicle brakes exactly when its gap to the chunk's first vehicle is below 10 |
| SimulationWorker.SingleVehicleBrakes | workers/simulation-worker.ts:16-22 | A chunk of one vehicle always brakes, because its neighbour is itself at gap 0, and its speed becomes `max(0.8 * speed, 5)` |
| SimulationWorker.EmptyChunkUnchanged | workers/simulation-worker.js:6-24 | An empty chunk comes back empty |
| SimulationWorker.ThresholdIsStrict | workers/simulation-worker.js:11-18 | A gap of exactly 10 takes the accelerating branch: `braking` becomes false and the speed becomes `min(speed + 0.5, 30)` |
| SimulationWorker.UpdateChunkKeepsOnRoad | workers/simulation-worker.js:4-25 | With `L > 0`, if every vehicle is in `[0, L)` with speed in `[5, 30]`, then so is every vehicle after the update, and the length is the same |
| SimulationWorker.FourVehicleExample | workers/simulation-worker.ts:14-35 | Vehicles at 0, 10, 20 and 90 at speed 20 on a road of 100 all accelerate to 20.5 and end at 20.5, 30.5, 40.5 and 10.5; the last one wraps |
| SimulationWorker.TwoVehicleExample | workers/simulation-worker.js:4-25 | Vehicles at 0 and 5 at speed 20 on a road of 50: the first brakes to 16 and the second accelerates to 20.5; they end at 16 and 25.5 |
| SimulationManager.InitialVehicles | src/app/lib/simulation-manager.ts:15-19 | The initial array as a function of `n` and `L`. It has no contract of its own. `InitialVehiclesOnRoad`, `InitialPositionsIncrease` and `DefaultInitialSpacing` prove its length, speeds, braking flags and positions. |
| SimulationManager.Spread | src/app/lib/simulation-manager.ts:16 | The initial position `i * L / n`. It has no contract of its own. `SpreadInRange` and `SpreadIncreasing` prove that it lies in `[0, L)` and increases with `i`. |
| SimulationManager.InitialVehiclesOnRoad | src/app/lib/simulation-manager.ts:15-19 | With `L > 0`, there are `n` initial vehicles, all at speed 20, none braking, all in `[0, L)`, and all within the speed limits |
| SimulationManager.InitialPositionsIncrease | src/app/lib/simulation-manager.ts:15-19 | The initial positions strictly increase with the index |
| SimulationManager.SpreadInRange | src/app/lib/simulation-manager.ts:16 | `i * L / n` is in `[0, L)` for `i < n` |
| SimulationManager.SpreadIncreasing | src/app/lib/simulation-manager.ts:16 | `i * L / n` strictly increases with `i` |
| SimulationManager.DefaultInitialSpacing | src/app/lib/simulation-manager.ts:11-19 | With the shipped constants, vehicle `i` starts at `10 * i` |
| SimulationManager.ChunkSize | src/app/lib/simulation-manager.ts:30 | `ceil(n / w)` is the least `c` with `n <= c * w`, and it is positive when `n` is |
| SimulationManager.Chunks | src/app/lib/simulation-manager.ts:31-34 | The chunk list as a function. It has no contract of its own. `Partition` is proved to compute it, and `ChunksShape`, `ChunkAt`, `FlattenChunks` and `ChunkLengthsAddUp` prove its shape and that it covers the sequence exactly. |
| SimulationManager.ChunkCount | src/app/lib/simulation-manager.ts:32 | The number of iterations of the slicing loop, `ceil(n / size)`. It has no contract of its own. `ChunksShape` proves that it is the number of chunks, and `ChunkCountWithinWorkers` and `DefaultPartition` bound it by the pool size. |
| SimulationManager.Partition | src/app/lib/simulation-manager.ts:31-34 | The slicing loop produces exactly `Chunks(vs, size)` |
| SimulationManager.ChunksFrom | src/app/lib/simulation-manager.ts:33 | The chunks starting at `i` are `vs.slice(i, i + size)` followed by the chunks starting at `i + size` |
| SimulationManager.ChunksShape | src/app/lib/simulation-manager.ts:32-34 | There are `ceil(n / size)` chunks, none of them empty, each at most `size` long, and all but the last exactly `size` long |
| SimulationManager.ChunkAt | src/app/lib/simulation-manager.ts:32-33 | Chunk `j` is the slice from `j * size` to `min(j * size + size, n)` |
| SimulationManager.ChunkCountWithinWorkers | src/app/lib/simulation-manager.ts:30-38 | With `chunkSize = ceil(n / w)` there are at most `w` chunks, so `workers[idx]` exists for every chunk |
| SimulationManager.FlattenChunks | src/app/lib/simulation-manager.ts:32-34 | Concatenating the chunks gives back exactly the sequence they were cut from |
| SimulationManager.ChunkLengthsAddUp | src/app/lib/simulation-manager.ts:32-34 | The chunk lengths add up to the number of vehicles |
| SimulationManager.Flatten | src/app/lib/simulation-manager.ts:46 | `[].concat(...results)` as a function. It has no contract of its own. `FlattenChunks`, `FlattenLength`, `FlattenAt` and `FlattenOnRoad` prove what the join contains. |
| SimulationManager.FlattenLength | src/app/lib/simulation-manager.ts:46 | The length of `[].concat(...results)` is the sum of the lengths of the results |
| SimulationManager.FlattenAt | src/app/lib/simulation-manager.ts:46 | Element `k` of the join of chunks of size `size` (the last possibly shorter) is element `k % size` of chunk `k / size` |
| SimulationManager.FlattenOnRoad | src/app/lib/simulation-manager.ts:46 | A join is on the road, within the speed limits, exactly when every part of it is |
| SimulationManager.UpdateEach | src/app/lib/simulation-manager.ts:36-44 | The workers' replies, one per chunk, as a function. It has no contract of its own. `UpdateEachAt` and `UpdateEachLength` prove what each reply is and how long it is, and `Step` is proved to collect exactly these replies. |
| SimulationManager.UpdateEachAt | src/app/lib/simulation-manager.ts:36-44 | Reply `idx` is chunk `idx` with the worker's rule applied |
| SimulationManager.UpdateEachLength | src/app/lib/simulation-manager.ts:36-44 | There are as many replies as chunks, each reply as long as its chunk, and the same total length |
| SimulationManager.Tick | src/app/lib/simulation-manager.ts:29-47 | One whole tick as a function of the state. It has no contract of its own. `Step` is proved to compute it, and `TickAt`, `TickKeepsOnRoad`, `OneChunkIsWholeRing`, `ChunkBoundaryMissesNeighbour` and `FirstTickAccelerates` prove what it does. |
| SimulationManager.TickAt | src/app/lib/simulation-manager.ts:36-46 | After a tick there are as many vehicles as before. Vehicle `k` is element `k % chunkSize` of updated chunk `k / chunkSize`. |
| SimulationManager.TickKeepsOnRoad | src/app/lib/simulation-manager.ts:29-47 | A tick keeps the number of vehicles, every position in `[0, L)` and every speed in `[5, 30]`, so the limits hold over any number of ticks |
| SimulationManager.OneChunkIsWholeRing | src/app/lib/simulation-manager.ts:32-46 | When all vehicles fit in one chunk, the tick is the rule on the whole ring |
| SimulationManager.ChunkBoundaryMissesNeighbour | src/app/lib/simulation-manager.ts:32-36 | Four vehicles at 0, 50, 55 and 80 in chunks of 2: vehicle 1 is 5 behind vehicle 2 yet does not brake in the tick, because it measures to vehicle 0. The rule on the whole ring would brake. |
| SimulationManager.DefaultPartition | src/app/lib/simulation-manager.ts:10-12 | 100 vehicles over 2 workers give `chunkSize` 50 and two chunks, one per worker |
| SimulationManager.FirstTickAccelerates | src/app/lib/simulation-manager.ts:15-46 | On the first tick of the shipped configuration no vehicle brakes and every speed becomes 20.5 |
| SimulationManager.Simulation.Valid | src/app/lib/simulation-manager.ts:12-19 | The state invariant: exactly 100 vehicles, all in `[0, 1000)` with speeds in `[5, 30]`. The constructor establishes it and `Step` keeps it, through `InitialVehiclesOnRoad` and `TickKeepsOnRoad`. |
| SimulationManager.Simulation.constructor | src/app/lib/simulation-manager.ts:15-19 | The state starts as the initial vehicles, which satisfy the invariant: 100 vehicles, all on the road and within the speed limits |
| SimulationManager.Simulation.Step | src/app/lib/simulation-manager.ts:29-47 | Keeps the invariant. It succeeds exactly when no worker in use raises its error event. On success the state becomes the tick of the old state: chunks updated separately, joined in order. On failure the state is unchanged. |
| SimulationManager.Simulation.GetVehicles | src/app/lib/simulation-manager.ts:49-51 | Returns the current state and changes nothing, so two calls with no step between them return the same sequence |

## Left out

- Threads and `Promise.all` are not modelled. The workers run concurrently in the source; here they are applied in chunk order. Each worker works on its own copy and the replies are joined by index, so the result does not depend on the order.
- Worker creation, the `'message'` handler at `workers/simulation-worker.ts:37-42` and `workers/simulation-worker.js:26-31`, and the `once('message')`/`once('error')` plumbing are left out. Only their effect is kept: the worker's rule is applied to each chunk, and an error rejects the tick.
- Which worker fails is an input of `Step` (`failing`). Why a worker fails is outside the model.
- SimulationManager.Simulation.Step: each call is a fresh tick, so after a failed tick the next `Step` can succeed with a smaller `failing`. In the source, a worker that has emitted `'error'` has terminated. The next `stepSimulation` would post to that dead worker, and its `once('message')` promise would never settle. The `once` listeners left in place after a rejection are not modelled either.
- Numbers are exact reals, not IEEE-754 doubles. `0.8 * speed`, `i * 1000 / 100` and `%` are idealised, so rounding is not modelled.
- `x % 0` gives NaN in JavaScript, and reals cannot represent NaN. So `Remainder`, and every member that reaches it, requires a non-zero road length. The road length is the constant 1000 in the source.
- SimulationManager.Simulation.GetVehicles returns the sequence value. The source returns a reference to the module's array, which a caller could mutate; that aliasing is not modelled.
- The worker's reply is a structured clone of the updated array, a new array and new objects. The model keeps only the reply's contents.
- The HTTP route `src/app/api/step/route.ts`, the random setup in `src/app/utils/SimulationUtils.tsx` and the UI components are not part of this model.
