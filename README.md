# A verified model of a tick-based 2-D fluid simulator

The simulator keeps a rectangular grid of material codes (`#` is a wall) together with a
pressure per cell and two directional fields: a velocity (four slots per cell, one per
axis-aligned neighbour) and the flow achieved along each of those edges. One call of
`nextTick` runs five phases: A adds gravity to the downward slot of every open cell over an
open cell; B relaxes pressure; C clears the flow and pushes flow along depth-first paths
whose edges still have capacity, with the `last_use` stamps and the counter `UT` marking the
cells a sweep has visited; D settles each positive velocity down to the flow that got
through and turns the loss into pressure on a neighbouring cell; E walks the grid again,
draws a random number against the cell's outgoing velocity and either moves the material
along a randomly chosen path (swapping cells on the way) or stops the cells that depend on
this one. Numbers are fixed-point values `FixedImpl<V, K>` (a native integer mantissa `V`
with `K` fractional bits) or `float`/`double`; the numeric types and the grid size of an
engine are chosen at build time from a table of all combinations, and `main` looks the
requested combination up in that table.

The project has six modules:

- `FixedPoint` (fixed_point.dfy): the fixed-point values. A mantissa lives in a signed
  width of 8, 16, 32 or 64 bits, and every store into `V` truncates to that width in two's
  complement (`Wrap`); the model lets `+`, `-` and unary `-` wrap the same way (see Left
  out for the widths where C++ leaves their overflow undefined); `Fixed<N, K>` and
  `FastFixed<N, K>` select the width; the integer, raw and cross-K constructors, `+`, `-`,
  unary `-`, the comparisons and `+=`/`-=` (on the class `FixedVar`) are modelled.
- `TypeCodes` (type_codes.dfy): the integer codes `FIXED(n, k)`, `FAST_FIXED(n, k)`,
  `FLOAT`, `DOUBLE`, the decoding `NToT` and the settings record `SimSetts`.
- `Registry` (registry.dfy): `typeGen`/`simGen`, the mixed-radix index over
  `t × t × t × s`, and the lookup in `main` with its wildcard-size retry.
- `Matrices` (cus_matrix.dfy): `CusMatrix`, the fixed-size one as a class over a 2-D array
  and the dynamic one over nested sequences.
- `Fields` (vector_field.dfy): `VectorField`, the bit trick that maps a unit direction to
  one of four slots, and `add`, `get`, `clear`, `init`.
- `Engine` (engine.dfy): `SimulatorImpl` as a class over 2-D arrays: `init` and
  `directionsInit`, `swap_between`, `random01`, `propagate_flow`, `propagate_stop`,
  `move_prob`, `propagate_move`, and the per-cell bodies of phases A, C, D and E with the
  sweeps around them.
- `Sweeps` (sweeps.dfy): the column cursor of the row loops of `nextTick` (see Findings).

The engine works on the raw mantissas of one fixed-point type with `K` fractional bits:
`unit` is `2^K`, the stand-in for 1, and `eps` is the raw value of the 0.0001 tolerance.
The random generator is a `RandomSource` whose draws are a function from positions to
32-bit values, so every claim about randomness is a claim for every possible generator.
The four `deltas` are a parameter that must list the four unit directions, each once.

Two invariants carry the engine proofs:
- `FlowBounded`: every flow slot is 0 or at most its velocity. `ClearFlow` establishes it
  and every push of phase C keeps it. Phase D's assertion that the new velocity does not
  exceed the old one follows from it, in `TakeFlow`.
- `StampsClear`: no stamp is above `UT` and none equals `UT - 1`. `AdvanceTime` (`UT += 2`)
  establishes it and every cell of a sweep keeps it. So every call of `propagate_flow` and
  `propagate_move` from a sweep meets their own precondition, which is that the cell is
  stamped below `UT - 1`.

Recursion depth is bounded by the set of cells stamped below `UT - 1` (or `UT`), which
every recursive call strictly shrinks. That bound is what proves that `propagate_flow`,
`propagate_stop` and `propagate_move` terminate.

Facts of the code that the model keeps:
- `propagate_stop` recurses only into neighbours whose velocity from this cell is not
  positive; headers/Simulator.h:168 skips the positive ones.
- `move_prob` and the cumulative table in `propagate_move` skip only negative velocities,
  so zero velocities take part (headers/Simulator.h:186, 213). Even so, only positive slots
  can be selected (`SelectsPositive`).
- `propagate_flow` leaves a slot alone when its flow is within 0.0001 of its capacity
  (headers/Simulator.h:125). The model keeps that tolerance as the raw constant `eps`. The
  proven bound is that every slot's flow is 0 or at most its capacity.

## Model

| member | source | states |
|---|---|---|
| FixedPoint.Wrap | headers/FixedImpl.h:25 | storing a mantissa in a signed width-bit `V` gives a value in that width's range |
| FixedPoint.WrapCongruent | headers/FixedImpl.h:25 | the stored mantissa differs from the computed one by a multiple of 2^width |
| FixedPoint.WrapFits | headers/FixedImpl.h:25 | a mantissa already in range is stored unchanged |
| FixedPoint.WrapWrap | headers/FixedImpl.h:18-23 | narrowing through int64_t and then to V is the same as narrowing straight to V |
| FixedPoint.FixedHoldsOne | headers/Fixed.h:6-15 | Fixed<N, K> is accepted for every native N >= K, yet the integer constructor gives back the value 1 only when K + 1 < N: at K == N - 1 and K == N the number 1 does not fit |
| FixedPoint.FastWidth | headers/FastFixed.h:6-12 | when the FastFixedWrap recursion stops, it stops at a native width of at least N |
| FixedPoint.FastWidthIsSmallest | headers/FastFixed.h:6-12 | the FastFixedWrap recursion stops at the smallest native width >= N, and exists iff N <= 64 |
| FixedPoint.FastFixedOf | headers/FastFixed.h:14-15 | FastFixed<N, K> is a valid type with K fractional bits and at least N bits |
| FixedPoint.FastFixedNative | headers/FastFixed.h:9-12 | for a native N, FastFixed<N, K> is Fixed<N, K> |
| FixedPoint.FastFixedSelects | headers/FastFixed.h:6-15 | FastFixed<N, K> exists iff N <= 64 and the chosen width holds K, and is then Fixed at the smallest native width >= N |
| FixedPoint.Zero | headers/FixedImpl.h:16 | the default value is valid and stands for 0 |
| FixedPoint.FromRaw | headers/FixedImpl.h:18-23 | from_raw stores x truncated to V's width in two's complement, and so keeps any mantissa that fits V |
| FixedPoint.FromInt | headers/FixedImpl.h:13 | the integer constructor gives a valid value of the requested type |
| FixedPoint.FromIntValue | headers/FixedImpl.h:13 | when n * 2^K fits, the integer constructor gives raw n * 2^K, i.e. the value n |
| FixedPoint.Convert | headers/FixedImpl.h:11 | the cross-K constructor gives a value of the target type whose raw value is f.v * 2^(K1-K2) when K1 >= K2 and that fits, and the floor of f.v / 2^(K2-K1) when K1 < K2 and that fits |
| FixedPoint.ConvertRoundTrip | headers/FixedImpl.h:11 | converting to a type with more fractional bits and back gives the original value, when the shifted mantissa fits |
| FixedPoint.Aligned | headers/FixedImpl.h:38 | the right operand of + and - is shifted left into the range of its promoted type when K1 > K2, with the value b.v * 2^(K1-K2) when that fits; otherwise it is shifted right arithmetically, rounding b.v / 2^(K2-K1) down |
| FixedPoint.AlignedSameK | headers/FixedImpl.h:38 | with equal K the right operand of + and - is not shifted |
| FixedPoint.Add | headers/FixedImpl.h:36-39 | the sum has the left operand's type; with equal K its mantissa is the raw sum wrapped to V's width, and without overflow its value is the sum of the values |
| FixedPoint.Sub | headers/FixedImpl.h:41-44 | the difference has the left operand's type; with equal K its mantissa is the raw difference wrapped to V's width, and without overflow its value is the difference of the values |
| FixedPoint.AddRealigns | headers/FixedImpl.h:38 | adding a value with another K is adding its conversion to the left operand's type, when b.v shifted to K1 fits both the promoted type and the left operand's width |
| FixedPoint.ConvertAligned | headers/FixedImpl.h:11 | when the shifted value fits, the cross-K constructor stores exactly the raw value that + and - realign their right operand to |
| FixedPoint.AddThenSub | headers/FixedImpl.h:36-44 | (a + b) - b == a for every a and b of one type, also when the sum wraps (defined in C++ for 8- and 16-bit V only) |
| FixedPoint.NegWrap | headers/FixedImpl.h:78 | negating a mantissa in range gives its negation, except the most negative one, which is its own negation (defined in C++ for 8- and 16-bit V only) |
| FixedPoint.Neg | headers/FixedImpl.h:76-79 | unary minus negates the value, except the most negative mantissa, which is returned unchanged |
| FixedPoint.NegNeg | headers/FixedImpl.h:76-79 | -(-a) == a for every value |
| FixedPoint.Compare | headers/FixedImpl.h:27-28 | the defaulted <=> orders by mantissa and is 0 exactly for equal values |
| FixedPoint.CompareMatchesValue | headers/FixedImpl.h:27-28 | comparing mantissas orders the values they stand for |
| FixedPoint.FixedVar.AddAssign | headers/FixedImpl.h:56-59 | += stores a + b in the variable and returns it |
| FixedPoint.FixedVar.SubAssign | headers/FixedImpl.h:61-64 | -= stores a - b in the variable and returns it |
| TypeCodes.NToT | headers/TypeGen.h:17-32 | FLOAT and DOUBLE decode to float and double; a code below 10000 to Fixed<code/100, code%100>, any other to FastFixed<code/10000, code%10000> |
| TypeCodes.FixedCodeRoundTrip | headers/TypeGen.h:26-27 | NToT(FIXED(n, k)) is Fixed<n, k> for n, k < 100 |
| TypeCodes.FastFixedCodeRoundTrip | headers/TypeGen.h:28-29 | NToT(FAST_FIXED(n, k)) is FastFixed<n, k> for 1 <= n < 100, k < 10000 |
| TypeCodes.CodeRoundTrip | headers/TypeGen.h:22-29 | decoding the code of an encodable type gives the type back |
| TypeCodes.DecodeRoundTrip | headers/TypeGen.h:22-29 | encoding the decoding of any code gives the code back |
| TypeCodes.CodesDisjoint | headers/ParsingSettings.h:6-9 | for n, k in 1..69, FIXED codes are below 10000, FAST_FIXED codes lie between 10000 and FLOAT, and each is injective |
| TypeCodes.StorageOf | headers/TypeGen.h:34-35 | a fixed-point type that has a storage has a valid width |
| TypeCodes.DefaultSettsNameNoType | headers/ParsingSettings.h:13-18 | settings left at their defaults name no storable type for p, v or vf, so they can never select an engine |
| TypeCodes.NoTypeGiven | headers/ParsingSettings.h:15 | code 0 decodes to Fixed<0, 0>, which has no storage type |
| Registry.SizeListCoversListed | headers/TypeGen.h:15 | since the size list starts with DYNAMIC, every combination of three listed codes has a (0, 0) entry in the table, so the lookup never fails for listed types |
| Registry.Split | headers/TypeGen.h:62-64 | the digits read off an index are all in range exactly when the index is below T*T*T*S |
| Registry.SplitJoin | headers/TypeGen.h:62-64 | every index below T*T*T*S splits into digits in range that join back to it |
| Registry.JoinSplit | headers/TypeGen.h:62-64 | every digit tuple in range joins to an index below T*T*T*S that splits back to it |
| Registry.TypeGen | headers/TypeGen.h:58-71 | the type table has T*T*T*S entries and entry i is the combination its digits name |
| Registry.SimGen | headers/TypeGen.h:42-56 | the engine table has T*T*T*S entries and entry i is the engine for the combination its digits name |
| Registry.TypesListEveryCombination | headers/TypeGen.h:62-64 | every combination of three types and one size appears in the type table, at its joined index |
| Registry.SimulatorsMatchTypes | headers/TypeGen.h:46-48 | engine i is instantiated at the numeric types and size of type entry i |
| Registry.Find | main.cpp:16 | std::find gives the first index holding the key, or the table length if none does |
| Registry.SelectSimulator | main.cpp:15-25 | fails iff neither the exact size nor DYNAMIC is listed; prefers the first exact entry, else the first DYNAMIC one |
| Registry.SelectedEngine | main.cpp:27 | the selected engine has the requested numeric types and the requested or the dynamic size |
| Matrices.Matrix.constructor | headers/CusMatrix.h:10 | every element starts at the default value |
| Matrices.Matrix.Init | headers/CusMatrix.h:26-29 | the fixed-size init succeeds exactly when the requested size is the built-in one |
| Matrices.RowsExtensional | headers/CusMatrix.h:36-39 | operator[] is a faithful view: two matrices of one shape have the same rows exactly when they hold the same elements |
| Matrices.Matrix.Assign | headers/CusMatrix.h:46-52 | assignment copies the other matrix's contents; self-assignment changes nothing |
| Matrices.Resized | headers/CusMatrix.h:33 | vector::resize keeps the first rows and appends copies of the fill row |
| Matrices.ResizedUnique | headers/CusMatrix.h:33 | those two facts determine the result of resize |
| Matrices.ResizedIdempotent | headers/CusMatrix.h:33 | resizing twice to one size is resizing once |
| Matrices.DynamicMatrix.constructor | headers/CusMatrix.h:19 | the dynamic matrix starts empty |
| Matrices.DynamicMatrix.Init | headers/CusMatrix.h:31-34 | init is resize to N rows of M default elements |
| Matrices.RowAfterInit | headers/CusMatrix.h:41-44 | after init of an empty matrix, operator[](i) is a row of m default values |
| Matrices.InitFromEmpty | headers/CusMatrix.h:31-34 | init of an empty matrix gives N rows of M default elements |
| Matrices.InitAgainKeeps | headers/CusMatrix.h:31-34 | a second init to the same size keeps the contents |
| Fields.Slot | headers/VectorField.h:21 | the bit formula gives a slot below 4 |
| Fields.Direction | headers/VectorField.h:21 | each slot has a unit direction |
| Fields.SlotDirection | headers/VectorField.h:21 | the slot formula inverts Direction |
| Fields.DirectionSlot | headers/VectorField.h:21 | Direction inverts the slot formula on unit directions, so the mapping is a bijection |
| Fields.SlotsDistinct | headers/VectorField.h:21 | different unit directions have different slots |
| Fields.OppositeSlots | headers/VectorField.h:21 | a direction and its opposite have different slots |
| Fields.VectorField.constructor | headers/CusMatrix.h:10 | every slot of every cell starts at zero |
| Fields.VectorField.Set | headers/VectorField.h:19-22 | writing through get changes exactly that slot of that cell |
| Fields.VectorField.Add | headers/VectorField.h:15-17 | add increases exactly that slot by dv and returns the new value |
| Fields.VectorField.Clear | headers/VectorField.h:29-39 | every slot of the N x M cells becomes zero and nothing outside them changes |
| Fields.VectorField.Init | headers/VectorField.h:41-45 | N and M take the new size, and init succeeds exactly for the built-in size |
| Engine.RandomSource.Next | headers/Simulator.h:36 | each call returns the next draw of the generator |
| Engine.Min | headers/Simulator.h:127 | std::min is at most both arguments and is one of them |
| Engine.UpperBound | headers/Simulator.h:226 | upper_bound gives the first entry above the value, everything before it being at most the value |
| Engine.UpperBoundPartitions | headers/Simulator.h:226 | on a sorted table every entry from upper_bound on is above the value |
| Engine.PrefixSums | headers/Simulator.h:202-219 | entry i of the cumulative table is the sum of the first i + 1 weights |
| Engine.PrefixSumsSorted | headers/Simulator.h:202-219 | with non-negative weights the cumulative table is sorted |
| Engine.SelectsPositive | headers/Simulator.h:225-231 | a point below the total selects a direction with positive weight |
| Engine.ScaledDrawInRange | headers/Simulator.h:225 | random01() * sum lies in [0, sum) |
| Engine.SlotsCover | headers/Simulator.h:332 | the four deltas reach every slot |
| Engine.CopyScene | headers/Simulator.h:66-70 | the copy loop leaves a fresh N x M material grid equal to the scene, cell for cell |
| Engine.Simulator.constructor | headers/Simulator.h:54-79 | the grid holds the scene, pressures, stamps and both fields are zero, UT is 0, and dirs counts each open cell's open neighbours |
| Engine.Simulator.OpenInterior | headers/Simulator.h:121-122 | the neighbours of an open cell are inside the grid |
| Engine.Simulator.SwapBetween | headers/Simulator.h:95-101 | material, pressure and velocity of the two cells are exchanged and nothing else changes |
| Engine.Simulator.SwapTwice | headers/Simulator.h:95-101 | swapping two cells twice restores material, pressure and velocity everywhere |
| Engine.Simulator.OpenCount | headers/Simulator.h:88-90 | the number of open neighbours among the first j deltas is at most j |
| Engine.Simulator.AddOpenNeighbours | headers/Simulator.h:88-90 | dirs of the cell grows by its number of open neighbours; no other cell changes |
| Engine.Simulator.InitRow | headers/Simulator.h:84-92 | each open cell of the row gains its open-neighbour count; walls and other rows keep theirs |
| Engine.Simulator.DirectionsInit | headers/Simulator.h:81-93 | every open cell gains its open-neighbour count; walls keep theirs |
| Engine.Simulator.Random01 | headers/Simulator.h:103-112 | the result is the next draw's low K bits, a value in [0, 1) in steps of 2^-K |
| Engine.Simulator.QuadStepAdd | headers/Simulator.h:126-130 | pushing at most the spare capacity on an edge not within eps of full is an allowed step |
| Engine.Simulator.StepWithin | headers/Simulator.h:126-127 | an allowed step keeps every flow slot at 0 or at most its capacity |
| Engine.Simulator.PropagateFlow | headers/Simulator.h:114-146 | the cell ends stamped UT, stamps only rise, flow changes only at newly stamped cells and within capacity, and a success carries at most lim and ends at another cell |
| Engine.Simulator.FlowEdge | headers/Simulator.h:119-143 | one direction of the walk: the cell's flow moves only by an allowed step, and only when the walk returns from that direction |
| Engine.Simulator.StillMoving | headers/Simulator.h:151-162 | the unforced check finds exactly the cells with positive velocity towards an unvisited open neighbour |
| Engine.Simulator.PropagateStop | headers/Simulator.h:148-173 | an unforced stop of a still-moving cell changes nothing; otherwise the cell is stamped UT, and stamps only rise to UT |
| Engine.Simulator.Weight | headers/Simulator.h:179-190 | a direction's weight is never negative |
| Engine.Simulator.Weights | headers/Simulator.h:202-219 | the four weights are non-negative and are the per-direction weights |
| Engine.Simulator.MoveProb | headers/Simulator.h:175-192 | the loop's sum is the total weight, and it is not negative |
| Engine.Simulator.BuildTable | headers/Simulator.h:202-219 | the loop builds the cumulative table of the weights and their total |
| Engine.Simulator.ChooseDirection | headers/Simulator.h:221-231 | no draw and "stuck" iff the total is 0; otherwise one draw picks upper_bound of draw * sum / unit, a direction with positive velocity to an open cell not stamped UT |
| Engine.Simulator.SelectDirection | headers/Simulator.h:225-231 | the chosen direction satisfies the source's assertion: positive velocity, open neighbour, stamp below UT |
| Engine.Simulator.PositiveWeight | headers/Simulator.h:231 | a positive weight implies the three facts the assertion checks |
| Engine.Simulator.MoveAttempt | headers/Simulator.h:202-233 | stuck iff the total weight is 0; a failed attempt leaves contents alone and shrinks the set of unvisited cells |
| Engine.Simulator.MoveOn | headers/Simulator.h:233 | a neighbour stamped UT-1 succeeds at once; otherwise the recursive move's failure leaves contents alone |
| Engine.Simulator.MoveLoop | headers/Simulator.h:201-234 | the retry loop ends; on failure no cell's contents changed, on success the target is open |
| Engine.Simulator.SpreadStops | headers/Simulator.h:237-244 | stopping the neighbours only raises stamps to UT |
| Engine.Simulator.FinishMove | headers/Simulator.h:236-251 | a successful inner call swaps the cell with its target; otherwise contents are kept; walls are kept |
| Engine.Simulator.PropagateMove | headers/Simulator.h:195-252 | the cell ends stamped UT, stamps only rise to UT, walls never move, and a failed move changes no contents |
| Engine.Simulator.GravityRow | headers/Simulator.h:259-269 | every open cell over an open cell of the row gains g downward; nothing else changes |
| Engine.Simulator.Gravity | headers/Simulator.h:257-271 | phase A adds g to exactly the downward slot of the cells that fall |
| Engine.Simulator.AdvanceTime | headers/Simulator.h:307 | UT rises by 2, leaving every stamp below UT - 1 |
| Engine.Simulator.FlowCell | headers/Simulator.h:316-322 | an open cell ends stamped UT; the flow bound and the stamp discipline are kept |
| Engine.Simulator.FlowRow | headers/Simulator.h:314-323 | every open cell of the row ends stamped UT, and the flow stays within capacity |
| Engine.Simulator.FlowRound | headers/Simulator.h:307-325 | one round stamps every open cell with the new UT, and every flow is 0 or at most its capacity |
| Engine.Simulator.ClearFlow | headers/Simulator.h:303 | every flow slot becomes zero, so the flow bound holds |
| Engine.Simulator.TakeFlow | headers/Simulator.h:338-339 | the velocity slot takes the flow value, which keeps the flow bound |
| Engine.Simulator.Receiver | headers/Simulator.h:343-347 | the cell that receives a settled edge's pressure, the far cell or the cell itself when the far cell is a wall, is always open |
| Engine.Simulator.AddPressure | headers/Simulator.h:344-346 | `p[i][j] += dp` changes that one cell's pressure by dp and no other cell's |
| Engine.Simulator.SettleEdge | headers/Simulator.h:334-347 | a positive velocity drops to its flow and exactly one cell's pressure grows, by push(material, drop, dirs of that cell): the far cell's, or the cell's own when the far cell is a wall; a velocity that is not positive changes no pressure, and walls keep theirs |
| Engine.Simulator.SettleCell | headers/Simulator.h:332-349 | each positive velocity of the cell drops to its flow and never rises; pressure changes only at the cell and its neighbours, and walls keep theirs |
| Engine.Simulator.SettleRow | headers/Simulator.h:329-350 | every open cell of the row settles; other rows keep their velocity, and walls keep their pressure |
| Engine.Simulator.Settle | headers/Simulator.h:328-351 | phase D sets each positive velocity of an open cell to its flow, no velocity rises, the flow bound is kept, and walls keep their pressure |
| Engine.Simulator.DecideMove | headers/Simulator.h:359 | one draw; the move happens iff the draw is below move_prob |
| Engine.Simulator.DisplaceCell | headers/Simulator.h:357-365 | an unvisited open cell moves iff its draw is below its total weight; no move keeps every cell's contents; walls stay |
| Engine.Simulator.DisplaceRow | headers/Simulator.h:356-366 | every open cell of the row ends stamped UT; walls stay; no move keeps contents |
| Engine.Simulator.Displace | headers/Simulator.h:353-367 | UT rises by 2, every open cell ends stamped UT, walls stay, and a tick without a move changes no contents |
| Sweeps.Stalls | headers/Simulator.h:279 | a pass that does not advance y repeats for ever |
| Sweeps.PhaseBStallsOnBorder | headers/Simulator.h:277-279 | phase B's row loop never leaves column 0 when that cell is a wall |
| Sweeps.PhaseCStallsOnBorder | headers/Simulator.h:314-322 | phase C's row loop never leaves column 0 when that cell is a wall |
| Sweeps.CorrectedLeavesRow | headers/Simulator.h:260-269 | a loop that advances on every pass visits each column once and leaves the row |

## Left out

- Floating-point numbers: the `float`/`double` constructors and conversions of
  `FixedImpl`, `*`, `/`, `*=`, `/=` (computed through `double`) and `operator<<`. The
  floating-point branch of `random01` is left out too.
- Phase B, pressure relaxation (headers/Simulator.h:273-301), is left out apart from its
  row cursor. Its arithmetic divides pressures by densities through `double`. The loop
  does not end on any bordered scene (see Findings).
- The outer `do … while (prop)` of phase C (headers/Simulator.h:306, 326) is left out.
  It repeats while some push moved flow, and nothing in the source bounds the number of
  rounds. `FlowRound` is one round.
- Engine.Simulator.SettleEdge: the pressure a settled edge adds is a parameter `push(material, velocity drop, dirs)`. The parameter stands for the density product, the 0.8 damping of `.` and the division by `dirs`, which go through fixed-point `*` and `/`. Which cell receives it, and that no other cell changes, are stated.
- Engine.Simulator.SettleCell: states where pressure may change (the cell and its open neighbours) but not the sum each of them receives from the four edges.
- Engine.Simulator.SettleRow: states that walls keep their pressure, not the pressure each open cell ends with.
- Engine.Simulator.Settle: states that walls keep their pressure, not the pressure each open cell ends with, which is a sum over the settled edges pointing at it.
- Engine.Simulator.PropagateMove: the contract does not say which cells were swapped
  along a successful path. It says only that walls stay and that a failure keeps all
  contents.
- Engine.Simulator.FlowRound: the returned `prop` flag is computed as the source does,
  but its meaning is not stated.
- Engine.Simulator.Random01: the K low bits are taken as a non-negative mantissa. When K
  equals the width of `V`, `from_raw` would make draws with the top bit set negative, and
  the model does not capture this.
- Engine.Simulator.ChooseDirection: `random01() * sum` is taken as
  `floor(draw * sum / 2^K)`, exact on unbounded integers. The source computes the
  product through `double`.
- Engine: all quantities are unbounded raw mantissas at one `K`. Overflow of `pt`, `vt`
  and `vft` is not modelled. Neither are the conversions between them in the engine when
  they have different `K` or width (those conversions are modelled in `FixedPoint`).
- Engine: the densities `rho` appear only through `push`. Nothing reads `old_p`, since
  phase B is left out.
- Engine.Simulator.constructor: requires a scene whose border cells are all walls.
  Otherwise the source reads outside the grid.
- The engine is built on the fixed-size `CusMatrix`. Engines of dynamic size (size
  `(0, 0)`) use the vector-backed matrix, modelled only in `Matrices`.
- `CusMatrix<T, 0, 0>::operator=` is declared (headers/CusMatrix.h:23) but has no
  definition, so there is nothing to model.
- `std::mt19937` is not modelled. The generator is an arbitrary sequence of 32-bit draws,
  and the seed 1337 only fixes which sequence is used.
- FixedPoint.Add: `a.v + …` is computed in the common type of `V1` and `V2` after
  promotion to at least `int`. When the exact sum does not fit that type, C++ leaves the
  result undefined; the model wraps the exact sum to the width of `V1`. Only for the same
  8- or 16-bit `V` on both sides and the same K does the sum always fit `int`, so that only
  the narrowing in `from_raw` wraps, which C++ defines. `AddThenSub` holds under the
  model's reading.
- FixedPoint.Sub: the same as `Add` for the difference.
- FixedPoint.Convert: a left shift by K1 - K2 >= 64 in `int64_t`, or a right shift by at
  least the width of the promoted `V2`, is undefined in C++; the model gives the wrapped
  product (0) or the floor quotient there.
- FixedPoint.Aligned: a shift by at least the width of `V2` promoted to `int` is undefined
  in C++; the model gives the wrapped product or the floor quotient there.
- FixedPoint.Neg: for a 32- or 64-bit `V`, `-x.v` at the most negative mantissa is
  undefined behaviour in C++; the model returns the value unchanged, which is what C++
  defines for 8- and 16-bit `V`.
- FixedPoint.FromInt: shifts by K >= 64 are undefined behaviour in C++, so the model
  requires K < 64.
- The following are I/O and are not part of this model:
  - printing the grid after a tick that moved material (headers/Simulator.h:369-377);
  - `serialize` and the tick counter that triggers it (headers/Simulator.h:379-414).
    Its `continue` at headers/Simulator.h:396 skips `i++` for a zero density, so the
    loop over densities would not end either, just as phase B does not;
  - `InfoF` (reading the scene);
  - `parseArgs` (regular expressions over the command line);
  - the driver loop of 1000000 ticks in main.cpp:30-32.

## Findings

| source | as written | input that shows it | evidently intended | confidence | as-written member | corrected member |
|---|---|---|---|---|---|---|
| headers/Simulator.h:279 | `if (field[x][y] == '#') continue;` skips `++y`, so the row loop of phase B stays on the wall for ever | any scene with a wall border: cell (0, 0) is `#` | advance `y` past a wall, as phase A does at line 262 | high; not executed | Sweeps.PhaseBStallsOnBorder | Sweeps.CorrectedLeavesRow |
| headers/Simulator.h:316-322 | `++y` sits inside the test for an open, unstamped cell, so a wall (or a cell already stamped UT) stops the row loop of phase C for ever | any scene with a wall border: cell (0, 0) is `#` | advance `y` on every pass | high; not executed | Sweeps.PhaseCStallsOnBorder | Engine.Simulator.FlowRound |
