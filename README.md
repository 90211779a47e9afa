# pycycle SEAS core in Dafny

This project models the exact-arithmetic scaffolding of pycycle, a
boundary-element solver for sequences of earthquakes and aseismic slip
(SEAS) on a 2-D fault.

- `mesh.dfy` (module `Mesh`) covers the boundary geometry:
  - finite segments (`LineElement`) and semi-infinite rays
    (`InfiniteLineElement`), with their parameterisation `xi`, `basis`,
    integration `factor`, collocation point and fault flag;
  - the tessellation of a segment into a chain of elements;
  - counting fault elements;
  - the choice of the outward unit normal of a segment.
- `seas.dfy` (module `Seas`) covers the discrete part of the ODE right-hand
  side:
  - `FaultMap` and `IFaultMap`, the two index maps between fault-only indices
    `[0, Nf)` and mesh indices `[0, N)`, with `-1` marking non-fault
    elements;
  - `VariableParams`, which samples parameter fields at the fault collocation
    points;
  - the interleaved state vector `[S0, psi0, S1, psi1, ...]` that `y0` builds
    and `F` reads and fills slot by slot.

  The physics (traction, slip rate, state law, initial state) enters as
  uninterpreted functions in a `Physics` value.
- `monitor.dfy` (module `Monitoring`) covers two parts of `monitor.py`:
  - the `print_time` split of a millisecond count into years, days, hours,
    minutes, seconds and milliseconds;
  - the bookkeeping of `Monitor.__call__`: the `t`/`v` history lists, the
    nine-entry `sol_stack` window, regime selection from the threshold list,
    and the loop that emits interpolated plot frames between the last two
    snapshots.

Euclidean norms have no closed form over `real`. Each norm is therefore
passed in as a parameter together with the certificate
`IsNorm(len, v)`, which means `len >= 0` and `len * len == |v|^2`. The piece
count `ceil(|h| / resolution)` is computed from that given length.

Classes whose constructors fill arrays in loops (`FaultMap`, `IFaultMap`,
`VariableParams`), the `y0` and `F` loops, `num_fault_elements`, the in-place
swap of `line_normal` and the monitor's loops are imperative Dafny:

- Most of them are proved against a specification function on sequences
  (`FaultIndices`, `InverseIndices`, `FaultPoints`, `Rhs`, `GridTimes`,
  `Frames`, `Next`). The exceptions are `Y0`, whose result is stated
  through its even and odd entries, and `RotateAndNormalize` and
  `LineNormal`, which are stated against `QuarterTurn` and direct
  geometric properties.
- The properties the source relies on are lemmas about those functions.

A monitor call is split into two parts:

- `Monitoring.Step` runs the body of `__call__` on a value-level `State`.
- `Monitoring.Monitor.Call` assigns the result to the object's fields.

## Model

| member | source | states |
|---|---|---|
| Mesh.LineElement | SEAS/pycycle-student/pycycle/mesh.py:6-19 | the element starts at a, ends at b, keeps the fault flag and stores the normal divided by its norm, so the stored normal has unit length |
| Mesh.InfiniteLineElement | SEAS/pycycle-student/pycycle/mesh.py:61-72 | a ray starting at a with the unit normal; it is never a fault element |
| Mesh.Element.IsFault | SEAS/pycycle-student/pycycle/mesh.py:72 | a ray is never a fault element; a segment is one exactly when its flag is set (mesh.py:19) |
| Mesh.Element.Xi | SEAS/pycycle-student/pycycle/mesh.py:21-28 | on a segment xi(theta) is the combination ((1 - theta)/2) a + ((theta + 1)/2) b of the two end points |
| Mesh.Element.Basis | SEAS/pycycle-student/pycycle/mesh.py:89-99 | the basis is 1 on a segment (mesh.py:37) and lies in [0, 1] on a ray for theta in [-1, 1] |
| Mesh.Element.Factor | SEAS/pycycle-student/pycycle/mesh.py:102-111 | the factor is basis(theta) times abs(xi'(theta)): times abs(h)/2 on a segment (mesh.py:39-48), times 4 abs(a)/(theta - 1)^2 on a ray |
| Mesh.Element.CollocationPoint | SEAS/pycycle-student/pycycle/mesh.py:51-53 | the midpoint of a and b on a segment, the start point a on a ray (mesh.py:114-116) |
| Mesh.LineXiEndpoints | SEAS/pycycle-student/pycycle/mesh.py:28 | xi(-1) = a, xi(1) = b, and xi(0) is the midpoint, which is the collocation point (mesh.py:51-53) |
| Mesh.LineBasisConstant | SEAS/pycycle-student/pycycle/mesh.py:37-48 | on a segment the basis is 1 for every theta and the factor does not depend on theta |
| Mesh.LineFactorIsJacobian | SEAS/pycycle-student/pycycle/mesh.py:39-48 | xi(t) - xi(s) = (t - s)/2 h, whose length is factor * (t - s): the factor is the basis times abs(xi') |
| Mesh.RayXiSamples | SEAS/pycycle-student/test/test_mesh.py:46-53 | on a ray xi(-1) = a (the collocation point, mesh.py:114-116), xi(0) = 3a and xi(0.99) = 399a |
| Mesh.RayXiBeyondStart | SEAS/pycycle-student/pycycle/mesh.py:82 | for theta in [-1, 1), xi(theta) is a multiple of a by a scale of at least 1 that grows strictly with theta |
| Mesh.RaySecant | SEAS/pycycle-student/pycycle/mesh.py:82 | xi(t) - xi(s) = 4(t - s)/((1 - s)(1 - t)) a, the secant of the rational map |
| Mesh.RayBasisSamples | SEAS/pycycle-student/test/test_mesh.py:55-59 | the ray basis is 1 at -1, 1/9 at 0, 1/399^2 at 0.99 and 0 at 1 |
| Mesh.RayBasisSquare | SEAS/pycycle-student/pycycle/mesh.py:95-98 | for theta in [-1, 1) the basis times the squared scale ((theta+3)/(1-theta))^2 is 1 |
| Mesh.RayBasisInverseSquare | SEAS/pycycle-student/pycycle/mesh.py:95-98 | basis(theta) * abs(xi(theta))^2 = abs(a)^2, i.e. the basis is (abs(a)/abs(xi))^2 |
| Mesh.RayWeightDecreasing | SEAS/pycycle-student/pycycle/mesh.py:98 | (1 - theta)/(theta + 3) is non-negative and strictly decreasing on [-1, 1] |
| Mesh.RayBasisDecreasing | SEAS/pycycle-student/pycycle/mesh.py:98 | the ray basis is non-negative and strictly decreasing on [-1, 1] |
| Mesh.RayFactorTimesSquare | SEAS/pycycle-student/pycycle/mesh.py:110-111 | factor(theta) (theta + 3)^2 = 4 abs(a) for theta in [-1, 1) |
| Mesh.RayFactorBounded | SEAS/pycycle-student/pycycle/mesh.py:110-111 | factor(theta) = 4 abs(a)/(theta+3)^2 and lies between abs(a)/4 and abs(a) on [-1, 1) |
| Mesh.PieceCount | SEAS/pycycle-student/pycycle/mesh.py:134 | N = ceil(abs(h)/resolution): N is at least abs(h)/resolution and below it plus one, and N = 0 exactly when abs(h) = 0 |
| Mesh.PieceLength | SEAS/pycycle-student/pycycle/mesh.py:122-134 | every piece of a non-degenerate segment is no longer than the resolution |
| Mesh.Piece | SEAS/pycycle-student/pycycle/mesh.py:136-137 | piece n runs from a + n/N h to a + (n+1)/N h, has length abs(h)/N, and carries the unit normal and the fault flag |
| Mesh.TessellateLine | SEAS/pycycle-student/pycycle/mesh.py:122-138 | piece n is the n-th of N equal subsegments (Mesh.Piece); N = ceil(abs(h)/resolution), none exactly when abs(h) = 0 or the resolution is negative; the first starts at a, the last ends at b, each ends where the next starts, all share the normal and the fault flag, and none is longer than the resolution |
| Mesh.FaultCount | SEAS/pycycle-student/pycycle/mesh.py:141-150 | the number of fault-flagged elements, at most len(mesh) |
| Mesh.FaultCountIsCardinality | SEAS/pycycle-student/pycycle/mesh.py:141-150 | the fault count is the number of fault-flagged indices, hence at most len(mesh) |
| Mesh.FaultCountMonotone | SEAS/pycycle-student/pycycle/mesh.py:146-150 | the count over a prefix of the mesh never exceeds the count over the whole mesh |
| Mesh.NumFaultElements | SEAS/pycycle-student/pycycle/mesh.py:141-150 | the counting loop returns the number of fault-flagged elements |
| Mesh.QuarterTurn | SEAS/pycycle-student/pycycle/mesh.py:164 | the swapped vector lies a positive quarter turn from its argument: cross(v, r) = abs(v)^2 |
| Mesh.QuarterTurnIsometry | SEAS/pycycle-student/pycycle/mesh.py:164 | the swap (x, y) -> (-y, x) is perpendicular to its argument and keeps its norm |
| Mesh.UnitQuarterTurn | SEAS/pycycle-student/pycycle/mesh.py:163-165 | the rotated, normalised direction is perpendicular to b - a and has unit length; its inner product with c, times abs(b - a), is the cross product of b - a with c |
| Mesh.RotateAndNormalize | SEAS/pycycle-student/pycycle/mesh.py:163-165 | the in-place swap and in-place division give the quarter turn of b - a divided by its norm |
| Mesh.LineNormal | SEAS/pycycle-student/pycycle/mesh.py:153-166 | the result is a unit vector perpendicular to b - a with inner(star_centre - a, normal) <= 0, and < 0 whenever star_centre is off the line through a and b |
| Seas.FaultIndices | SEAS/pycycle-student/pycycle/seas.py:15-21 | the fault-index sequence has num_fault_elements(mesh) entries, each the index of a fault-flagged element |
| Seas.FaultIndicesIncreasing | SEAS/pycycle-student/pycycle/seas.py:17-21 | the fault indices are strictly increasing (encounter order) |
| Seas.FaultIndicesPrefix | SEAS/pycycle-student/pycycle/seas.py:18-21 | the indices found in the first i elements are a prefix of all fault indices (the running counter f) |
| Seas.FaultPosition | SEAS/pycycle-student/pycycle/seas.py:19-21 | a fault element i is stored at position f = (faults before i), and f < Nf |
| Seas.FaultIndicesComplete | SEAS/pycycle-student/pycycle/seas.py:17-21 | every fault-flagged index appears in the map |
| Seas.InverseIndices | SEAS/pycycle-student/pycycle/seas.py:39-47 | the inverse map has one entry per mesh element |
| Seas.InverseIndicesRange | SEAS/pycycle-student/pycycle/seas.py:41-47 | imap[i] = -1 exactly when element i is not a fault, and otherwise imap[i] lies in [0, Nf) |
| Seas.IndexMapsInverse | SEAS/pycycle-student/pycycle/seas.py:8-55 | imap(map(f)) = f for every f < Nf, and map(imap(i)) = i for every fault index i |
| Seas.FaultMap.constructor | SEAS/pycycle-student/pycycle/seas.py:10-21 | the constructor loop fills the array with exactly the fault indices, Nf of them |
| Seas.FaultMap.Length | SEAS/pycycle-student/pycycle/seas.py:23-25 | len returns num_fault_elements(mesh) |
| Seas.FaultMap.Apply | SEAS/pycycle-student/pycycle/seas.py:27-29 | map(f) is the f-th fault index, a fault-flagged mesh index |
| Seas.IFaultMap.constructor | SEAS/pycycle-student/pycycle/seas.py:34-47 | the constructor loop fills the array with the inverse indices, -1 for non-fault elements |
| Seas.IFaultMap.Length | SEAS/pycycle-student/pycycle/seas.py:49-51 | len returns len(mesh) |
| Seas.IFaultMap.Apply | SEAS/pycycle-student/pycycle/seas.py:53-55 | imap(i) is -1 exactly for non-fault elements; otherwise it is in [0, Nf) and map(imap(i)) = i |
| Seas.FaultPoints | SEAS/pycycle-student/pycycle/seas.py:69-75 | one collocation point per fault element, in fault-index order |
| Seas.CollectFaultPoints | SEAS/pycycle-student/pycycle/seas.py:69-75 | the first constructor loop stores at x[f] the collocation point of mesh[map(f)] |
| Seas.VariableParams.constructor | SEAS/pycycle-student/pycycle/seas.py:62-80 | x[f] is the collocation point of mesh[map(f)], and a[f], tau_pre[f] are the two fields evaluated at x[f] |
| Seas.Evens | SEAS/pycycle-student/pycycle/seas.py:219 | y[::2]: ceil(len/2) entries, entry k = y[2k] |
| Seas.Odds | SEAS/pycycle-student/pycycle/seas.py:228 | y[1::2]: floor(len/2) entries, entry k = y[2k+1] |
| Seas.Interleave | SEAS/pycycle-student/pycycle/seas.py:209-212 | the state vector [S_0, psi_0, S_1, psi_1, ...] has 2 Nf entries |
| Seas.InterleaveSlots | SEAS/pycycle-student/pycycle/seas.py:209-212 | in the interleaved vector slot 2f holds S_f and slot 2f+1 holds psi_f |
| Seas.SplitInterleave | SEAS/pycycle-student/pycycle/seas.py:209-212 | the even and odd entries of an interleaved vector give back its two halves |
| Seas.InterleaveSplit | SEAS/pycycle-student/pycycle/seas.py:209-212 | an even-length vector is the interleaving of its even and odd entries |
| Seas.Context.constructor | SEAS/pycycle-student/pycycle/seas.py:109-124 | the context holds the fault map and the inverse map of the mesh and the physics |
| Seas.Y0 | SEAS/pycycle-student/pycycle/seas.py:195-205 | a fresh vector of length 2 Nf whose even entries are 0 and whose entry 2f+1 is psi0(f) |
| Seas.SlipRates | SEAS/pycycle-student/pycycle/seas.py:223-225 | V_f = slip_rate(f, tau[f], y[2f+1]) for every f < len(y)//2 |
| Seas.StateRates | SEAS/pycycle-student/pycycle/seas.py:226 | entry f is state_law(f, V_f, y[2f+1]) |
| Seas.Rhs | SEAS/pycycle-student/pycycle/seas.py:219-226 | the right-hand side has 2 (len(y)//2) entries |
| Seas.RhsSlots | SEAS/pycycle-student/pycycle/seas.py:222-226 | slot 2f is slip_rate(f, tau[f], y[2f+1]) with tau = traction(t, y[::2]), and slot 2f+1 is state_law(f, that rate, y[2f+1]) |
| Seas.EvaluateRhs | SEAS/pycycle-student/pycycle/seas.py:219-226 | the loop returns a fresh vector of the length of y whose first 2 (len(y)//2) slots are the right-hand side |
| Seas.F | SEAS/pycycle-student/pycycle/seas.py:208-229 | fy has the length of y and its slots are the right-hand side; the callback, when given, sees (t, y[::2], fy[::2], y[1::2], tau), and fy does not depend on it |
| Monitoring.SplitTime | SEAS/pycycle-student/pycycle/monitor.py:4-10 | y*31536000000 + d*86400000 + h*3600000 + m*60000 + s*1000 + ms = total, with 0 <= d < 365, 0 <= h < 24, 0 <= m < 60, 0 <= s < 60, 0 <= ms < 1000 and y >= 0 for a non-negative total |
| Monitoring.SplitTimeUnique | SEAS/pycycle-student/pycycle/monitor.py:6-10 | any decomposition that sums to the total with every component in range is the one the divmod chain returns |
| Monitoring.Max | SEAS/pycycle-student/pycycle/monitor.py:38 | v.max() is an entry of v and bounds every entry |
| Monitoring.RegimeIndex | SEAS/pycycle-student/pycycle/monitor.py:46-49 | the regime is thresholds[0] unless a later threshold has vthresh < max(v); then it is the last such threshold |
| Monitoring.SelectRegime | SEAS/pycycle-student/pycycle/monitor.py:46-49 | the for-loop over thresholds[1:] returns the threshold RegimeIndex picks |
| Monitoring.StepsDecrease | SEAS/pycycle-student/pycycle/monitor.py:61-75 | each pass of the while-loop with dt > 0 brings tx exactly one step closer to t2, so the loop ends |
| Monitoring.GridTimes | SEAS/pycycle-student/pycycle/monitor.py:60-75 | the times the while-loop keeps, at most one per pass of the loop |
| Monitoring.GridTimesBounds | SEAS/pycycle-student/pycycle/monitor.py:61-62 | every emitted time tx satisfies t1 < tx < t2 and is not before the start time |
| Monitoring.GridTimesSpacing | SEAS/pycycle-student/pycycle/monitor.py:60-75 | consecutive emitted times differ by exactly dt |
| Monitoring.GridTimesIncreasing | SEAS/pycycle-student/pycycle/monitor.py:60-75 | the emitted times are strictly increasing |
| Monitoring.GridTimesComplete | SEAS/pycycle-student/pycycle/monitor.py:60-75 | every grid time t0 + dt + k dt strictly between t1 and t2 is emitted: no frame is skipped |
| Monitoring.Weights | SEAS/pycycle-student/pycycle/monitor.py:67 | the two weights sum to 1 and the second one, times (t2 - t1), is tx - t1 |
| Monitoring.WeightsConvex | SEAS/pycycle-student/pycycle/monitor.py:67 | for t1 < tx < t2 both weights lie in (0, 1) and they sum to 1 |
| Monitoring.Average | SEAS/pycycle-student/pycycle/monitor.py:68-71 | np.average of two equal-length vectors with weights w0, w1 has their length |
| Monitoring.AverageBetween | SEAS/pycycle-student/pycycle/monitor.py:68-71 | the weighted average lies, entry by entry, between the two snapshots' entries |
| Monitoring.Frame | SEAS/pycycle-student/pycycle/monitor.py:65-71 | the frame pushed at tx carries the regime colour, the time tx and fields of the snapshots' lengths |
| Monitoring.FrameBetween | SEAS/pycycle-student/pycycle/monitor.py:65-71 | every blended field (u, v, psi, tau) of an interpolated frame lies entrywise between the two snapshots it interpolates |
| Monitoring.Frames | SEAS/pycycle-student/pycycle/monitor.py:62-71 | one frame per emitted time, carrying that time and the regime colour |
| Monitoring.Interpolate | SEAS/pycycle-student/pycycle/monitor.py:57-75 | the while-loop pushes exactly the frames at the grid times between the last two snapshots, each strictly between t1 and t2 |
| Monitoring.AppendFrames | SEAS/pycycle-student/pycycle/monitor.py:65 | appending increasing frames that all come after the last frame keeps the plot stack increasing |
| Monitoring.WindowSlides | SEAS/pycycle-student/pycycle/monitor.py:44 | pushing a snapshot onto the last min(n, 9) snapshots and then dropping the oldest (monitor.py:77-78) gives the last min(n+1, 9) snapshots |
| Monitoring.RecordedExtends | SEAS/pycycle-student/pycycle/monitor.py:37-38 | appending t and max(v) keeps the lists t and v equal to the times and peak rates of all snapshots so far |
| Monitoring.Regime | SEAS/pycycle-student/pycycle/monitor.py:46-49 | the selected regime is one of the thresholds |
| Monitoring.NextTimes | SEAS/pycycle-student/pycycle/monitor.py:56-75 | the frame times of a later call lie strictly between the two latest snapshot times, after the last frame time, strictly increasing and dt apart |
| Monitoring.NextPlot | SEAS/pycycle-student/pycycle/monitor.py:51-75 | the plot stack after a call extends the one before it and is non-empty |
| Monitoring.SlideWindow | SEAS/pycycle-student/pycycle/monitor.py:44 | the window after a call is non-empty, ends with the new snapshot, is at most one longer and stays within 9 entries (monitor.py:77-78) |
| Monitoring.Next | SEAS/pycycle-student/pycycle/monitor.py:37-78 | a call adds one entry to t and v, keeps the earlier plot frames and leaves the new snapshot last in sol_stack |
| Monitoring.NextRecorded | SEAS/pycycle-student/pycycle/monitor.py:37-38 | a call appends exactly t to self.t and max(v) to self.v, and nothing else changes in those lists |
| Monitoring.NextWindow | SEAS/pycycle-student/pycycle/monitor.py:44 | after a call sol_stack holds min(calls, 9) snapshots in arrival order, the last being the current snapshot (monitor.py:77-78) |
| Monitoring.NextPlotOrdered | SEAS/pycycle-student/pycycle/monitor.py:51-75 | after a call the plot stack is non-empty and its frame times are strictly increasing |
| Monitoring.NextConsistent | SEAS/pycycle-student/pycycle/monitor.py:33-78 | a call keeps the monitor invariant: history lists, window, a plot frame after the first call, and increasing frame times |
| Monitoring.NextFirstFrame | SEAS/pycycle-student/pycycle/monitor.py:51-52 | on the first call exactly one frame is pushed, with the current time, the snapshot's fields and the selected regime colour |
| Monitoring.NextLaterFrames | SEAS/pycycle-student/pycycle/monitor.py:56-75 | on later calls the old frames are kept; every added frame has the regime colour and a time after the last frame's time and strictly between the two latest snapshot times, and consecutive added frames are dt apart |
| Monitoring.PushFrames | SEAS/pycycle-student/pycycle/monitor.py:51-75 | the first-frame branch or the interpolation branch produces the plot stack NextPlot describes |
| Monitoring.Step | SEAS/pycycle-student/pycycle/monitor.py:37-78 | the body of a call (append t and max(v), push the snapshot, select the regime, push frames, pop beyond the window) yields Next |
| Monitoring.Monitor.constructor | SEAS/pycycle-student/pycycle/monitor.py:21-31 | all four lists start empty and the thresholds are kept |
| Monitoring.Monitor.Call | SEAS/pycycle-student/pycycle/monitor.py:33-78 | the fields after a call are Next of the fields before it, the snapshot joins the history, and the invariant holds again |

## Left out

- `bem.py` and `green.py` (`assemble`, `rhs_op`, the Green's function kernels) are not part of this model. They are floating-point quadrature and transcendental functions with nothing discrete to state.
- `Context.__init__`'s LU factorisation and the bodies of `traction`, `slip_rate`, `friction_law`, `state_law` and `psi0` are left out. They use `exp`, `arcsinh`, `log` and the BEM solve; `slip_rate` is an unimplemented stub returning 0.0 (seas.py:168-176). They enter `Y0` and `F` as the uninterpreted functions of `Seas.Physics`.
- `ConstantParams` is left out. It only stores constants and computes `rho * v_s**2` and `rho * v_s / 2`, which only the physics functions use.
- Euclidean norms (`np.linalg.norm`) are parameters certified by `IsNorm`, because Dafny has no square root. Floating-point rounding in `xi`, `basis`, `factor` and the normalisation is not modelled: all arithmetic is exact over `real`.
- The quadrature-based integral tests are not modelled.
- Printing, `np.log10`, axis plotting and canvas drawing in `monitor.py` are left out. The float `round(1000*t)` in `print_time` is left out too: `SplitTime` starts from the integer millisecond total. Python's `divmod` with a positive divisor agrees with Dafny's `/` and `%`, including for negative totals.
- `Monitoring.Monitor.constructor` requires a non-empty threshold list with `dt > 0` in every threshold. With `dt <= 0` the source's interpolation loop never ends once it is entered; with an empty list `thresholds[0]` raises.
- `Monitoring.Monitor.Call` requires a non-empty velocity vector, because `v.max()` raises on an empty array. It also requires the snapshot to have the same field lengths as the previous one, because `np.average` raises on mismatched shapes.
- `Monitoring.GridTimes`, `Monitoring.Interpolate` and `Monitoring.NextTimes` compute `tx += dt` exactly over `real`. The source accumulates float rounding in `tx` (monitor.py:75), so its frame times drift from exact multiples of dt, and with a dt below the rounding unit of `tx` the loop never ends. Exact dt spacing, completeness and termination hold only for the real-valued model.
- `Monitoring.Monitor.Call` runs the body of `__call__` in `Monitoring.Step` on a `State` value and assigns the four lists at the end. The source appends to each list in place, one statement after another, and reads the lists in between. `Step` makes the same updates in the same order on local values. Every read the model keeps (`sol_stack[-2]`, `sol_stack[-1]` and `plt_stack[-1]` at monitor.py:56-59 and monitor.py:68-71, and the emptiness test of `plt_stack` at monitor.py:51) sees what the source's field holds at that point, so the reads and the final state agree. The read of `t` and `v` for plotting at monitor.py:41 is left out with the plotting.
- `Seas.FaultMap.Apply` and `Seas.IFaultMap.Apply` require an index in range. Python's negative indexing and its `IndexError` are not modelled.
- `Seas.F` requires the traction vector to have at least `len(y)//2` entries. With fewer, `tau[f]` raises.
- `Seas.F` models the callback as an observer that gets copies. The source hands it numpy views of `y` and `fy` (seas.py:228), and `Monitor` stores them by reference (monitor.py:44, monitor.py:52), so a callback that wrote into them would change `fy`; the model assumes a callback that does not write.
- `Seas.F`: for odd `len(y)` the last slot of `fy` is left unspecified. `np.ndarray` leaves it uninitialised in the source.
- `Mesh.LineNormal` requires `a != b`, through a positive length. For `a == b` the source divides by a zero norm and returns NaNs.
- `Mesh.TessellateLine` states the emptiness of the result through the given length: it has no elements exactly when `hNorm == 0` or the resolution is negative.
- `Mesh.TessellateLine` requires a non-zero resolution. With resolution 0 the source divides by zero and `int()` of the resulting infinity or NaN raises.
- `Mesh.TessellateLine` requires a non-zero normal, and so do `Mesh.LineElement` and `Mesh.InfiniteLineElement`. With a zero normal the source divides by a zero norm (mesh.py:18, mesh.py:71) and stores NaNs.
- `Mesh.LineNormal` models the coordinates as reals. With integer coordinates `normal` is an integer array and the in-place `normal /=` (mesh.py:165) raises a numpy casting error; the model does not capture that failure.
- `Mesh.Element.Factor` and `Mesh.Element.Xi` of a ray exclude theta = 1. There the source divides by zero.
- `__repr__` methods are not modelled. They only format strings.
