/**
  The on-fault index maps and the layout of the SEAS state vector (pycycle/seas.py).

  The boundary mesh numbers its elements 0 .. N-1; the fault elements among
  them are numbered 0 .. Nf-1 in the order they are met.  `FaultMap` sends a
  fault number to its boundary index, `IFaultMap` sends a boundary index back to
  its fault number (or -1).  The ODE state vector interleaves, per fault element
  f, the displacement S_f and the state variable psi_f: [S_0, psi_0, S_1, psi_1, ...].

  The constitutive laws and the traction operator are not modelled: they are
  arbitrary functions bundled in `Physics`, and `Y0` and `F` are proved to be
  the layout and plumbing around them.
*/
module Seas {
  import opened Mesh

  datatype Option<T> = None | Some(value: T)

  // ---------------------------------------------------------------------------
  // Specification of the two index maps

  /** The boundary indices of the fault elements, in increasing order. */
  function FaultIndices(mesh: seq<Element>): (r: seq<nat>)
    ensures |r| == FaultCount(mesh)
    ensures forall k :: 0 <= k < |r| ==> r[k] < |mesh| && mesh[r[k]].IsFault()
  {
    if mesh == [] then []
    else
      var n := |mesh| - 1;
      FaultIndices(mesh[..n]) + (if mesh[n].IsFault() then [n] else [])
  }

  /** The fault number of every boundary element: its rank among the faults, or -1. */
  function InverseIndices(mesh: seq<Element>): (r: seq<int>)
    ensures |r| == |mesh|
  {
    seq(|mesh|, i requires 0 <= i < |mesh| =>
      if mesh[i].IsFault() then FaultCount(mesh[..i]) else -1)
  }

  /** Fault indices are met in encounter order: strictly increasing. */
  lemma {:induction false} FaultIndicesIncreasing(mesh: seq<Element>)
    ensures forall j, k :: 0 <= j < k < |FaultIndices(mesh)| ==> FaultIndices(mesh)[j] < FaultIndices(mesh)[k]
  {
    if mesh != [] {
      var n := |mesh| - 1;
      FaultIndicesIncreasing(mesh[..n]);
    }
  }

  /** The fault indices of a prefix of the mesh are a prefix of the fault indices. */
  lemma {:induction false} FaultIndicesPrefix(mesh: seq<Element>, i: nat)
    requires i <= |mesh|
    ensures FaultIndices(mesh[..i]) <= FaultIndices(mesh)
    decreases |mesh|
  {
    if i < |mesh| {
      var prefix := mesh[..|mesh| - 1];
      assert prefix[..i] == mesh[..i];
      FaultIndicesPrefix(prefix, i);
    } else {
      assert mesh[..i] == mesh;
    }
  }

  /** A fault element at boundary index i sits at position FaultCount(mesh[..i]) of the fault indices. */
  lemma FaultPosition(mesh: seq<Element>, i: nat)
    requires i < |mesh| && mesh[i].IsFault()
    ensures FaultCount(mesh[..i]) < FaultCount(mesh)
    ensures FaultIndices(mesh)[FaultCount(mesh[..i])] == i
  {
    var upTo := mesh[..i + 1];
    assert upTo[..i] == mesh[..i];
    assert FaultIndices(upTo) == FaultIndices(mesh[..i]) + [i];
    FaultIndicesPrefix(mesh, i + 1);
  }

  /** Every fault-flagged boundary index appears among the fault indices. */
  lemma FaultIndicesComplete(mesh: seq<Element>)
    ensures forall i :: 0 <= i < |mesh| && mesh[i].IsFault() ==> i in FaultIndices(mesh)
  {
    forall i | 0 <= i < |mesh| && mesh[i].IsFault()
      ensures i in FaultIndices(mesh)
    {
      FaultPosition(mesh, i);
    }
  }

  /** imap[i] is -1 exactly for the non-fault elements, and a fault number in [0, Nf) otherwise. */
  lemma InverseIndicesRange(mesh: seq<Element>)
    ensures forall i :: 0 <= i < |mesh| ==>
      (InverseIndices(mesh)[i] == -1 <==> !mesh[i].IsFault()) &&
      (mesh[i].IsFault() ==> 0 <= InverseIndices(mesh)[i] < FaultCount(mesh))
  {
    forall i | 0 <= i < |mesh| && mesh[i].IsFault()
      ensures 0 <= InverseIndices(mesh)[i] < FaultCount(mesh)
    {
      FaultPosition(mesh, i);
    }
  }

  /** The two maps are mutual inverses between [0, Nf) and the fault-flagged boundary indices. */
  lemma IndexMapsInverse(mesh: seq<Element>)
    ensures forall f :: 0 <= f < FaultCount(mesh) ==> InverseIndices(mesh)[FaultIndices(mesh)[f]] == f
    ensures forall i :: 0 <= i < |mesh| && mesh[i].IsFault() ==>
      0 <= InverseIndices(mesh)[i] < FaultCount(mesh) &&
      FaultIndices(mesh)[InverseIndices(mesh)[i]] == i
  {
    FaultIndicesIncreasing(mesh);
    forall f | 0 <= f < FaultCount(mesh)
      ensures InverseIndices(mesh)[FaultIndices(mesh)[f]] == f
    {
      var i := FaultIndices(mesh)[f];
      FaultPosition(mesh, i);
      var g := FaultCount(mesh[..i]);
      assert FaultIndices(mesh)[g] == FaultIndices(mesh)[f];
    }
    forall i | 0 <= i < |mesh| && mesh[i].IsFault()
      ensures 0 <= InverseIndices(mesh)[i] < FaultCount(mesh)
      ensures FaultIndices(mesh)[InverseIndices(mesh)[i]] == i
    {
      FaultPosition(mesh, i);
    }
  }

  // ---------------------------------------------------------------------------
  // FaultMap and IFaultMap

  /** Maps on-fault indices to boundary indices. */
  class FaultMap {
    ghost const mesh: seq<Element>
    const nf: nat
    const mapping: array<int>

    ghost predicate Valid()
      reads mapping
    {
      nf == FaultCount(mesh) && mapping.Length == nf && mapping[..] == FaultIndices(mesh)
    }

    /** Fills the map in one pass over the mesh with a running fault counter. */
    constructor (mesh: seq<Element>)
      ensures this.mesh == mesh && Valid() && fresh(mapping)
    {
      var nf := NumFaultElements(mesh);
      var m := new int[nf];
      var f := 0;
      for i := 0 to |mesh|
        invariant f == FaultCount(mesh[..i]) && f <= nf
        invariant m[..f] == FaultIndices(mesh[..i])
      {
        var upTo := mesh[..i + 1];
        assert upTo[..i] == mesh[..i];
        if mesh[i].IsFault() {
          FaultCountMonotone(mesh, i + 1);
          m[f] := i;
          f := f + 1;
        }
      }
      assert mesh[..|mesh|] == mesh;
      assert m[..] == m[..f];
      this.mesh := mesh;
      this.nf := nf;
      this.mapping := m;
    }

    /** The number of on-fault elements. */
    method Length() returns (n: nat)
      requires Valid()
      ensures n == FaultCount(mesh)
    {
      n := nf;
    }

    /** The boundary index of fault element f: a fault-flagged index. */
    method Apply(f: nat) returns (i: int)
      requires Valid() && f < nf
      ensures i == FaultIndices(mesh)[f]
      ensures 0 <= i < |mesh| && mesh[i].IsFault()
    {
      i := mapping[f];
    }
  }

  /** Maps boundary indices to on-fault indices, -1 off the fault. */
  class IFaultMap {
    ghost const mesh: seq<Element>
    const n: nat
    const inverse: array<int>

    ghost predicate Valid()
      reads inverse
    {
      n == |mesh| && inverse.Length == n && inverse[..] == InverseIndices(mesh)
    }

    /** Fills the inverse map in one pass over the mesh with a running fault counter. */
    constructor (mesh: seq<Element>)
      ensures this.mesh == mesh && Valid() && fresh(inverse)
    {
      var m := new int[|mesh|];
      var f := 0;
      for i := 0 to |mesh|
        invariant f == FaultCount(mesh[..i])
        invariant m[..i] == InverseIndices(mesh)[..i]
      {
        var upTo := mesh[..i + 1];
        assert upTo[..i] == mesh[..i];
        if mesh[i].IsFault() {
          m[i] := f;
          f := f + 1;
        } else {
          m[i] := -1;
        }
        assert m[..i + 1] == m[..i] + [m[i]];
      }
      assert m[..] == m[..|mesh|];
      this.mesh := mesh;
      this.n := |mesh|;
      this.inverse := m;
    }

    /** The number of boundary elements. */
    method Length() returns (count: nat)
      requires Valid()
      ensures count == |mesh|
    {
      count := n;
    }

    /** The fault number of boundary element i, or -1 when it is not a fault element. */
    method Apply(i: nat) returns (f: int)
      requires Valid() && i < n
      ensures f == InverseIndices(mesh)[i]
      ensures f == -1 <==> !mesh[i].IsFault()
      ensures mesh[i].IsFault() ==> 0 <= f < FaultCount(mesh) && FaultIndices(mesh)[f] == i
    {
      IndexMapsInverse(mesh);
      InverseIndicesRange(mesh);
      f := inverse[i];
    }
  }

  // ---------------------------------------------------------------------------
  // VariableParams

  /** The collocation points of the fault elements, in fault order. */
  function FaultPoints(mesh: seq<Element>): (r: seq<Vec>)
    ensures |r| == FaultCount(mesh)
  {
    seq(FaultCount(mesh), f requires 0 <= f < FaultCount(mesh) => mesh[FaultIndices(mesh)[f]].CollocationPoint())
  }

  /** The first loop of the VariableParams constructor: the fault collocation points in encounter order. */
  method CollectFaultPoints(mesh: seq<Element>) returns (points: array<Vec>)
    ensures fresh(points) && points[..] == FaultPoints(mesh)
  {
    var nf := NumFaultElements(mesh);
    points := new Vec[nf];
    var f := 0;
    for i := 0 to |mesh|
      invariant f == FaultCount(mesh[..i]) && f <= nf
      invariant forall g :: 0 <= g < f ==> points[g] == FaultPoints(mesh)[g]
    {
      var upTo := mesh[..i + 1];
      assert upTo[..i] == mesh[..i];
      if mesh[i].IsFault() {
        FaultPosition(mesh, i);
        points[f] := mesh[i].CollocationPoint();
        f := f + 1;
      }
    }
    assert mesh[..|mesh|] == mesh;
  }

  /** Position-dependent friction parameter a and pre-stress, sampled at the fault collocation points. */
  class VariableParams {
    ghost const mesh: seq<Element>
    const x: array<Vec>
    const a: array<real>
    const tauPre: array<real>

    ghost predicate Valid(aField: Vec -> real, tauField: Vec -> real)
      reads x, a, tauPre
    {
      x.Length == a.Length == tauPre.Length == FaultCount(mesh) &&
      x[..] == FaultPoints(mesh) &&
      (forall f :: 0 <= f < x.Length ==> a[f] == aField(x[f]) && tauPre[f] == tauField(x[f]))
    }

    /** Collects the collocation points in one pass, then evaluates both fields at them. */
    constructor (mesh: seq<Element>, aField: Vec -> real, tauField: Vec -> real)
      ensures this.mesh == mesh && Valid(aField, tauField)
      ensures fresh(x) && fresh(a) && fresh(tauPre)
    {
      var points := CollectFaultPoints(mesh);
      var nf := points.Length;
      var aValues := new real[nf];
      var tauValues := new real[nf];
      for g := 0 to nf
        invariant points[..] == FaultPoints(mesh)
        invariant forall h :: 0 <= h < g ==> aValues[h] == aField(points[h]) && tauValues[h] == tauField(points[h])
      {
        aValues[g] := aField(points[g]);
        tauValues[g] := tauField(points[g]);
      }
      this.mesh := mesh;
      this.x := points;
      this.a := aValues;
      this.tauPre := tauValues;
    }
  }

  // ---------------------------------------------------------------------------
  // Layout of the state vector

  /** y[::2]: the entries at even positions. */
  function Evens(y: seq<real>): (r: seq<real>)
    ensures |r| == (|y| + 1) / 2
    ensures forall k :: 0 <= k < |r| ==> r[k] == y[2 * k]
  {
    seq((|y| + 1) / 2, k requires 0 <= k < (|y| + 1) / 2 => y[2 * k])
  }

  /** y[1::2]: the entries at odd positions. */
  function Odds(y: seq<real>): (r: seq<real>)
    ensures |r| == |y| / 2
    ensures forall k :: 0 <= k < |r| ==> r[k] == y[2 * k + 1]
  {
    seq(|y| / 2, k requires 0 <= k < |y| / 2 => y[2 * k + 1])
  }

  /** [s_0, psi_0, s_1, psi_1, ...]. */
  function Interleave(s: seq<real>, psi: seq<real>): (r: seq<real>)
    requires |s| == |psi|
    ensures |r| == 2 * |s|
  {
    seq(2 * |s|, k requires 0 <= k < 2 * |s| => if k % 2 == 0 then s[k / 2] else psi[k / 2])
  }

  /** Slot 2f belongs to s_f and slot 2f + 1 to psi_f. */
  lemma InterleaveSlots(s: seq<real>, psi: seq<real>)
    requires |s| == |psi|
    ensures forall f :: 0 <= f < |s| ==> Interleave(s, psi)[2 * f] == s[f] && Interleave(s, psi)[2 * f + 1] == psi[f]
  {
    forall f | 0 <= f < |s|
      ensures Interleave(s, psi)[2 * f] == s[f] && Interleave(s, psi)[2 * f + 1] == psi[f]
    {
      assert (2 * f) / 2 == f && (2 * f) % 2 == 0;
      assert (2 * f + 1) / 2 == f && (2 * f + 1) % 2 == 1;
    }
  }

  /** Splitting an interleaved vector gives back both halves. */
  lemma SplitInterleave(s: seq<real>, psi: seq<real>)
    requires |s| == |psi|
    ensures Evens(Interleave(s, psi)) == s
    ensures Odds(Interleave(s, psi)) == psi
  {
    InterleaveSlots(s, psi);
  }

  /** An even-length vector is the interleaving of its even and odd entries. */
  lemma InterleaveSplit(y: seq<real>)
    requires |y| % 2 == 0
    ensures Interleave(Evens(y), Odds(y)) == y
  {
    var r := Interleave(Evens(y), Odds(y));
    forall k | 0 <= k < |y|
      ensures r[k] == y[k]
    {
      if k % 2 == 0 {
        assert r[k] == Evens(y)[k / 2];
      } else {
        assert r[k] == Odds(y)[k / 2];
      }
    }
  }

  // ---------------------------------------------------------------------------
  // Context, initial condition and right-hand side

  /**
    The constitutive parts of the model, left uninterpreted: the traction
    operator (time, on-fault displacement) |-> tau, the slip-rate solve
    (f, tau, psi) |-> V, the ageing law (f, V, psi) |-> psi' and the initial
    state f |-> psi0.
  */
  datatype Physics = Physics(
    traction: (real, seq<real>) -> seq<real>,
    slipRate: (nat, real, real) -> real,
    stateLaw: (nat, real, real) -> real,
    psi0: nat -> real)

  /** Everything the right-hand side needs: the two index maps and the physics. */
  class Context {
    const faultMap: FaultMap
    const inverseMap: IFaultMap
    const physics: Physics

    ghost predicate Valid()
      reads faultMap.mapping, inverseMap.inverse
    {
      faultMap.Valid() && inverseMap.Valid() && faultMap.mesh == inverseMap.mesh
    }

    constructor (mesh: seq<Element>, physics: Physics)
      ensures Valid() && faultMap.mesh == mesh && this.physics == physics
    {
      faultMap := new FaultMap(mesh);
      inverseMap := new IFaultMap(mesh);
      this.physics := physics;
    }
  }

  /** The initial state: displacement 0 and psi_f = psi0(f) for every fault element. */
  method Y0(ctx: Context) returns (y: array<real>)
    requires ctx.Valid()
    ensures fresh(y)
    ensures y.Length == 2 * FaultCount(ctx.faultMap.mesh)
    ensures Evens(y[..]) == seq(ctx.faultMap.nf, _ => 0.0)
    ensures Odds(y[..]) == seq(ctx.faultMap.nf, f requires 0 <= f => ctx.physics.psi0(f))
  {
    var nf := ctx.faultMap.nf;
    y := new real[2 * nf](_ => 0.0);
    for f := 0 to nf
      invariant forall k :: 0 <= k < 2 * nf ==>
        y[k] == if k % 2 == 1 && k / 2 < f then ctx.physics.psi0(k / 2) else 0.0
    {
      y[2 * f + 1] := ctx.physics.psi0(f);
    }
  }

  /** What the callback receives: (t, S, V, psi, tau). */
  datatype Observation = Observation(t: real, s: seq<real>, v: seq<real>, psi: seq<real>, tau: seq<real>)

  /** The slip rate V_f = slipRate(f, tau_f, psi_f) of every fault element, psi_f read from slot 2f + 1. */
  function SlipRates(physics: Physics, tau: seq<real>, y: seq<real>): (v: seq<real>)
    requires |tau| >= |y| / 2
    ensures |v| == |y| / 2
    ensures forall f :: 0 <= f < |v| ==> v[f] == physics.slipRate(f, tau[f], y[2 * f + 1])
  {
    seq(|y| / 2, f requires 0 <= f < |y| / 2 => physics.slipRate(f, tau[f], y[2 * f + 1]))
  }

  /** The state derivative stateLaw(f, V_f, psi_f) of every fault element. */
  function StateRates(physics: Physics, v: seq<real>, y: seq<real>): (r: seq<real>)
    requires |v| == |y| / 2
    ensures |r| == |v|
    ensures forall f :: 0 <= f < |r| ==> r[f] == physics.stateLaw(f, v[f], y[2 * f + 1])
  {
    seq(|v|, f requires 0 <= f < |v| => physics.stateLaw(f, v[f], y[2 * f + 1]))
  }

  /**
    The right-hand side on the first 2 * (|y| / 2) slots: slip rate and state
    derivative of every fault element, interleaved.
  */
  function Rhs(physics: Physics, t: real, y: seq<real>): (r: seq<real>)
    requires |physics.traction(t, Evens(y))| >= |y| / 2
    ensures |r| == 2 * (|y| / 2)
  {
    var v := SlipRates(physics, physics.traction(t, Evens(y)), y);
    Interleave(v, StateRates(physics, v, y))
  }

  /** Slot 2f of the right-hand side is the slip rate and slot 2f + 1 the state law at that rate. */
  lemma RhsSlots(physics: Physics, t: real, y: seq<real>, f: nat)
    requires |physics.traction(t, Evens(y))| >= |y| / 2 && f < |y| / 2
    ensures Rhs(physics, t, y)[2 * f] == physics.slipRate(f, physics.traction(t, Evens(y))[f], y[2 * f + 1])
    ensures Rhs(physics, t, y)[2 * f + 1] == physics.stateLaw(f, Rhs(physics, t, y)[2 * f], y[2 * f + 1])
  {
    var v := SlipRates(physics, physics.traction(t, Evens(y)), y);
    InterleaveSlots(v, StateRates(physics, v, y));
  }

  /** The loop of F: fills slot 2f with the slip rate and slot 2f + 1 with the state derivative. */
  method EvaluateRhs(physics: Physics, t: real, y: array<real>, tau: seq<real>) returns (fy: array<real>)
    requires tau == physics.traction(t, Evens(y[..])) && |tau| >= y.Length / 2
    ensures fresh(fy) && fy.Length == y.Length
    ensures fy[..2 * (y.Length / 2)] == Rhs(physics, t, y[..])
  {
    ghost var ys := y[..];
    var nf := y.Length / 2;
    fy := new real[y.Length];
    ghost var rhs := Rhs(physics, t, ys);
    for f := 0 to nf
      invariant fy[..2 * f] == rhs[..2 * f]
    {
      RhsSlots(physics, t, ys, f);
      var psi := y[2 * f + 1];
      var v := physics.slipRate(f, tau[f], psi);
      fy[2 * f] := v;
      fy[2 * f + 1] := physics.stateLaw(f, v, psi);
      assert fy[..2 * f + 2] == fy[..2 * f] + [fy[2 * f], fy[2 * f + 1]];
      assert rhs[..2 * f + 2] == rhs[..2 * f] + [rhs[2 * f], rhs[2 * f + 1]];
    }
    assert rhs[..2 * nf] == rhs;
  }

  /**
    F(t, y, ctx, callback): evaluates the right-hand side slot by slot.  A
    callback, when present, observes the time, the displacements, the slip
    rates, the states and the traction; the result does not depend on it.
    The callback is modelled as an observer that receives copies: a callback
    that wrote into the slices it is handed would change the result, and the
    model does not admit one.  For odd |y| the last slot of the result is
    left unset, as in the source.
  */
  method F(t: real, y: array<real>, ctx: Context, withCallback: bool) returns (fy: array<real>, observed: Option<Observation>)
    requires |ctx.physics.traction(t, Evens(y[..]))| >= y.Length / 2
    ensures fresh(fy) && fy.Length == y.Length
    ensures fy[..2 * (y.Length / 2)] == Rhs(ctx.physics, t, y[..])
    ensures observed == if withCallback
      then Some(Observation(t, Evens(y[..]), Evens(fy[..]), Odds(y[..]), ctx.physics.traction(t, Evens(y[..]))))
      else None
  {
    var tau := ctx.physics.traction(t, Evens(y[..]));
    fy := EvaluateRhs(ctx.physics, t, y, tau);
    if withCallback {
      observed := Some(Observation(t, Evens(y[..]), Evens(fy[..]), Odds(y[..]), tau));
    } else {
      observed := None;
    }
  }
}
