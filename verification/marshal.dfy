/**
 * Marshalling between the caller's flat arrays and body records in the two
 * C entry points FMM_Partition and FMM_FMM, including their capacity-guarded
 * write-back.  The periodic `wrap`/`unwrap` and everything the tree engine
 * does between packing and write-back are parameters.
 */
module Marshal {
  import opened BodyIndex
  import opened Bodies
  import Halo

  /** What `wrap(X, cycles)` leaves in X and returns. */
  datatype Wrapped = Wrapped(X: Vec3, iwrap: WrapCode)

  /** `wrap(X, cycles)`: fold a position into the primary period. */
  type WrapFn = (Vec3, Vec3) -> Wrapped

  /** `unwrap(X, cycles, iwrap)`: undo a fold with the stored code. */
  type UnwrapFn = (Vec3, Vec3, WrapCode) -> Vec3

  /** `unwrap` undoes `wrap` for the given period. */
  ghost predicate UnwrapInverts(wrap: WrapFn, unwrap: UnwrapFn, cycles: Vec3)
  {
    forall X: Vec3 {:trigger wrap(X, cycles)} :: unwrap(wrap(X, cycles).X, cycles, wrap(X, cycles).iwrap) == X
  }

  /** Largest value of a C int: the count and the ordinals are C ints. */
  const IntMax: int := 0x7FFF_FFFF

  // ---------------------------------------------------------------------------
  // FMM_Partition

  /** The arrays FMM_Partition reads and writes: `res_index`, `x`, `q`, `v`. */
  datatype PartitionArrays = PartitionArrays(resIndex: seq<int>, x: seq<real>, q: seq<real>, v: seq<real>)

  /** The arrays hold at least `n` bodies. */
  predicate Holds(a: PartitionArrays, n: int)
  {
    0 <= n && |a.resIndex| >= n && |a.q| >= n && |a.x| >= 3 * n && |a.v| >= 3 * n
  }

  /** Body `i` as FMM_Partition builds it; the fourth target component keeps
      its initial zero. */
  function PartitionBody(a: PartitionArrays, i: int, cycles: Vec3, wrap: WrapFn): Body
    requires 0 <= i <= IntMax && Holds(a, i + 1)
  {
    var w := wrap(Slice3(a.x, i), cycles);
    Body(w.X, a.q[i], Slice3(a.v, i) + [0.0], Encode(i as bv32, w.iwrap), a.resIndex[i])
  }

  /** The packing loop of FMM_Partition over the first `n` = `*ni` entries:
      body i holds slot i's wrapped position, charge, velocity and cell, and
      its IBODY decodes to ordinal i and the wrap code. */
  function PackPartition(a: PartitionArrays, n: int, cycles: Vec3, wrap: WrapFn): (bodies: seq<Body>)
    requires Holds(a, n) && n <= IntMax + 1
    ensures |bodies| == n
    ensures forall i | 0 <= i < n ::
              var w := wrap(Slice3(a.x, i), cycles);
              && bodies[i].X == w.X && bodies[i].SRC == a.q[i] && bodies[i].ICELL == a.resIndex[i]
              && bodies[i].TRG == Slice3(a.v, i) + [0.0]
              && (i < IndexLimit ==> DecodeIndex(bodies[i].IBODY) == i as bv32 && DecodeWrap(bodies[i].IBODY) == w.iwrap)
  {
    var bodies := seq(n, i requires 0 <= i < n => PartitionBody(a, i, cycles, wrap));
    forall i | 0 <= i < n && i < IndexLimit
      ensures DecodeIndex(bodies[i].IBODY) == i as bv32
      ensures DecodeWrap(bodies[i].IBODY) == wrap(Slice3(a.x, i), cycles).iwrap
    {
      DecodeEncodeOrdinal(i, wrap(Slice3(a.x, i), cycles).iwrap);
    }
    bodies
  }

  /** The result of FMM_Partition: the new `*ni` and the caller's arrays. */
  datatype PartitionResult = PartitionResult(ni: int, arrays: PartitionArrays)

  /** A body's position restored to its unwrapped value with the code stored in IBODY. */
  function Unwrapped(b: Body, cycles: Vec3, unwrap: UnwrapFn): Vec3
  {
    unwrap(b.X, cycles, DecodeWrap(b.IBODY))
  }

  /** Slot `i` of `r` holds body `b`: its cell, its charge, its position
      unwrapped with the code in its IBODY, and its velocity. */
  predicate SlotHolds(r: PartitionArrays, i: int, b: Body, cycles: Vec3, unwrap: UnwrapFn)
  {
    && 0 <= i && Holds(r, i + 1)
    && r.resIndex[i] == b.ICELL && r.q[i] == b.SRC
    && Slice3(r.x, i) == Unwrapped(b, cycles, unwrap) && Slice3(r.v, i) == b.TRG[..3]
  }

  /** The write-back loop of FMM_Partition: `*ni` becomes the body count, and
      the arrays are rewritten only when that count is below `nimax`. */
  function WriteBackPartition(a: PartitionArrays, nimax: int, bodies: seq<Body>, cycles: Vec3, unwrap: UnwrapFn)
    : (r: PartitionResult)
    requires |bodies| < nimax ==> Holds(a, |bodies|)
    ensures r.ni == |bodies|
    ensures |bodies| >= nimax ==> r.arrays == a
    ensures |bodies| < nimax ==>
              && |r.arrays.resIndex| == |a.resIndex| && |r.arrays.q| == |a.q|
              && |r.arrays.x| == |a.x| && |r.arrays.v| == |a.v|
              && (forall i | 0 <= i < |bodies| :: SlotHolds(r.arrays, i, bodies[i], cycles, unwrap))
              && r.arrays.resIndex[|bodies|..] == a.resIndex[|bodies|..]
              && r.arrays.q[|bodies|..] == a.q[|bodies|..]
              && r.arrays.x[3 * |bodies|..] == a.x[3 * |bodies|..]
              && r.arrays.v[3 * |bodies|..] == a.v[3 * |bodies|..]
  {
    var n := |bodies|;
    if n < nimax then
      PartitionResult(n, PartitionArrays(
        WritePrefix(a.resIndex, seq(n, i requires 0 <= i < n => bodies[i].ICELL)),
        WriteRecords(a.x, seq(n, i requires 0 <= i < n => Unwrapped(bodies[i], cycles, unwrap))),
        WritePrefix(a.q, seq(n, i requires 0 <= i < n => bodies[i].SRC)),
        WriteRecords(a.v, seq(n, i requires 0 <= i < n => bodies[i].TRG[..3]))))
    else
      PartitionResult(n, a)
  }

  /** FMM_Partition with the bounding-box, octsection, body exchange and tree
      build folded into `exchange`, which hands back this rank's new bodies. */
  function Partition(a: PartitionArrays, ni: int, nimax: int, cycles: Vec3,
                     wrap: WrapFn, unwrap: UnwrapFn, exchange: seq<Body> -> seq<Body>): (r: PartitionResult)
    requires Holds(a, ni) && ni <= IntMax
    requires |exchange(PackPartition(a, ni, cycles, wrap))| < nimax ==>
               Holds(a, |exchange(PackPartition(a, ni, cycles, wrap))|)
    ensures r.ni == |exchange(PackPartition(a, ni, cycles, wrap))|
    ensures r.ni >= nimax ==> r.arrays == a
    ensures var bodies := exchange(PackPartition(a, ni, cycles, wrap));
            r.ni < nimax ==>
              && |r.arrays.resIndex| == |a.resIndex| && |r.arrays.q| == |a.q|
              && |r.arrays.x| == |a.x| && |r.arrays.v| == |a.v|
              && (forall i | 0 <= i < r.ni :: SlotHolds(r.arrays, i, bodies[i], cycles, unwrap))
              && r.arrays.resIndex[r.ni..] == a.resIndex[r.ni..]
              && r.arrays.q[r.ni..] == a.q[r.ni..]
              && r.arrays.x[3 * r.ni..] == a.x[3 * r.ni..]
              && r.arrays.v[3 * r.ni..] == a.v[3 * r.ni..]
  {
    WriteBackPartition(a, nimax, exchange(PackPartition(a, ni, cycles, wrap)), cycles, unwrap)
  }

  /** Packing followed by write-back, with the bodies still in place, gives the
      caller's arrays back unchanged: every field is restored where it came from. */
  lemma PartitionRoundTrip(a: PartitionArrays, n: int, nimax: int, cycles: Vec3, wrap: WrapFn, unwrap: UnwrapFn)
    requires Holds(a, n) && n <= IndexLimit && n < nimax
    requires UnwrapInverts(wrap, unwrap, cycles)
    ensures WriteBackPartition(a, nimax, PackPartition(a, n, cycles, wrap), cycles, unwrap) == PartitionResult(n, a)
  {
    var bodies := PackPartition(a, n, cycles, wrap);
    var r := WriteBackPartition(a, nimax, bodies, cycles, unwrap);
    forall i | 0 <= i < n
      ensures r.arrays.resIndex[i] == a.resIndex[i] && r.arrays.q[i] == a.q[i]
      ensures Slice3(r.arrays.x, i) == Slice3(a.x, i) && Slice3(r.arrays.v, i) == Slice3(a.v, i)
    {
      PackedBodyCarriesSlot(a, n, cycles, wrap, unwrap, i);
      SameBodySameSlot(r.arrays, i, a, i, bodies[i], cycles, unwrap);
    }
    SameStrided(r.arrays.x, a.x, n);
    SameStrided(r.arrays.v, a.v, n);
    assert r.arrays.resIndex == r.arrays.resIndex[..n] + r.arrays.resIndex[n..];
    assert a.resIndex == a.resIndex[..n] + a.resIndex[n..];
    assert r.arrays.q == r.arrays.q[..n] + r.arrays.q[n..];
    assert a.q == a.q[..n] + a.q[n..];
  }

  /** Two stride-3 arrays of equal length that agree on the first `n` records
      and on everything after them are equal. */
  lemma SameStrided(s: seq<real>, t: seq<real>, n: int)
    requires 0 <= n && 3 * n <= |s| == |t|
    requires forall i | 0 <= i < n :: Slice3(s, i) == Slice3(t, i)
    requires s[3 * n..] == t[3 * n..]
    ensures s == t
  {
    forall j | 0 <= j < |s|
      ensures s[j] == t[j]
    {
      if j < 3 * n {
        assert Slice3(s, j / 3)[j % 3] == Slice3(t, j / 3)[j % 3];
      } else {
        assert s[3 * n..][j - 3 * n] == t[3 * n..][j - 3 * n];
      }
    }
  }

  /** Packed body `k` carries slot `k`: its ordinal bits name the slot, and
      its cell, charge, unwrapped position and velocity are the slot's. */
  lemma PackedBodyCarriesSlot(a: PartitionArrays, n: int, cycles: Vec3, wrap: WrapFn, unwrap: UnwrapFn, k: int)
    requires Holds(a, n) && n <= IndexLimit && 0 <= k < n
    requires UnwrapInverts(wrap, unwrap, cycles)
    ensures var b := PackPartition(a, n, cycles, wrap)[k];
            DecodeIndex(b.IBODY) == k as bv32 && SlotHolds(a, k, b, cycles, unwrap)
  {
    var w := wrap(Slice3(a.x, k), cycles);
    DecodeEncodeOrdinal(k, w.iwrap);
    assert PackPartition(a, n, cycles, wrap)[k].TRG[..3] == Slice3(a.v, k);
  }

  /** Slot `i` of `r` holds the cell, charge, position and velocity of slot
      `k` of `a`. */
  predicate CarriesSlot(r: PartitionArrays, i: int, a: PartitionArrays, k: int)
  {
    && 0 <= i && Holds(r, i + 1) && 0 <= k && Holds(a, k + 1)
    && r.resIndex[i] == a.resIndex[k] && r.q[i] == a.q[k]
    && Slice3(r.x, i) == Slice3(a.x, k) && Slice3(r.v, i) == Slice3(a.v, k)
  }

  /** Two slots that hold the same body carry the same fields. */
  lemma SameBodySameSlot(r: PartitionArrays, i: int, a: PartitionArrays, k: int, b: Body, cycles: Vec3, unwrap: UnwrapFn)
    requires SlotHolds(r, i, b, cycles, unwrap) && SlotHolds(a, k, b, cycles, unwrap)
    ensures CarriesSlot(r, i, a, k)
  {
  }

  /** Slot `i` of `r` carries the slot of `a` that the ordinal bits of `b`'s
      IBODY name, one of the first `n`. */
  predicate TracksOrdinal(r: PartitionArrays, i: int, b: Body, a: PartitionArrays, n: int)
    requires n <= IndexLimit
  {
    exists k | 0 <= k < n :: DecodeIndex(b.IBODY) == k as bv32 && CarriesSlot(r, i, a, k)
  }

  /** When the exchange only moved this rank's own packed bodies around, each
      written slot carries the fields of the caller's slot named by the ordinal
      bits of its IBODY. */
  lemma PartitionWriteBackTracksOrdinal(a: PartitionArrays, n: int, nimax: int, cycles: Vec3,
                                        wrap: WrapFn, unwrap: UnwrapFn, bodies: seq<Body>)
    requires Holds(a, n) && n <= IndexLimit
    requires |bodies| < nimax && Holds(a, |bodies|)
    requires forall i | 0 <= i < |bodies| :: bodies[i] in PackPartition(a, n, cycles, wrap)
    requires UnwrapInverts(wrap, unwrap, cycles)
    ensures forall i | 0 <= i < |bodies| ::
              TracksOrdinal(WriteBackPartition(a, nimax, bodies, cycles, unwrap).arrays, i, bodies[i], a, n)
  {
    forall i | 0 <= i < |bodies|
      ensures TracksOrdinal(WriteBackPartition(a, nimax, bodies, cycles, unwrap).arrays, i, bodies[i], a, n)
    {
      var k := WrittenSlotTracksOrdinal(a, n, nimax, cycles, wrap, unwrap, bodies, i);
    }
  }

  /** Slot `i` written back from one of the packed bodies carries the slot its
      ordinal bits name. */
  lemma WrittenSlotTracksOrdinal(a: PartitionArrays, n: int, nimax: int, cycles: Vec3,
                                 wrap: WrapFn, unwrap: UnwrapFn, bodies: seq<Body>, i: int)
    returns (k: int)
    requires Holds(a, n) && n <= IndexLimit
    requires |bodies| < nimax && Holds(a, |bodies|) && 0 <= i < |bodies|
    requires bodies[i] in PackPartition(a, n, cycles, wrap)
    requires UnwrapInverts(wrap, unwrap, cycles)
    ensures 0 <= k < n && DecodeIndex(bodies[i].IBODY) == k as bv32
    ensures CarriesSlot(WriteBackPartition(a, nimax, bodies, cycles, unwrap).arrays, i, a, k)
  {
    var packed := PackPartition(a, n, cycles, wrap);
    k :| 0 <= k < n && bodies[i] == packed[k];
    PackedBodyCarriesSlot(a, n, cycles, wrap, unwrap, k);
    assert bodies[i].IBODY == packed[k].IBODY;
    SameBodySameSlot(WriteBackPartition(a, nimax, bodies, cycles, unwrap).arrays, i, a, k, bodies[i], cycles, unwrap);
  }

  // ---------------------------------------------------------------------------
  // FMM_FMM

  /** The arrays FMM_FMM reads and writes: `res_index`, `x`, `q`, `p`, `f`. */
  datatype FmmArrays = FmmArrays(resIndex: seq<int>, x: seq<real>, q: seq<real>, p: seq<real>, f: seq<real>)

  /** The arrays hold at least `n` bodies. */
  predicate HoldsFmm(a: FmmArrays, n: int)
  {
    0 <= n && |a.resIndex| >= n && |a.q| >= n && |a.p| >= n && |a.x| >= 3 * n && |a.f| >= 3 * n
  }

  /** Body `i` as FMM_FMM builds it: the position is wrapped twice and the
      code kept in IBODY is the one the second call returns. */
  function FmmBody(a: FmmArrays, i: int, cycles: Vec3, wrap: WrapFn): Body
    requires 0 <= i <= IntMax && HoldsFmm(a, i + 1)
  {
    var first := wrap(Slice3(a.x, i), cycles);
    var second := wrap(first.X, cycles);
    Body(second.X, a.q[i], [a.p[i]] + Slice3(a.f, i), Encode(i as bv32, second.iwrap), a.resIndex[i])
  }

  /** The packing loop of FMM_FMM over the first `ni` entries: body i holds
      slot i's position wrapped twice, its charge and cell, the target
      `(p[i], f[3i..3i+3])`, and an IBODY that decodes to ordinal i and the
      code of the second wrap. */
  function PackFmm(a: FmmArrays, ni: int, cycles: Vec3, wrap: WrapFn): (bodies: seq<Body>)
    requires HoldsFmm(a, ni) && ni <= IntMax + 1
    ensures |bodies| == ni
    ensures forall i | 0 <= i < ni ::
              var second := wrap(wrap(Slice3(a.x, i), cycles).X, cycles);
              && bodies[i].X == second.X && bodies[i].SRC == a.q[i] && bodies[i].ICELL == a.resIndex[i]
              && bodies[i].TRG == [a.p[i]] + Slice3(a.f, i)
              && (i < IndexLimit ==> DecodeIndex(bodies[i].IBODY) == i as bv32 && DecodeWrap(bodies[i].IBODY) == second.iwrap)
  {
    var bodies := seq(ni, i requires 0 <= i < ni => FmmBody(a, i, cycles, wrap));
    forall i | 0 <= i < ni && i < IndexLimit
      ensures DecodeIndex(bodies[i].IBODY) == i as bv32
      ensures DecodeWrap(bodies[i].IBODY) == wrap(wrap(Slice3(a.x, i), cycles).X, cycles).iwrap
    {
      DecodeEncodeOrdinal(i, wrap(wrap(Slice3(a.x, i), cycles).X, cycles).iwrap);
    }
    bodies
  }

  /** `p` and `f` hold the potential and field of each of `bodies` in its
      slot and record, and the entries of `p0` and `f0` after them. */
  predicate TargetsWritten(p0: seq<real>, f0: seq<real>, p: seq<real>, f: seq<real>, bodies: seq<Body>)
  {
    && |p| == |p0| && |f| == |f0| && |bodies| <= |p| && 3 * |bodies| <= |f|
    && (forall i | 0 <= i < |bodies| :: p[i] == bodies[i].TRG[0] && Slice3(f, i) == bodies[i].TRG[1..])
    && p[|bodies|..] == p0[|bodies|..] && f[3 * |bodies|..] == f0[3 * |bodies|..]
  }

  /** The first write-back loop of FMM_FMM: potential into `p`, field into `f`,
      for every local body; no capacity test. */
  function WriteTargets(a: FmmArrays, bodies: seq<Body>): (r: FmmArrays)
    requires HoldsFmm(a, |bodies|)
    ensures r.resIndex == a.resIndex && r.x == a.x && r.q == a.q
    ensures TargetsWritten(a.p, a.f, r.p, r.f, bodies)
  {
    var n := |bodies|;
    a.(p := WritePrefix(a.p, seq(n, i requires 0 <= i < n => bodies[i].TRG[0])),
       f := WriteRecords(a.f, seq(n, i requires 0 <= i < n => bodies[i].TRG[1..])))
  }

  /** Room for the ghosts after the `ni` local bodies. */
  predicate HoldsGhosts(a: FmmArrays, ni: int, count: int)
  {
    0 <= ni && 0 <= count && |a.resIndex| >= ni + count && |a.q| >= ni + count && |a.x| >= 3 * (ni + count)
  }

  /** `resIndex`, `x` and `q` hold ghost `k` in slot `n + k`, and the entries
      of `resIndex0`, `x0` and `q0` before slot `n` and after the ghosts. */
  predicate GhostsPlaced(resIndex0: seq<int>, x0: seq<real>, q0: seq<real>,
                         resIndex: seq<int>, x: seq<real>, q: seq<real>, n: int, ghosts: seq<Body>)
  {
    && |resIndex| == |resIndex0| && |q| == |q0| && |x| == |x0|
    && 0 <= n && n + |ghosts| <= |resIndex| && n + |ghosts| <= |q| && 3 * (n + |ghosts|) <= |x|
    && (forall k | 0 <= k < |ghosts| ::
          && resIndex[n + k] == ghosts[k].ICELL
          && q[n + k] == ghosts[k].SRC
          && Slice3(x, n + k) == ghosts[k].X)
    && resIndex[..n] == resIndex0[..n] && resIndex[n + |ghosts|..] == resIndex0[n + |ghosts|..]
    && q[..n] == q0[..n] && q[n + |ghosts|..] == q0[n + |ghosts|..]
    && x[..3 * n] == x0[..3 * n] && x[3 * (n + |ghosts|)..] == x0[3 * (n + |ghosts|)..]
  }

  /** The result of FMM_FMM: the new `*nj` and the caller's arrays. */
  datatype FmmResult = FmmResult(nj: int, arrays: FmmArrays)

  /** Ghost `k` written to slot `ni + k` of `res_index`, `x` and `q`. */
  function PlaceGhosts(a: FmmArrays, ni: int, ghosts: seq<Body>): (r: FmmArrays)
    requires HoldsGhosts(a, ni, |ghosts|)
    ensures r.p == a.p && r.f == a.f
    ensures GhostsPlaced(a.resIndex, a.x, a.q, r.resIndex, r.x, r.q, ni, ghosts)
  {
    FmmArrays(Splice(a.resIndex, ni, Tags(ghosts)), SpliceRecords(a.x, ni, Positions(ghosts)),
              Splice(a.q, ni, Sources(ghosts)), a.p, a.f)
  }

  function Tags(bodies: seq<Body>): (r: seq<int>)
    ensures |r| == |bodies| && forall k | 0 <= k < |bodies| :: r[k] == bodies[k].ICELL
  {
    seq(|bodies|, k requires 0 <= k < |bodies| => bodies[k].ICELL)
  }

  function Positions(bodies: seq<Body>): (r: seq<Vec3>)
    ensures |r| == |bodies| && forall k | 0 <= k < |bodies| :: r[k] == bodies[k].X
  {
    seq(|bodies|, k requires 0 <= k < |bodies| => bodies[k].X)
  }

  function Sources(bodies: seq<Body>): (r: seq<real>)
    ensures |r| == |bodies| && forall k | 0 <= k < |bodies| :: r[k] == bodies[k].SRC
  {
    seq(|bodies|, k requires 0 <= k < |bodies| => bodies[k].SRC)
  }

  /** The last write-back of FMM_FMM: `*nj` becomes `ni` plus the ghost count,
      and ghost `k` goes to slot `ni + k` only when that total is below the
      incoming `*nj`; otherwise the arrays are left alone. */
  function WriteGhosts(a: FmmArrays, ni: int, njmax: int, ghosts: seq<Body>): (r: FmmResult)
    requires 0 <= ni
    requires ni + |ghosts| < njmax ==> HoldsGhosts(a, ni, |ghosts|)
    ensures r.nj == ni + |ghosts|
    ensures r.nj >= njmax ==> r.arrays == a
    ensures r.nj < njmax ==>
              && r.arrays.p == a.p && r.arrays.f == a.f
              && GhostsPlaced(a.resIndex, a.x, a.q, r.arrays.resIndex, r.arrays.x, r.arrays.q, ni, ghosts)
  {
    if ni + |ghosts| < njmax then FmmResult(ni + |ghosts|, PlaceGhosts(a, ni, ghosts))
    else FmmResult(ni + |ghosts|, a)
  }

  /** FMM_FMM with the tree build, both passes, the LET exchange and the
      traversals folded into `evaluate`, which returns the local bodies with
      their targets filled in, and with `received` the bodies other ranks sent. */
  function Fmm(a: FmmArrays, ni: int, njmax: int, cycles: Vec3, cutoff: real, wrap: WrapFn,
               evaluate: seq<Body> -> seq<Body>, received: seq<Body>): (r: FmmResult)
    requires HoldsFmm(a, ni) && ni <= IntMax
    requires |evaluate(PackFmm(a, ni, cycles, wrap))| == ni
    requires var ghosts := Halo.Ghosts(evaluate(PackFmm(a, ni, cycles, wrap)) + received, cycles, cutoff);
             ni + |ghosts| < njmax ==> HoldsGhosts(a, ni, |ghosts|)
    ensures var local := evaluate(PackFmm(a, ni, cycles, wrap));
            var ghosts := Halo.Ghosts(local + received, cycles, cutoff);
            && r.nj == ni + |ghosts|
            && TargetsWritten(a.p, a.f, r.arrays.p, r.arrays.f, local)
            && (r.nj >= njmax ==> r.arrays.resIndex == a.resIndex && r.arrays.x == a.x && r.arrays.q == a.q)
            && (r.nj < njmax ==> GhostsPlaced(a.resIndex, a.x, a.q, r.arrays.resIndex, r.arrays.x, r.arrays.q, ni, ghosts))
  {
    var local := evaluate(PackFmm(a, ni, cycles, wrap));
    // Candidates for ghosts: the local bodies first, then the received ones.
    var ghosts := Halo.Ghosts(local + received, cycles, cutoff);
    WriteGhosts(WriteTargets(a, local), ni, njmax, ghosts)
  }

  /** With no interactions (the evaluation hands the packed bodies back), the
      potential and field arrays come back unchanged. */
  lemma FmmTargetsRoundTrip(a: FmmArrays, ni: int, cycles: Vec3, wrap: WrapFn)
    requires HoldsFmm(a, ni) && ni <= IntMax
    ensures var r := WriteTargets(a, PackFmm(a, ni, cycles, wrap));
            r.p == a.p && r.f == a.f
  {
    var bodies := PackFmm(a, ni, cycles, wrap);
    var r := WriteTargets(a, bodies);
    forall i | 0 <= i < ni
      ensures r.p[i] == a.p[i] && Slice3(r.f, i) == Slice3(a.f, i)
    {
      assert bodies[i].TRG[1..] == Slice3(a.f, i);
    }
    SameStrided(r.f, a.f, ni);
    assert r.p == r.p[..ni] + r.p[ni..];
    assert a.p == a.p[..ni] + a.p[ni..];
  }

  /** With no interactions (the evaluation hands the packed bodies back) and no
      room for the ghosts, FMM_FMM leaves every array as it was. */
  lemma FmmWithoutInteractionOrRoom(a: FmmArrays, ni: int, njmax: int, cycles: Vec3, cutoff: real, wrap: WrapFn,
                                    evaluate: seq<Body> -> seq<Body>, received: seq<Body>)
    requires HoldsFmm(a, ni) && ni <= IntMax
    requires evaluate(PackFmm(a, ni, cycles, wrap)) == PackFmm(a, ni, cycles, wrap)
    requires ni + |Halo.Ghosts(PackFmm(a, ni, cycles, wrap) + received, cycles, cutoff)| >= njmax
    ensures Fmm(a, ni, njmax, cycles, cutoff, wrap, evaluate, received).arrays == a
  {
    FmmTargetsRoundTrip(a, ni, cycles, wrap);
  }
}
