/**
 * Periodic ghost ("halo") generation at the end of FMM_FMM: for each of the
 * 26 neighbouring images, the candidate bodies lying in the slab next to the
 * opposite face are copied and translated by one domain period.
 */
module Halo {
  import opened Bodies

  /** An image offset iX. */
  type Offset = s: seq<int> | |s| == 3 witness [0, 0, 0]

  predicate IsUnit(o: Offset)
  {
    forall d | 0 <= d < 3 :: -1 <= o[d] <= 1
  }

  /** `norm(iX)`: the squared length of the offset. */
  function Norm(o: Offset): int
  {
    o[0] * o[0] + o[1] * o[1] + o[2] * o[2]
  }

  /** The offset visited at step `k` of the 3x3x3 loop nest (x outermost, z innermost). */
  function Step(k: int): (o: Offset)
    requires 0 <= k < 27
    ensures IsUnit(o)
  {
    var x := if k < 9 then -1 else if k < 18 then 0 else 1;
    var rest := k - 9 * (x + 1);
    var y := if rest < 3 then -1 else if rest < 6 then 0 else 1;
    [x, y, rest - 3 * (y + 1) - 1]
  }

  /** The position of offset `o` in the loop nest. */
  function StepOf(o: Offset): int
  {
    9 * (o[0] + 1) + 3 * (o[1] + 1) + (o[2] + 1)
  }

  lemma StepOfStep(k: int)
    requires 0 <= k < 27
    ensures StepOf(Step(k)) == k
  {
  }

  lemma StepStepOf(o: Offset)
    requires IsUnit(o)
    ensures 0 <= StepOf(o) < 27 && Step(StepOf(o)) == o
  {
  }

  /** For a unit offset, a zero norm means the central (non-image) cell, which sits at step 13. */
  lemma NormZeroIsOrigin(o: Offset)
    requires IsUnit(o)
    ensures Norm(o) == 0 <==> StepOf(o) == 13
  {
  }

  /** Strict lexicographic order on offsets. */
  predicate LexLess(a: Offset, b: Offset)
  {
    a[0] < b[0] || (a[0] == b[0] && (a[1] < b[1] || (a[1] == b[1] && a[2] < b[2])))
  }

  /** The k-th image offset: step k of the loop nest, with the origin skipped. */
  function Neighbour(k: int): Offset
    requires 0 <= k < 26
  {
    Step(if k < 13 then k else k + 1)
  }

  /** The 26 image offsets, in the order the loop nest reaches them: exactly
      the unit offsets other than the origin, each once, in increasing
      lexicographic order. */
  function Offsets(): (os: seq<Offset>)
    ensures |os| == 26
    ensures forall k | 0 <= k < 26 :: IsUnit(os[k]) && os[k] != [0, 0, 0]
    ensures forall o: Offset | IsUnit(o) && o != [0, 0, 0] :: o in os
    ensures forall i, j | 0 <= i < j < 26 :: LexLess(os[i], os[j])
  {
    var os := NeighboursFrom(0);
    forall k | 0 <= k < 26
      ensures IsUnit(os[k]) && os[k] != [0, 0, 0]
    {
      NeighbourIsImage(k);
    }
    forall o: Offset | IsUnit(o) && o != [0, 0, 0]
      ensures o in os
    {
      var k := ImageIsNeighbour(o);
      assert os[k] == o;
    }
    forall i, j | 0 <= i < j < 26
      ensures LexLess(os[i], os[j])
    {
      NeighboursAscend(i, j);
    }
    os
  }

  function NeighboursFrom(k: int): (os: seq<Offset>)
    requires 0 <= k <= 26
    ensures |os| == 26 - k
    ensures forall j | 0 <= j < |os| :: os[j] == Neighbour(k + j)
    decreases 26 - k
  {
    if k == 26 then [] else [Neighbour(k)] + NeighboursFrom(k + 1)
  }

  /** Every image offset is a unit offset other than the origin. */
  lemma NeighbourIsImage(k: int)
    requires 0 <= k < 26
    ensures IsUnit(Neighbour(k)) && Neighbour(k) != [0, 0, 0]
  {
    var step := if k < 13 then k else k + 1;
    StepOfStep(step);
    assert StepOf([0, 0, 0]) == 13;
  }

  /** Every unit offset other than the origin is an image offset. */
  lemma ImageIsNeighbour(o: Offset) returns (k: int)
    requires IsUnit(o) && o != [0, 0, 0]
    ensures 0 <= k < 26 && Neighbour(k) == o
  {
    var step := StepOf(o);
    StepStepOf(o);
    assert Step(13) == [0, 0, 0];
    assert step != 13;
    k := if step < 13 then step else step - 1;
  }

  /** The image offsets come in strictly increasing lexicographic order. */
  lemma NeighboursAscend(i: int, j: int)
    requires 0 <= i < j < 26
    ensures LexLess(Neighbour(i), Neighbour(j))
  {
    StepOfStep(if i < 13 then i else i + 1);
    StepOfStep(if j < 13 then j else j + 1);
  }

  /** A periodic domain with a positive length on every axis. */
  predicate PositivePeriod(cycles: Vec3)
  {
    cycles[0] > 0.0 && cycles[1] > 0.0 && cycles[2] > 0.0
  }

  /** Lower bound of the selection box on one axis for offset component `s`. */
  function Lower(c: real, cutoff: real, s: int): real
  {
    if s == -1 then c * 0.5 - cutoff else -c * 0.5
  }

  /** Upper bound of the selection box on one axis for offset component `s`. */
  function Upper(c: real, cutoff: real, s: int): real
  {
    if s == 1 then -c * 0.5 + cutoff else c * 0.5
  }

  /** The wrapper's test: strictly between Xmin and Xmax on all three axes. */
  predicate Selected(b: Body, cycles: Vec3, cutoff: real, iX: Offset)
  {
    && Lower(cycles[0], cutoff, iX[0]) < b.X[0] < Upper(cycles[0], cutoff, iX[0])
    && Lower(cycles[1], cutoff, iX[1]) < b.X[1] < Upper(cycles[1], cutoff, iX[1])
    && Lower(cycles[2], cutoff, iX[2]) < b.X[2] < Upper(cycles[2], cutoff, iX[2])
  }

  /** The slab rule on one axis, stated from the face the image is glued to:
      no shift keeps the whole period, a +1 shift takes the cutoff-thick slab at
      the lower face, a -1 shift the slab at the upper face. */
  predicate InSourceSlab(x: real, c: real, cutoff: real, s: int)
  {
    if s == 0 then -c * 0.5 < x < c * 0.5
    else if s == 1 then -c * 0.5 < x < -c * 0.5 + cutoff
    else c * 0.5 - cutoff < x < c * 0.5
  }

  /** Where a translated copy lands on one axis: inside the period when not
      shifted, otherwise strictly beyond the face it was shifted across and
      less than `cutoff` away from it. */
  predicate InImageSlab(x: real, c: real, cutoff: real, s: int)
  {
    if s == 0 then -c * 0.5 < x < c * 0.5
    else if s == 1 then c * 0.5 < x < c * 0.5 + cutoff
    else -c * 0.5 - cutoff < x < -c * 0.5
  }

  /** `x + s * c` for a unit offset component `s`, written by cases. */
  function ShiftAxis(x: real, c: real, s: int): real
  {
    if s == 1 then x + c else if s == -1 then x - c else x
  }

  /** The case split is the source's `X[d] += iX[d] * cycles[d]` for every unit component. */
  lemma ShiftAxisIsProduct(x: real, c: real, s: int)
    requires -1 <= s <= 1
    ensures ShiftAxis(x, c, s) == x + s as real * c
  {
    if s == 1 {
      assert s as real * c == c;
    } else if s == -1 {
      assert s as real * c == -c;
    } else {
      assert s as real == 0.0;
    }
  }

  /** The copy of `b` seen in image `iX`: only the position changes, by
      `iX[d] * cycles[d]` on each axis. */
  function Translate(b: Body, cycles: Vec3, iX: Offset): (g: Body)
    ensures g.SRC == b.SRC && g.TRG == b.TRG && g.IBODY == b.IBODY && g.ICELL == b.ICELL
    ensures IsUnit(iX) ==> forall d | 0 <= d < 3 :: g.X[d] == b.X[d] + iX[d] as real * cycles[d]
  {
    var g := b.(X := [ShiftAxis(b.X[0], cycles[0], iX[0]),
                      ShiftAxis(b.X[1], cycles[1], iX[1]),
                      ShiftAxis(b.X[2], cycles[2], iX[2])]);
    if IsUnit(iX) then
      forall d | 0 <= d < 3
        ensures g.X[d] == b.X[d] + iX[d] as real * cycles[d]
      {
        ShiftAxisIsProduct(b.X[d], cycles[d], iX[d]);
      }
      g
    else g
  }

  /** The box test agrees with the per-axis slab rule. */
  lemma SelectedIffInSourceSlabs(b: Body, cycles: Vec3, cutoff: real, iX: Offset)
    requires IsUnit(iX)
    ensures Selected(b, cycles, cutoff, iX) <==>
            && InSourceSlab(b.X[0], cycles[0], cutoff, iX[0])
            && InSourceSlab(b.X[1], cycles[1], cutoff, iX[1])
            && InSourceSlab(b.X[2], cycles[2], cutoff, iX[2])
  {
  }

  lemma AxisShift(x: real, c: real, cutoff: real, s: int)
    requires -1 <= s <= 1
    ensures InSourceSlab(x, c, cutoff, s) <==> InImageSlab(ShiftAxis(x, c, s), c, cutoff, s)
  {
  }

  /** A body is selected for image `iX` exactly when its translated copy lies,
      on every axis, in the slab of that image adjoining the period. */
  lemma SelectedIffCopyInImageSlabs(b: Body, cycles: Vec3, cutoff: real, iX: Offset)
    requires IsUnit(iX)
    ensures var g := Translate(b, cycles, iX);
            Selected(b, cycles, cutoff, iX) <==>
            && InImageSlab(g.X[0], cycles[0], cutoff, iX[0])
            && InImageSlab(g.X[1], cycles[1], cutoff, iX[1])
            && InImageSlab(g.X[2], cycles[2], cutoff, iX[2])
  {
    var g := Translate(b, cycles, iX);
    SelectedIffInSourceSlabs(b, cycles, cutoff, iX);
    AxisShift(b.X[0], cycles[0], cutoff, iX[0]);
    AxisShift(b.X[1], cycles[1], cutoff, iX[1]);
    AxisShift(b.X[2], cycles[2], cutoff, iX[2]);
  }

  /** A translated copy made for a neighbour image lies strictly outside the
      primary period box, and within `cutoff` of it on every axis. */
  lemma CopyInHaloShell(b: Body, cycles: Vec3, cutoff: real, iX: Offset)
    requires IsUnit(iX) && iX != [0, 0, 0] && Selected(b, cycles, cutoff, iX)
    requires PositivePeriod(cycles)
    ensures var g := Translate(b, cycles, iX);
            && (exists d | 0 <= d < 3 :: g.X[d] > cycles[d] * 0.5 || g.X[d] < -cycles[d] * 0.5)
            && (forall d | 0 <= d < 3 :: -cycles[d] * 0.5 - cutoff < g.X[d] < cycles[d] * 0.5 + cutoff)
  {
    var g := Translate(b, cycles, iX);
    SelectedIffCopyInImageSlabs(b, cycles, cutoff, iX);
    var d0 := if iX[0] != 0 then 0 else if iX[1] != 0 then 1 else 2;
    assert iX[d0] != 0;
    assert InImageSlab(g.X[d0], cycles[d0], cutoff, iX[d0]);
    assert g.X[d0] > cycles[d0] * 0.5 || g.X[d0] < -cycles[d0] * 0.5;
    assert cutoff > 0.0;
    forall d | 0 <= d < 3
      ensures -cycles[d] * 0.5 - cutoff < g.X[d] < cycles[d] * 0.5 + cutoff
    {
      assert InImageSlab(g.X[d], cycles[d], cutoff, iX[d]);
    }
  }

  /** Inner loop over candidates for one image offset: selected bodies, translated, in order. */
  function Layer(cands: seq<Body>, cycles: Vec3, cutoff: real, iX: Offset): seq<Body>
  {
    if |cands| == 0 then []
    else
      var last := cands[|cands| - 1];
      Layer(cands[..|cands| - 1], cycles, cutoff, iX)
        + (if Selected(last, cycles, cutoff, iX) then [Translate(last, cycles, iX)] else [])
  }

  /** The layers of the first `m` image offsets, one after another. */
  function Layers(cands: seq<Body>, cycles: Vec3, cutoff: real, m: int): seq<Body>
    requires 0 <= m <= 26
  {
    if m == 0 then []
    else Layers(cands, cycles, cutoff, m - 1) + Layer(cands, cycles, cutoff, Neighbour(m - 1))
  }

  /** All ghosts: for each of the 26 offsets in order, every selected candidate. */
  function Ghosts(cands: seq<Body>, cycles: Vec3, cutoff: real): seq<Body>
  {
    Layers(cands, cycles, cutoff, 26)
  }

  /** A layer holds exactly the translated copies of the selected candidates. */
  lemma {:induction false} LayerMembers(cands: seq<Body>, cycles: Vec3, cutoff: real, iX: Offset, g: Body)
    ensures g in Layer(cands, cycles, cutoff, iX) <==>
            exists j | 0 <= j < |cands| :: Selected(cands[j], cycles, cutoff, iX) && g == Translate(cands[j], cycles, iX)
    decreases |cands|
  {
    if |cands| > 0 {
      var init := cands[..|cands| - 1];
      LayerMembers(init, cycles, cutoff, iX, g);
      if exists j | 0 <= j < |init| :: Selected(init[j], cycles, cutoff, iX) && g == Translate(init[j], cycles, iX) {
        var j :| 0 <= j < |init| && Selected(init[j], cycles, cutoff, iX) && g == Translate(init[j], cycles, iX);
        assert cands[j] == init[j];
      }
    }
  }

  /** `g` is the copy of candidate `j` made for the `k`-th offset. */
  predicate MadeFor(cands: seq<Body>, cycles: Vec3, cutoff: real, k: int, j: int, g: Body)
    requires 0 <= k < 26 && 0 <= j < |cands|
  {
    Selected(cands[j], cycles, cutoff, Neighbour(k)) && g == Translate(cands[j], cycles, Neighbour(k))
  }

  /** The layer of the `k`-th offset holds exactly the copies made for it. */
  lemma LayerOfNeighbour(cands: seq<Body>, cycles: Vec3, cutoff: real, k: int, g: Body)
    requires 0 <= k < 26
    ensures g in Layer(cands, cycles, cutoff, Neighbour(k)) <==>
            exists j | 0 <= j < |cands| :: MadeFor(cands, cycles, cutoff, k, j, g)
  {
    var iX := Neighbour(k);
    LayerMembers(cands, cycles, cutoff, iX, g);
    if g in Layer(cands, cycles, cutoff, iX) {
      var j :| 0 <= j < |cands| && Selected(cands[j], cycles, cutoff, iX) && g == Translate(cands[j], cycles, iX);
      assert MadeFor(cands, cycles, cutoff, k, j, g);
    }
    if exists j | 0 <= j < |cands| :: MadeFor(cands, cycles, cutoff, k, j, g) {
      var j :| 0 <= j < |cands| && MadeFor(cands, cycles, cutoff, k, j, g);
      assert Selected(cands[j], cycles, cutoff, iX) && g == Translate(cands[j], cycles, iX);
    }
  }

  /** `g` is the copy of some candidate made for the `k`-th offset. */
  predicate MadeForOffset(cands: seq<Body>, cycles: Vec3, cutoff: real, k: int, g: Body)
    requires 0 <= k < 26
  {
    exists j | 0 <= j < |cands| :: MadeFor(cands, cycles, cutoff, k, j, g)
  }

  /** `g` is the copy of some candidate made for one of the first `m` offsets. */
  predicate MadeWithin(cands: seq<Body>, cycles: Vec3, cutoff: real, m: int, g: Body)
    requires 0 <= m <= 26
  {
    exists k, j | 0 <= k < m && 0 <= j < |cands| :: MadeFor(cands, cycles, cutoff, k, j, g)
  }

  /** A copy made for one of the first `m` offsets was made for one of the first
      `m - 1`, or for offset `m - 1`. */
  lemma MadeWithinNext(cands: seq<Body>, cycles: Vec3, cutoff: real, m: int, g: Body)
    requires 0 < m <= 26
    ensures MadeWithin(cands, cycles, cutoff, m, g) <==>
            MadeWithin(cands, cycles, cutoff, m - 1, g) || MadeForOffset(cands, cycles, cutoff, m - 1, g)
  {
    if MadeWithin(cands, cycles, cutoff, m, g) {
      var k, j :| 0 <= k < m && 0 <= j < |cands| && MadeFor(cands, cycles, cutoff, k, j, g);
      if k < m - 1 {
        assert MadeWithin(cands, cycles, cutoff, m - 1, g);
      }
    }
    if MadeForOffset(cands, cycles, cutoff, m - 1, g) {
      var j :| 0 <= j < |cands| && MadeFor(cands, cycles, cutoff, m - 1, j, g);
      assert MadeWithin(cands, cycles, cutoff, m, g);
    }
  }

  /** The first `m` layers hold exactly the copies made for the first `m` offsets. */
  lemma {:induction false} LayersMembers(cands: seq<Body>, cycles: Vec3, cutoff: real, m: int, g: Body)
    requires 0 <= m <= 26
    ensures g in Layers(cands, cycles, cutoff, m) <==> MadeWithin(cands, cycles, cutoff, m, g)
  {
    if m > 0 {
      LayersMembers(cands, cycles, cutoff, m - 1, g);
      LayerOfNeighbour(cands, cycles, cutoff, m - 1, g);
      MadeWithinNext(cands, cycles, cutoff, m, g);
      assert Layers(cands, cycles, cutoff, m) ==
             Layers(cands, cycles, cutoff, m - 1) + Layer(cands, cycles, cutoff, Neighbour(m - 1));
    }
  }

  /** Each ghost is a selected candidate translated by one of the 26 offsets, and
      every such translated candidate is a ghost. */
  lemma GhostsMembers(cands: seq<Body>, cycles: Vec3, cutoff: real, g: Body)
    ensures g in Ghosts(cands, cycles, cutoff) <==>
            exists k, j | 0 <= k < 26 && 0 <= j < |cands| :: MadeFor(cands, cycles, cutoff, k, j, g)
  {
    LayersMembers(cands, cycles, cutoff, 26, g);
  }

  /** Every ghost carries the source, target, index and tag of some candidate,
      and lies strictly outside the primary period box but within `cutoff` of
      it on every axis. */
  lemma GhostsLieInHaloShell(cands: seq<Body>, cycles: Vec3, cutoff: real, g: Body)
    requires g in Ghosts(cands, cycles, cutoff)
    requires PositivePeriod(cycles)
    ensures exists j | 0 <= j < |cands| ::
              g.SRC == cands[j].SRC && g.TRG == cands[j].TRG && g.IBODY == cands[j].IBODY && g.ICELL == cands[j].ICELL
    ensures exists d | 0 <= d < 3 :: g.X[d] > cycles[d] * 0.5 || g.X[d] < -cycles[d] * 0.5
    ensures forall d | 0 <= d < 3 :: -cycles[d] * 0.5 - cutoff < g.X[d] < cycles[d] * 0.5 + cutoff
  {
    GhostsMembers(cands, cycles, cutoff, g);
    var k, j :| 0 <= k < 26 && 0 <= j < |cands| && MadeFor(cands, cycles, cutoff, k, j, g);
    NeighbourIsImage(k);
    CopyInHaloShell(cands[j], cycles, cutoff, Neighbour(k));
  }

  /** The ghosts appended by the first `k` steps of the loop nest: each step
      appends the layer of its offset, except the step at the origin. */
  function Swept(cands: seq<Body>, cycles: Vec3, cutoff: real, k: int): seq<Body>
    requires 0 <= k <= 27
  {
    if k == 0 then []
    else Swept(cands, cycles, cutoff, k - 1) + (if k - 1 == 13 then [] else Layer(cands, cycles, cutoff, Step(k - 1)))
  }

  /** How many image offsets precede step `k` of the loop nest. */
  function Done(k: int): int
  {
    if k <= 13 then k else k - 1
  }

  /** The first `k` steps of the loop nest append exactly the layers of the
      first `Done(k)` image offsets, in order. */
  lemma {:induction false} SweptIsLayers(cands: seq<Body>, cycles: Vec3, cutoff: real, k: int)
    requires 0 <= k <= 27
    ensures Swept(cands, cycles, cutoff, k) == Layers(cands, cycles, cutoff, Done(k))
  {
    if k > 0 {
      SweptIsLayers(cands, cycles, cutoff, k - 1);
      if k - 1 != 13 {
        assert Neighbour(Done(k - 1)) == Step(k - 1);
      }
    }
  }

  lemma SweptAll(cands: seq<Body>, cycles: Vec3, cutoff: real)
    ensures Swept(cands, cycles, cutoff, 27) == Ghosts(cands, cycles, cutoff)
  {
    SweptIsLayers(cands, cycles, cutoff, 27);
  }

  /** The step of the loop nest at unit offset `iX` appends that offset's
      layer, unless the offset has zero norm. */
  lemma SweptAdvance(cands: seq<Body>, cycles: Vec3, cutoff: real, iX: Offset)
    requires IsUnit(iX)
    ensures 0 <= StepOf(iX) < 27
    ensures Swept(cands, cycles, cutoff, StepOf(iX) + 1) ==
            Swept(cands, cycles, cutoff, StepOf(iX)) + (if Norm(iX) == 0 then [] else Layer(cands, cycles, cutoff, iX))
  {
    StepStepOf(iX);
    NormZeroIsOrigin(iX);
  }

  /** The inner loop: every candidate strictly inside the selection box of `iX`, translated. */
  method SelectLayer(cands: seq<Body>, cycles: Vec3, cutoff: real, iX: Offset) returns (layer: seq<Body>)
    ensures layer == Layer(cands, cycles, cutoff, iX)
  {
    layer := [];
    var j := 0;
    while j < |cands|
      invariant 0 <= j <= |cands|
      invariant layer == Layer(cands[..j], cycles, cutoff, iX)
    {
      if Selected(cands[j], cycles, cutoff, iX) {
        layer := layer + [Translate(cands[j], cycles, iX)];
      }
      assert cands[..j + 1][..j] == cands[..j];
      j := j + 1;
    }
    assert cands[..|cands|] == cands;
  }

  /** One step of the loop nest at offset (i0, i1, i2): the `norm(iX) != 0`
      test, then the candidate loop. */
  method SweepStep(cands: seq<Body>, cycles: Vec3, cutoff: real, i0: int, i1: int, i2: int, before: seq<Body>)
    returns (ghosts: seq<Body>)
    requires -1 <= i0 <= 1 && -1 <= i1 <= 1 && -1 <= i2 <= 1
    requires before == Swept(cands, cycles, cutoff, 9 * (i0 + 1) + 3 * (i1 + 1) + (i2 + 1))
    ensures ghosts == Swept(cands, cycles, cutoff, 9 * (i0 + 1) + 3 * (i1 + 1) + (i2 + 1) + 1)
  {
    var iX: Offset := [i0, i1, i2];
    assert StepOf(iX) == 9 * (i0 + 1) + 3 * (i1 + 1) + (i2 + 1);
    SweptAdvance(cands, cycles, cutoff, iX);
    ghosts := before;
    if Norm(iX) != 0 {
      var layer := SelectLayer(cands, cycles, cutoff, iX);
      ghosts := ghosts + layer;
    }
  }

  /** The innermost loop of the nest: z from -1 to 1 for fixed x and y offsets. */
  method SweepZ(cands: seq<Body>, cycles: Vec3, cutoff: real, i0: int, i1: int, before: seq<Body>)
    returns (ghosts: seq<Body>)
    requires -1 <= i0 <= 1 && -1 <= i1 <= 1
    requires before == Swept(cands, cycles, cutoff, 9 * (i0 + 1) + 3 * (i1 + 1))
    ensures ghosts == Swept(cands, cycles, cutoff, 9 * (i0 + 1) + 3 * (i1 + 1) + 3)
  {
    ghosts := before;
    var i2 := -1;
    while i2 <= 1
      invariant -1 <= i2 <= 2
      invariant ghosts == Swept(cands, cycles, cutoff, 9 * (i0 + 1) + 3 * (i1 + 1) + (i2 + 1))
    {
      ghosts := SweepStep(cands, cycles, cutoff, i0, i1, i2, ghosts);
      i2 := i2 + 1;
    }
    assert i2 == 2;
  }

  /** The middle loop of the nest: y from -1 to 1 for a fixed x offset. */
  method SweepY(cands: seq<Body>, cycles: Vec3, cutoff: real, i0: int, before: seq<Body>)
    returns (ghosts: seq<Body>)
    requires -1 <= i0 <= 1
    requires before == Swept(cands, cycles, cutoff, 9 * (i0 + 1))
    ensures ghosts == Swept(cands, cycles, cutoff, 9 * (i0 + 1) + 9)
  {
    ghosts := before;
    var i1 := -1;
    while i1 <= 1
      invariant -1 <= i1 <= 2
      invariant ghosts == Swept(cands, cycles, cutoff, 9 * (i0 + 1) + 3 * (i1 + 1))
    {
      ghosts := SweepZ(cands, cycles, cutoff, i0, i1, ghosts);
      i1 := i1 + 1;
    }
    assert i1 == 2;
  }

  /** The wrapper's loop nest: x, y, z offsets from -1 to 1, skipping the zero
      offset, and for each offset every candidate in order. */
  method GenerateGhosts(cands: seq<Body>, cycles: Vec3, cutoff: real) returns (ghosts: seq<Body>)
    ensures ghosts == Ghosts(cands, cycles, cutoff)
  {
    ghosts := [];
    var i0 := -1;
    while i0 <= 1
      invariant -1 <= i0 <= 2
      invariant ghosts == Swept(cands, cycles, cutoff, 9 * (i0 + 1))
    {
      ghosts := SweepY(cands, cycles, cutoff, i0, ghosts);
      i0 := i0 + 1;
    }
    assert i0 == 2;
    SweptAll(cands, cycles, cutoff);
  }
}
