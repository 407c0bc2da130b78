/**
 * Rank arithmetic of the distributed wrapper: the ring shift MPI_Shift used
 * by FMM_Cutoff, and the order in which FMM_FMM visits the other ranks' LETs.
 * The P ranks' buffers are modelled together as one sequence indexed by rank;
 * the message transport itself is not modelled.
 */
module Ring {

  /** One rank's view of a shifted array: the buffer `var` and the count
      `nold` of entries in use. */
  datatype RankBuffer = RankBuffer(data: seq<real>, count: nat)

  /** A buffer whose count does not exceed its length. */
  type Buffer = b: RankBuffer | b.count <= |b.data| witness RankBuffer([], 0)

  /** The entries in use. */
  function Payload(b: Buffer): seq<real>
  {
    b.data[..b.count]
  }

  /** Every rank's buffer has capacity `cap`, as the scratch arrays of FMM_Cutoff do. */
  predicate SameCapacity(ranks: seq<Buffer>, cap: nat)
  {
    forall r | 0 <= r < |ranks| :: |ranks[r].data| == cap
  }

  /** The rank that rank `r` sends to (the source names it `irecv`). */
  function SendTo(r: int, P: int): int
    requires P > 0
  {
    (r - 1 + P) % P
  }

  /** The rank that rank `r` receives from (the source names it `isend`). */
  function RecvFrom(r: int, P: int): int
    requires P > 0
  {
    (r + 1) % P
  }

  /** The rank `k` places after `r` around the ring, for `k` up to one full turn. */
  function Ahead(r: int, k: int, P: int): int
    requires 0 <= r < P && 0 <= k <= P
  {
    if r + k < P then r + k else r + k - P
  }

  /** `%` on a value below 2P, as used for every rank expression here. */
  lemma ModBelowTwice(x: int, P: int)
    requires P > 0 && 0 <= x < 2 * P
    ensures x % P == if x < P then x else x - P
  {
    if x >= P {
      assert x == P * 1 + (x - P);
    } else {
      assert x == P * 0 + x;
    }
  }

  /** `Ahead` is the source's `(r + k) % P`, and a valid rank. */
  lemma AheadIsMod(r: int, k: int, P: int)
    requires 0 <= r < P && 0 <= k <= P
    ensures Ahead(r, k, P) == (r + k) % P
    ensures 0 <= Ahead(r, k, P) < P
  {
    ModBelowTwice(r + k, P);
  }

  /** Sends and receives pair up: the rank `r` receives from addresses its
      message to `r`, and the rank `r` sends to receives from `r`. */
  lemma SendRecvPair(r: int, P: int)
    requires P > 0 && 0 <= r < P
    ensures 0 <= SendTo(r, P) < P && 0 <= RecvFrom(r, P) < P
    ensures SendTo(RecvFrom(r, P), P) == r
    ensures RecvFrom(SendTo(r, P), P) == r
  {
    ModBelowTwice(r + 1, P);
    ModBelowTwice(r - 1 + P, P);
    ModBelowTwice(RecvFrom(r, P) - 1 + P, P);
    ModBelowTwice(SendTo(r, P) + 1, P);
  }

  /** What rank `r` holds after MPI_Shift: the count arrives first, then that
      many entries are copied over the front of its buffer, the rest of the
      buffer is left as it was, and `nold` becomes the received count.  A
      count larger than the buffer would overrun it in C; here the buffer
      then holds exactly the received entries. */
  function ShiftRank(ranks: seq<Buffer>, r: int): (b: Buffer)
    requires 0 <= r < |ranks|
    ensures var src := ranks[RecvFrom(r, |ranks|)];
            && b.count == src.count && Payload(b) == Payload(src)
            && (src.count <= |ranks[r].data| ==>
                  |b.data| == |ranks[r].data| && b.data[b.count..] == ranks[r].data[b.count..])
            && (src.count > |ranks[r].data| ==> b.data == Payload(src))
  {
    var P := |ranks|;
    ModBelowTwice(r + 1, P);
    var src := ranks[RecvFrom(r, P)];
    var nnew := src.count;
    if nnew <= |ranks[r].data| then RankBuffer(Payload(src) + ranks[r].data[nnew..], nnew)
    else RankBuffer(Payload(src), nnew)
  }

  /** One MPI_Shift on every rank at once. */
  function Shift(ranks: seq<Buffer>): (next: seq<Buffer>)
    ensures |next| == |ranks|
  {
    seq(|ranks|, r requires 0 <= r < |ranks| => ShiftRank(ranks, r))
  }

  /** Rank `r`'s entries in use after one shift are its successor's. */
  lemma ShiftOneRank(ranks: seq<Buffer>, r: int)
    requires 0 <= r < |ranks|
    ensures 0 <= RecvFrom(r, |ranks|) < |ranks|
    ensures Payload(Shift(ranks)[r]) == Payload(ranks[RecvFrom(r, |ranks|)])
  {
    ModBelowTwice(r + 1, |ranks|);
  }

  /** After one shift with equal capacities, rank `r` holds its successor's
      block and count, the buffer past that count is unchanged, the
      capacities are kept, and the block rank `r` held is now at its predecessor. */
  lemma ShiftMovesBlocks(ranks: seq<Buffer>, cap: nat, r: int)
    requires SameCapacity(ranks, cap) && 0 <= r < |ranks|
    ensures SameCapacity(Shift(ranks), cap)
    ensures var next := Shift(ranks); var P := |ranks|;
            && 0 <= RecvFrom(r, P) < P && 0 <= SendTo(r, P) < P
            && next[r].count == ranks[RecvFrom(r, P)].count
            && Payload(next[r]) == Payload(ranks[RecvFrom(r, P)])
            && next[r].data[next[r].count..] == ranks[r].data[next[r].count..]
            && Payload(next[SendTo(r, P)]) == Payload(ranks[r])
  {
    var P := |ranks|;
    SendRecvPair(r, P);
    forall q | 0 <= q < P
      ensures |Shift(ranks)[q].data| == cap
    {
      ModBelowTwice(q + 1, P);
    }
  }

  /** `k` successive shifts. */
  function Shifts(ranks: seq<Buffer>, k: nat): (out: seq<Buffer>)
    ensures |out| == |ranks|
  {
    if k == 0 then ranks else Shift(Shifts(ranks, k - 1))
  }

  /** One step to the successor, then k - 1 more, is k steps around the ring. */
  lemma SuccessorThenRest(r: int, k: int, P: int)
    requires P > 0 && 0 <= r < P && 0 < k <= P
    ensures 0 <= RecvFrom(r, P) < P
    ensures Ahead(RecvFrom(r, P), k - 1, P) == Ahead(r, k, P)
  {
    ModBelowTwice(r + 1, P);
  }

  /** After `k` <= P shifts, rank `r` holds the block rank (r + k) % P started with. */
  lemma {:induction false} ShiftsRotate(ranks: seq<Buffer>, k: nat, r: int)
    requires 0 <= r < |ranks| && k <= |ranks|
    ensures 0 <= Ahead(r, k, |ranks|) < |ranks|
    ensures Payload(Shifts(ranks, k)[r]) == Payload(ranks[Ahead(r, k, |ranks|)])
  {
    var P := |ranks|;
    if k > 0 {
      var prev := Shifts(ranks, k - 1);
      SuccessorThenRest(r, k, P);
      ShiftsRotate(ranks, k - 1, RecvFrom(r, P));
      ShiftOneRank(prev, r);
      assert Shifts(ranks, k) == Shift(prev);
    }
  }

  /** Every rank in 0..P-1 appears exactly once. */
  predicate VisitsEachRankOnce(order: seq<int>, P: int)
  {
    && |order| == P
    && (forall i | 0 <= i < P :: 0 <= order[i] < P)
    && (forall i, j | 0 <= i < j < P :: order[i] != order[j])
    && (forall q | 0 <= q < P :: q in order)
  }

  /** The rank whose block rank `r` works on in iteration `irank` of FMM_Cutoff:
      the loop shifts before it computes, so after irank + 1 shifts. */
  function CutoffOrder(r: int, P: int): (order: seq<int>)
    requires 0 <= r < P
    ensures |order| == P
  {
    seq(P, irank requires 0 <= irank < P => Ahead(r, irank + 1, P))
  }

  /** The rank whose LET FMM_FMM traverses in iteration `irank`: `(mpirank + irank) % mpisize`. */
  function LetOrder(r: int, P: int): (order: seq<int>)
    requires 0 <= r < P
    ensures |order| == P
  {
    seq(P, irank requires 0 <= irank < P => Ahead(r, irank, P))
  }

  /** `P` consecutive offsets from a rank, reduced mod `P`, cover every rank once. */
  lemma RotationVisitsEachRankOnce(r: int, start: int, P: int)
    requires P > 0 && 0 <= r < P && 0 <= start <= 1
    ensures VisitsEachRankOnce(seq(P, i requires 0 <= i < P => Ahead(r, i + start, P)), P)
  {
    var order := seq(P, i requires 0 <= i < P => Ahead(r, i + start, P));
    forall i | 0 <= i < P
      ensures order[i] == if r + i + start < P then r + i + start else r + i + start - P
    {
      assert order[i] == Ahead(r, i + start, P);
    }
    forall q | 0 <= q < P
      ensures q in order
    {
      var i := if q >= r + start then q - r - start else q - r - start + P;
      if i == P {
        i := 0;
      }
      assert order[i] == q;
    }
  }

  /** The LET loop starts with the calling rank and visits every rank once. */
  lemma LetOrderVisitsEachRankOnce(r: int, P: int)
    requires P > 0 && 0 <= r < P
    ensures LetOrder(r, P)[0] == r
    ensures VisitsEachRankOnce(LetOrder(r, P), P)
  {
    RotationVisitsEachRankOnce(r, 0, P);
    assert LetOrder(r, P) == seq(P, i requires 0 <= i < P => Ahead(r, i + 0, P));
  }

  /** FMM_Cutoff works on every rank's original block exactly once, its own last. */
  lemma CutoffOrderVisitsEachRankOnce(r: int, P: int)
    requires P > 0 && 0 <= r < P
    ensures CutoffOrder(r, P)[P - 1] == r
    ensures VisitsEachRankOnce(CutoffOrder(r, P), P)
  {
    RotationVisitsEachRankOnce(r, 1, P);
    assert CutoffOrder(r, P) == seq(P, i requires 0 <= i < P => Ahead(r, i + 1, P));
  }

  /** The original block of the rank `CutoffOrder(r, P)[i]`. */
  function CutoffBlock(ranks: seq<Buffer>, r: int, i: int): seq<real>
    requires 0 <= r < |ranks| && 0 <= i < |ranks|
  {
    Payload(ranks[Ahead(r, i + 1, |ranks|)])
  }

  /** Iteration `irank` of FMM_Cutoff shifts once more and then works on the
      block of rank `CutoffOrder(r, P)[irank]`. */
  lemma CutoffStep(ranks: seq<Buffer>, r: int, irank: nat)
    requires 0 <= r < |ranks| && irank < |ranks|
    ensures Shift(Shifts(ranks, irank)) == Shifts(ranks, irank + 1)
    ensures Payload(Shifts(ranks, irank + 1)[r]) == CutoffBlock(ranks, r, irank)
  {
    ShiftsRotate(ranks, irank + 1, r);
  }

  /** `seen` lists, for each iteration so far, the original block rank `r` worked on. */
  predicate SeenInCutoffOrder(ranks: seq<Buffer>, r: int, seen: seq<seq<real>>)
    requires 0 <= r < |ranks|
  {
    && |seen| <= |ranks|
    && forall i | 0 <= i < |seen| :: seen[i] == CutoffBlock(ranks, r, i)
  }

  /** Recording the next block in cutoff order extends the list. */
  lemma SeenExtends(ranks: seq<Buffer>, r: int, seen: seq<seq<real>>, block: seq<real>)
    requires 0 <= r < |ranks| && |seen| < |ranks|
    requires SeenInCutoffOrder(ranks, r, seen)
    requires block == CutoffBlock(ranks, r, |seen|)
    ensures SeenInCutoffOrder(ranks, r, seen + [block])
  {
    var longer := seen + [block];
    forall i | 0 <= i < |longer|
      ensures longer[i] == CutoffBlock(ranks, r, i)
    {
      if i < |seen| {
        assert longer[i] == seen[i];
      }
    }
  }

  /** The FMM_Cutoff loop on rank `r`: P shifts, recording the block present
      after each one (the direct sum over it is not modelled). */
  method CutoffBlocks(ranks: seq<Buffer>, r: int) returns (seen: seq<seq<real>>)
    requires 0 <= r < |ranks|
    ensures |seen| == |ranks|
    ensures forall irank | 0 <= irank < |ranks| ::
              0 <= CutoffOrder(r, |ranks|)[irank] < |ranks| && seen[irank] == Payload(ranks[CutoffOrder(r, |ranks|)[irank]])
  {
    var P := |ranks|;
    var current := ranks;
    seen := [];
    var irank := 0;
    while irank < P
      invariant 0 <= irank <= P
      invariant current == Shifts(ranks, irank)
      invariant |seen| == irank
      invariant SeenInCutoffOrder(ranks, r, seen)
    {
      CutoffStep(ranks, r, irank);
      current := Shift(current);
      SeenExtends(ranks, r, seen, Payload(current[r]));
      seen := seen + [Payload(current[r])];
      irank := irank + 1;
    }
    forall i | 0 <= i < P
      ensures 0 <= CutoffOrder(r, P)[i] < P && seen[i] == Payload(ranks[CutoffOrder(r, P)[i]])
    {
      assert CutoffOrder(r, P)[i] == Ahead(r, i + 1, P);
    }
  }
}
