/**
 * The body record exchanged between the Fortran-style flat caller arrays and
 * the tree code, and the stride-3 layout of those arrays.
 */
module Bodies {
  import opened BodyIndex

  /** A position or field vector. */
  type Vec3 = s: seq<real> | |s| == 3 witness [0.0, 0.0, 0.0]

  /** Target accumulator: potential followed by three field components. */
  type Vec4 = s: seq<real> | |s| == 4 witness [0.0, 0.0, 0.0, 0.0]

  /** One body: position X, source SRC, target TRG, packed index IBODY and
      the caller's per-body tag ICELL (the wrapper stores `res_index` there). */
  datatype Body = Body(X: Vec3, SRC: real, TRG: Vec4, IBODY: bv32, ICELL: int)

  /** Entry `d` of record `i` in a flat array laid out with stride 3. */
  function At3(s: seq<real>, i: int, d: int): real
    requires 0 <= i && 0 <= d < 3 && 3 * i + 3 <= |s|
  {
    s[3 * i + d]
  }

  /** Record `i` of a stride-3 array, e.g. `x[3*i+0..3*i+2]`. */
  function Slice3(s: seq<real>, i: int): (v: Vec3)
    requires 0 <= i && 3 * i + 3 <= |s|
    ensures forall d | 0 <= d < 3 :: v[d] == At3(s, i, d)
  {
    s[3 * i .. 3 * i + 3]
  }

  /** Lays records out one after another with stride 3. */
  function Flatten3(vs: seq<Vec3>): (s: seq<real>)
    ensures |s| == 3 * |vs|
    ensures forall i, d | 0 <= i < |vs| && 0 <= d < 3 :: At3(s, i, d) == vs[i][d]
  {
    if |vs| == 0 then [] else vs[0] + Flatten3(vs[1..])
  }

  /** Reading back record `i` of a flattened sequence gives the original record. */
  lemma Slice3Flatten3(vs: seq<Vec3>, i: int)
    requires 0 <= i < |vs|
    ensures Slice3(Flatten3(vs), i) == vs[i]
  {
  }

  /** Flattening the first `n` records of a stride-3 array reproduces its first 3n entries. */
  lemma Flatten3Slices(s: seq<real>, n: nat)
    requires 3 * n <= |s|
    ensures Flatten3(seq(n, i requires 0 <= i < n => Slice3(s, i))) == s[..3 * n]
  {
    var f := Flatten3(seq(n, i requires 0 <= i < n => Slice3(s, i)));
    forall j | 0 <= j < 3 * n
      ensures f[j] == s[j]
    {
      assert At3(f, j / 3, j % 3) == Slice3(s, j / 3)[j % 3];
    }
  }

  /** `s` with the entries from index `at` on replaced by `p`; everything else kept. */
  function Splice<T>(s: seq<T>, at: int, p: seq<T>): (r: seq<T>)
    requires 0 <= at && at + |p| <= |s|
    ensures |r| == |s|
    ensures forall k | 0 <= k < |p| :: r[at + k] == p[k]
    ensures r[..at] == s[..at]
    ensures r[at + |p|..] == s[at + |p|..]
  {
    s[..at] + p + s[at + |p|..]
  }

  /** Record `at + k` of an array with records from `at` on replaced by the
      stride-3 array `p` is record `k` of `p`. */
  lemma SpliceSlice3(s: seq<real>, at: int, p: seq<real>, k: int)
    requires 0 <= at && 3 * at + |p| <= |s| && 0 <= k && 3 * k + 3 <= |p|
    ensures Slice3(Splice(s, 3 * at, p), at + k) == Slice3(p, k)
  {
    var r := Splice(s, 3 * at, p);
    forall d | 0 <= d < 3
      ensures Slice3(r, at + k)[d] == Slice3(p, k)[d]
    {
      assert r[3 * at + (3 * k + d)] == p[3 * k + d];
    }
  }

  /** Record `at + k` of the spliced array is the k-th spliced record. */
  lemma SplicedRecord(s: seq<real>, at: int, vs: seq<Vec3>, k: int)
    requires 0 <= at && 3 * (at + |vs|) <= |s| && 0 <= k < |vs|
    ensures Slice3(Splice(s, 3 * at, Flatten3(vs)), at + k) == vs[k]
  {
    SpliceSlice3(s, at, Flatten3(vs), k);
    Slice3Flatten3(vs, k);
  }

  /** A stride-3 array with records `at`, `at + 1`, ... overwritten by `vs`. */
  function SpliceRecords(s: seq<real>, at: int, vs: seq<Vec3>): (r: seq<real>)
    requires 0 <= at && 3 * (at + |vs|) <= |s|
    ensures |r| == |s|
    ensures forall k | 0 <= k < |vs| :: Slice3(r, at + k) == vs[k]
    ensures r[..3 * at] == s[..3 * at]
    ensures r[3 * (at + |vs|)..] == s[3 * (at + |vs|)..]
  {
    var r := Splice(s, 3 * at, Flatten3(vs));
    forall k | 0 <= k < |vs|
      ensures Slice3(r, at + k) == vs[k]
    {
      SplicedRecord(s, at, vs, k);
    }
    r
  }

  /** The caller's array with its first |p| entries overwritten by `p`. */
  function WritePrefix<T>(s: seq<T>, p: seq<T>): (r: seq<T>)
    requires |p| <= |s|
    ensures |r| == |s|
    ensures forall i | 0 <= i < |p| :: r[i] == p[i]
    ensures r[|p|..] == s[|p|..]
  {
    Splice(s, 0, p)
  }

  /** A stride-3 array with its first |vs| records overwritten by `vs`. */
  function WriteRecords(s: seq<real>, vs: seq<Vec3>): (r: seq<real>)
    requires 3 * |vs| <= |s|
    ensures |r| == |s|
    ensures forall i | 0 <= i < |vs| :: Slice3(r, i) == vs[i]
    ensures r[3 * |vs|..] == s[3 * |vs|..]
  {
    var r := SpliceRecords(s, 0, vs);
    assert forall i | 0 <= i < |vs| :: Slice3(r, 0 + i) == vs[i];
    r
  }
}
