/** Splitting a peptide list into work-sized pieces: `int(math.ceil(n / chunk_size))`
    sections, then `numpy.array_split` into that many near-equal contiguous pieces. */
module Chunks {
  import opened Common

  /** `math.ceil(a / b)` taken on the exact quotient. */
  function CeilDiv(a: int, b: int): (q: int)
    requires b != 0
    ensures b > 0 ==> (q - 1) * b < a <= q * b
    ensures b < 0 ==> q * b <= a < (q - 1) * b
  {
    if b > 0 then -((-a) / b) else -(a / (-b))
  }

  /** `int(math.ceil(n / chunk_size))`; dividing by zero raises. */
  function NumChunks(n: nat, chunkSize: int): (r: Result<int>)
    ensures r.Err? <==> chunkSize == 0
    ensures chunkSize > 0 ==> r.Ok? && (r.value - 1) * chunkSize < n <= r.value * chunkSize
    ensures chunkSize < 0 ==> r.Ok? && r.value <= 0
  {
    if chunkSize == 0 then Err(DivisionByZero) else Ok(CeilDiv(n, chunkSize))
  }

  lemma MulLe(a: nat, b: nat, c: nat)
    requires a <= b
    ensures a * c <= b * c
  {
  }

  /** Start of piece `i` in `array_split` when every piece holds `q` elements and
      the first `m` hold one more: `i * q + min(i, m)`, the running sum of the sizes
      of the pieces before it. */
  function Boundary(q: nat, m: nat, i: nat): nat {
    Offset(i, q) + Min(i, m)
  }

  lemma BoundaryStep(q: nat, m: nat, i: nat)
    ensures Boundary(q, m, i + 1) == Boundary(q, m, i) + q + (if i < m then 1 else 0)
  {
  }

  lemma {:induction false} BoundaryMono(q: nat, m: nat, i: nat, j: nat)
    requires i <= j
    ensures Boundary(q, m, i) <= Boundary(q, m, j)
    decreases j - i
  {
    if i < j {
      BoundaryStep(q, m, i);
      BoundaryMono(q, m, i + 1, j);
    }
  }

  /** The last boundary of `n` pieces of a list of `total` elements is its end. */
  lemma BoundaryEnd(total: nat, n: nat)
    requires n > 0
    ensures Boundary(total / n, total % n, n) == total
  {
    OffsetIsProduct(n, total / n);
  }

  /** `s` cut at the boundaries of `n` pieces of `q` elements, the first `m` of
      which hold one more; the last boundary is the end of `s`. */
  function Cut<T>(s: seq<T>, q: nat, m: nat, n: nat): (ps: seq<seq<T>>)
    requires Boundary(q, m, n) == |s|
    ensures |ps| == n
  {
    seq(n, i requires 0 <= i < n =>
      BoundaryMono(q, m, i, i + 1);
      BoundaryMono(q, m, i + 1, n);
      s[Boundary(q, m, i)..Boundary(q, m, i + 1)])
  }

  /** Piece `i` runs from boundary `i` to boundary `i + 1`. */
  lemma PieceAt<T>(s: seq<T>, q: nat, m: nat, n: nat, i: nat)
    requires Boundary(q, m, n) == |s| && i < n
    ensures Boundary(q, m, i) <= Boundary(q, m, i + 1) <= |s|
    ensures Cut(s, q, m, n)[i] == s[Boundary(q, m, i)..Boundary(q, m, i + 1)]
  {
    BoundaryMono(q, m, i, i + 1);
    BoundaryMono(q, m, i + 1, n);
  }

  lemma SliceJoin<T>(s: seq<T>, a: nat, b: nat)
    requires a <= b <= |s|
    ensures s[..a] + s[a..b] == s[..b]
  {
  }

  lemma {:induction false} FlattenCutPrefix<T>(s: seq<T>, q: nat, m: nat, n: nat, k: nat)
    requires Boundary(q, m, n) == |s| && k <= n
    ensures Boundary(q, m, k) <= |s|
    ensures Flatten(Cut(s, q, m, n)[..k]) == s[..Boundary(q, m, k)]
  {
    var ps := Cut(s, q, m, n);
    BoundaryMono(q, m, k, n);
    if k == 0 {
      assert ps[..0] == [];
    } else {
      var lo, hi := Boundary(q, m, k - 1), Boundary(q, m, k);
      FlattenCutPrefix(s, q, m, n, k - 1);
      PieceAt(s, q, m, n, k - 1);
      assert ps[..k] == ps[..k - 1] + [ps[k - 1]];
      FlattenAppend(ps[..k - 1], ps[k - 1]);
      SliceJoin(s, lo, hi);
    }
  }

  /** Every piece holds `q` elements, and the first `m` one more. */
  lemma CutSizes<T>(s: seq<T>, q: nat, m: nat, n: nat)
    requires Boundary(q, m, n) == |s|
    ensures forall i :: 0 <= i < n ==> |Cut(s, q, m, n)[i]| == q + (if i < m then 1 else 0)
  {
    forall i | 0 <= i < n
      ensures |Cut(s, q, m, n)[i]| == q + (if i < m then 1 else 0)
    {
      PieceAt(s, q, m, n, i);
      BoundaryStep(q, m, i);
    }
  }

  /** `numpy.array_split(s, sections)`: rejects fewer than one section; otherwise the
      pieces concatenate back to `s`, and the first `|s| % sections` pieces hold one
      element more than the others. */
  function ArraySplit<T>(s: seq<T>, sections: int): (r: Result<seq<seq<T>>>)
    ensures r.Ok? <==> sections > 0
    ensures r.Ok? ==> |r.value| == sections && Flatten(r.value) == s
    ensures r.Ok? ==> forall i :: 0 <= i < sections ==>
              |r.value[i]| == |s| / sections + (if i < |s| % sections then 1 else 0)
  {
    if sections <= 0 then Err(NoSections)
    else
      var q, m := |s| / sections, |s| % sections;
      BoundaryEnd(|s|, sections);
      var ps := Cut(s, q, m, sections);
      FlattenCutPrefix(s, q, m, sections, sections);
      assert ps[..sections] == ps;
      CutSizes(s, q, m, sections);
      Ok(ps)
  }

  /** With `n = ceil(total / c)` sections no piece is longer than `c`. */
  lemma PieceSizeBound(total: nat, c: nat, n: nat)
    requires c > 0 && n > 0 && total <= n * c
    ensures total / n + (if total % n > 0 then 1 else 0) <= c
  {
    var q := total / n;
    if q > c {
      MulLe(c + 1, q, n);
    }
  }

  /** A non-empty list split this way yields non-empty pieces. */
  lemma PiecesNonEmpty(total: nat, c: nat, n: nat)
    requires c > 0 && 0 < n && (n - 1) * c < total
    ensures total / n >= 1
  {
    MulLe(1, c, n - 1);
  }

  /** The fresh-run split: `ceil(|s| / chunkSize)` pieces by `array_split`. It fails
      exactly when the chunk size is not positive or there is nothing to split;
      otherwise the pieces concatenate back to `s` in order, there are just enough of
      them to keep each within `chunkSize`, none is empty, and sizes differ by at
      most one with the larger pieces first. */
  function Chunk<T>(s: seq<T>, chunkSize: int): (r: Result<seq<seq<T>>>)
    ensures r.Ok? <==> chunkSize > 0 && |s| > 0
    ensures r.Ok? ==> Flatten(r.value) == s
    ensures r.Ok? ==> (|r.value| - 1) * chunkSize < |s| <= |r.value| * chunkSize
    ensures r.Ok? ==> forall i :: 0 <= i < |r.value| ==> 0 < |r.value[i]| <= chunkSize
    ensures r.Ok? ==> forall i, j :: 0 <= i < j < |r.value| ==>
              |r.value[j]| <= |r.value[i]| <= |r.value[j]| + 1
  {
    var n :- NumChunks(|s|, chunkSize);
    var r := ArraySplit(s, n);
    if r.Ok? then
      PieceSizeBound(|s|, chunkSize, n);
      PiecesNonEmpty(|s|, chunkSize, n);
      r
    else
      r
  }
}
