/** Shared vocabulary of the model: optional values, fallible results and a few
    sequence helpers used by every other module. */
module Common {

  /** `None` plays the part of NaN in a prediction cell. */
  datatype Option<+T> = None | Some(value: T)

  /** The exceptions the modelled code can raise, one constructor per raising site. */
  datatype Error =
    | RectangleNotAllOnes(x1: nat, y1: nat, x2: nat, y2: nat)  // the assertion in blocks_of_ones
    | DivisionByZero                                           // math.ceil(n / 0)
    | NoSections                                               // numpy.array_split with < 1 section
    | LengthMismatch                                           // assigning or masking with a wrong-length array
    | MissingLabels                                            // .loc assignment naming a peptide not in the index
    | ItemNumberOutOfRange(num: nat)                           // work_items[num]
    | MissingFile(path: string)                                // a manifest path with no column file
    | UnknownPredictor(name: string)                           // PREDICTOR_TO_COLS[name]
    | UnknownColumn(col: string)                               // col_to_filename[col]

  /** A failure-compatible result, usable with `:-`. */
  datatype Result<+T> = Ok(value: T) | Err(error: Error) {
    predicate IsFailure() {
      Err?
    }

    function PropagateFailure<U>(): Result<U>
      requires Err?
    {
      Err(error)
    }

    function Extract(): T
      requires Ok?
    {
      value
    }
  }

  predicate Distinct<T(==)>(s: seq<T>) {
    forall i, j :: 0 <= i < j < |s| ==> s[i] != s[j]
  }

  /** Concatenation of a sequence of sequences, in order. */
  function Flatten<T>(ss: seq<seq<T>>): seq<T> {
    if ss == [] then [] else ss[0] + Flatten(ss[1..])
  }

  lemma FlattenAppend<T>(ss: seq<seq<T>>, x: seq<T>)
    ensures Flatten(ss + [x]) == Flatten(ss) + x
  {
    if ss != [] {
      assert (ss + [x])[1..] == ss[1..] + [x];
      FlattenAppend(ss[1..], x);
    }
  }

  lemma FlattenConcat<T>(a: seq<seq<T>>, b: seq<seq<T>>)
    ensures Flatten(a + b) == Flatten(a) + Flatten(b)
  {
    if a == [] {
      assert a + b == b;
    } else {
      assert (a + b)[1..] == a[1..] + b;
      FlattenConcat(a[1..], b);
    }
  }

  /** Every element of a member of `ss` is an element of its flattening. */
  lemma FlattenMember<T>(ss: seq<seq<T>>, k: nat, x: T)
    requires k < |ss| && x in ss[k]
    ensures x in Flatten(ss)
  {
    if k > 0 {
      FlattenMember(ss[1..], k - 1, x);
    }
  }

  /** In a flattening without repeats, no element lies in two different pieces. */
  lemma {:induction false} FlattenDistinctApart<T>(ss: seq<seq<T>>, i: nat, j: nat, x: T)
    requires Distinct(Flatten(ss)) && i < j < |ss| && x in ss[i]
    ensures x !in ss[j]
  {
    var rest := Flatten(ss[1..]);
    assert Flatten(ss) == ss[0] + rest;
    if i == 0 {
      var a :| 0 <= a < |ss[0]| && ss[0][a] == x;
      assert x !in rest by {
        forall b | 0 <= b < |rest|
          ensures rest[b] != x
        {
          assert rest[b] == Flatten(ss)[|ss[0]| + b];
          assert x == Flatten(ss)[a];
        }
      }
      forall y | y in ss[1..][j - 1]
        ensures y in rest
      {
        FlattenMember(ss[1..], j - 1, y);
      }
    } else {
      assert Distinct(rest) by {
        forall a, b | 0 <= a < b < |rest|
          ensures rest[a] != rest[b]
        {
          assert rest[a] == Flatten(ss)[|ss[0]| + a];
          assert rest[b] == Flatten(ss)[|ss[0]| + b];
        }
      }
      FlattenDistinctApart(ss[1..], i - 1, j - 1, x);
    }
  }

  /** Position of the last occurrence of `x` in `s`. */
  function LastIndexOf<T(==)>(s: seq<T>, x: T): (k: nat)
    requires x in s
    ensures k < |s| && s[k] == x
    ensures forall j :: k < j < |s| ==> s[j] != x
  {
    if s[|s| - 1] == x then |s| - 1 else LastIndexOf(s[..|s| - 1], x)
  }

  /** Appending one element moves the last occurrence only of that element. */
  lemma LastIndexOfSnoc<T>(s: seq<T>, y: T, x: T)
    requires x in s + [y]
    ensures x == y ==> LastIndexOf(s + [y], x) == |s|
    ensures x != y ==> x in s && LastIndexOf(s + [y], x) == LastIndexOf(s, x)
  {
  }

  /** Position of the first occurrence of `x` in `s`. */
  function FirstIndexOf<T(==)>(s: seq<T>, x: T): (k: nat)
    requires x in s
    ensures k < |s| && s[k] == x
    ensures forall j :: 0 <= j < k ==> s[j] != x
  {
    if s[0] == x then 0 else 1 + FirstIndexOf(s[1..], x)
  }

  /** Dropping a suffix does not move a first occurrence that survives it; this
      follows from the contract of `FirstIndexOf` alone, without induction. */
  lemma {:induction false} FirstIndexOfPrefix<T>(s: seq<T>, n: nat, x: T)
    requires n <= |s| && x in s[..n]
    ensures FirstIndexOf(s, x) == FirstIndexOf(s[..n], x)
  {
  }

  /** In a sequence without repeats the last occurrence is the only one. */
  lemma LastIndexOfDistinct<T>(s: seq<T>, k: nat)
    requires Distinct(s) && k < |s|
    ensures LastIndexOf(s, s[k]) == k
  {
  }

  /** `i * k`, counted by repeated addition so that the solver need not reason
      about products. */
  function Offset(i: nat, k: nat): nat {
    if i == 0 then 0 else k + Offset(i - 1, k)
  }

  lemma {:induction false} OffsetIsProduct(i: nat, k: nat)
    ensures Offset(i, k) == i * k
  {
    if i > 0 {
      OffsetIsProduct(i - 1, k);
      assert i * k == (i - 1) * k + k;
    }
  }

  function Min(a: int, b: int): int {
    if a <= b then a else b
  }

  /** Python's `s[lo:hi]` for non-negative bounds: out-of-range bounds are clipped. */
  function Slice<T>(s: seq<T>, lo: nat, hi: nat): (r: seq<T>)
    ensures lo <= hi <= |s| ==> r == s[lo..hi]
    ensures lo <= |s| <= hi ==> r == s[lo..]
    ensures |s| <= lo || hi <= lo ==> r == []
    ensures |r| <= |s|
  {
    var a := Min(lo, |s|);
    var b := Min(hi, |s|);
    if a <= b then s[a..b] else []
  }
}
