/** The in-memory result table (`result_df`): one row per peptide, one column per
    `"<allele> <kind>"`, every cell a prediction or NaN. Only the `.loc` assignment the
    program performs on it is modelled. */
module Frames {
  import opened Common

  /** A prediction value; its numeric content is never inspected. */
  type Value = real

  /** A cell: `None` is NaN. */
  type Cell = Option<Value>

  /** Stored values keyed by (peptide, column); a key that is absent is NaN. */
  type Cells = map<(string, string), Value>

  function Lookup(m: Cells, p: string, c: string): Cell {
    if (p, c) in m then Some(m[(p, c)]) else None
  }

  /** Setting one cell; NaN is stored as an absent key, so equal tables are equal maps. */
  function Put(m: Cells, p: string, c: string, v: Cell): (r: Cells)
    ensures forall q, d :: Lookup(r, q, d) == if q == p && d == c then v else Lookup(m, q, d)
  {
    match v
    case Some(x) => m[(p, c) := x]
    case None => m - {(p, c)}
  }

  datatype Frame = Frame(index: seq<string>, columns: seq<string>, cells: Cells) {
    function Get(p: string, c: string): Cell {
      Lookup(cells, p, c)
    }

    /** Every stored value lies in a row and a column of the table. */
    predicate Valid() {
      forall k :: k in cells ==> k.0 in index && k.1 in columns
    }
  }

  /** `DataFrame(index=…, columns=…)` followed by `result_df[:] = numpy.nan`. */
  function Empty(index: seq<string>, columns: seq<string>): (f: Frame)
    ensures f.Valid() && f.index == index && f.columns == columns
    ensures forall p, c :: f.Get(p, c) == None
  {
    Frame(index, columns, map[])
  }

  /** Column `c` read top to bottom (`result_df[c].values`). */
  function Column(f: Frame, c: string): (v: seq<Cell>)
    ensures |v| == |f.index|
    ensures forall i :: 0 <= i < |f.index| ==> v[i] == f.Get(f.index[i], c)
  {
    seq(|f.index|, i requires 0 <= i < |f.index| => f.Get(f.index[i], c))
  }

  /** Two tables with the same shape that agree on every cell are the same table. */
  lemma FrameExt(f: Frame, g: Frame)
    requires f.index == g.index && f.columns == g.columns
    requires forall p, c :: f.Get(p, c) == g.Get(p, c)
    ensures f == g
  {
    forall k | k in f.cells
      ensures k in g.cells && g.cells[k] == f.cells[k]
    {
      assert f.Get(k.0, k.1) == g.Get(k.0, k.1);
    }
    forall k | k in g.cells
      ensures k in f.cells
    {
      assert f.Get(k.0, k.1) == g.Get(k.0, k.1);
    }
  }

  /** Writing `values[i]` at `(labels[i], col)` for `i` in order: a label listed twice
      keeps the value of its last occurrence. */
  function WriteCells(m: Cells, labels: seq<string>, col: string, values: seq<Cell>): (r: Cells)
    requires |labels| == |values|
    ensures forall p, c :: Lookup(r, p, c) ==
              if c == col && p in labels then values[LastIndexOf(labels, p)] else Lookup(m, p, c)
    decreases |labels|
  {
    if labels == [] then m
    else
      var n := |labels| - 1;
      Put(WriteCells(m, labels[..n], col, values[..n]), labels[n], col, values[n])
  }

  /** `f.loc[labels, col] = values`. Every label must name a row (else `KeyError`) and
      the value array must match the labels in length (else `ValueError`); a new
      column label is appended to the columns. The cells `labels × {col}` take the
      given values, the last occurrence of a repeated label winning, and every other
      cell keeps its value. */
  function Assign(f: Frame, labels: seq<string>, col: string, values: seq<Cell>): (r: Result<Frame>)
    ensures r.Ok? <==> (forall p :: p in labels ==> p in f.index) && |labels| == |values|
    ensures r.Err? && (forall p :: p in labels ==> p in f.index) ==> r.error == LengthMismatch
    ensures r.Ok? ==> r.value.index == f.index
    ensures r.Ok? ==> r.value.columns == if col in f.columns then f.columns else f.columns + [col]
    ensures r.Ok? ==> forall p, c :: r.value.Get(p, c) ==
                        if c == col && p in labels then values[LastIndexOf(labels, p)] else f.Get(p, c)
    ensures r.Ok? && f.Valid() ==> r.value.Valid()
  {
    if exists p :: p in labels && p !in f.index then Err(MissingLabels)
    else if |labels| != |values| then Err(LengthMismatch)
    else
      var cols := if col in f.columns then f.columns else f.columns + [col];
      var g := Frame(f.index, cols, WriteCells(f.cells, labels, col, values));
      assert f.Valid() ==> g.Valid() by {
        if f.Valid() {
          forall k | k in g.cells
            ensures k.0 in g.index && k.1 in g.columns
          {
            assert g.Get(k.0, k.1).Some?;
          }
        }
      }
      Ok(g)
  }

  /** Repeating an assignment changes nothing. */
  lemma AssignIdempotent(f: Frame, labels: seq<string>, col: string, values: seq<Cell>)
    requires Assign(f, labels, col, values).Ok?
    ensures Assign(Assign(f, labels, col, values).value, labels, col, values) == Assign(f, labels, col, values)
  {
    var g := Assign(f, labels, col, values).value;
    var h := Assign(g, labels, col, values);
    assert h.Ok?;
    FrameExt(h.value, g);
  }

  /** Assignments to different columns, or to disjoint rows, of existing columns
      commute. */
  lemma AssignCommute(f: Frame, l1: seq<string>, c1: string, v1: seq<Cell>,
                      l2: seq<string>, c2: string, v2: seq<Cell>)
    requires c1 in f.columns && c2 in f.columns
    requires Assign(f, l1, c1, v1).Ok? && Assign(f, l2, c2, v2).Ok?
    requires c1 != c2 || forall p :: p in l1 ==> p !in l2
    ensures Assign(Assign(f, l1, c1, v1).value, l2, c2, v2).Ok?
    ensures Assign(Assign(f, l2, c2, v2).value, l1, c1, v1).Ok?
    ensures Assign(Assign(f, l1, c1, v1).value, l2, c2, v2).value
         == Assign(Assign(f, l2, c2, v2).value, l1, c1, v1).value
  {
    var a := Assign(Assign(f, l1, c1, v1).value, l2, c2, v2);
    var b := Assign(Assign(f, l2, c2, v2).value, l1, c1, v1);
    FrameExt(a.value, b.value);
  }
}
