/** The greedy finder of rectangular blocks of 1s in a boolean matrix
    (`blocks_of_ones`), used to turn the "missing" matrix into schedulable blocks. */
module Blocks {
  import opened Common

  /** A `rows` × `cols` boolean matrix, as the numpy array the finder receives. */
  datatype Grid = Grid(rows: nat, cols: nat, cells: seq<seq<bool>>) {
    predicate Valid() {
      |cells| == rows && forall i :: 0 <= i < rows ==> |cells[i]| == cols
    }

    predicate One(i: int, j: int)
      requires Valid()
    {
      0 <= i < rows && 0 <= j < cols && cells[i][j]
    }
  }

  /** An inclusive rectangle: rows `x1..x2`, columns `y1..y2`. */
  datatype Block = Block(x1: nat, y1: nat, x2: nat, y2: nat) {
    predicate Contains(i: int, j: int) {
      x1 <= i <= x2 && y1 <= j <= y2
    }

    predicate Within(g: Grid) {
      x1 <= x2 < g.rows && y1 <= y2 < g.cols
    }

    ghost function Cells(): set<(int, int)> {
      set i, j | x1 <= i <= x2 && y1 <= j <= y2 :: (i, j)
    }
  }

  /** How the rightward extension is done: as the source does it (no `break`,
      so the last full column wins), or stopping at the first column that is not full. */
  datatype Scan = AsWritten | StopAtGap

  ghost function Ones(g: Grid): set<(int, int)>
    requires g.Valid()
  {
    set i, j | 0 <= i < g.rows && 0 <= j < g.cols && g.cells[i][j] :: (i, j)
  }

  lemma OnesMember(g: Grid, i: int, j: int)
    requires g.Valid()
    ensures (i, j) in Ones(g) <==> g.One(i, j)
  {
  }

  /** The cells covered by a list of blocks. */
  ghost function Covered(bs: seq<Block>): set<(int, int)> {
    if bs == [] then {} else bs[0].Cells() + Covered(bs[1..])
  }

  ghost predicate Disjoint(bs: seq<Block>) {
    forall i, j :: 0 <= i < j < |bs| ==> bs[i].Cells() !! bs[j].Cells()
  }

  predicate AllOnes(g: Grid, b: Block)
    requires g.Valid() && b.Within(g)
  {
    forall i, j :: b.x1 <= i <= b.x2 && b.y1 <= j <= b.y2 ==> g.cells[i][j]
  }

  /** Index of the first `true` of `s` at or after `from`, or `|s|` if there is none. */
  function FirstTrue(s: seq<bool>, from: nat): (k: nat)
    requires from <= |s|
    ensures from <= k <= |s|
    ensures k < |s| ==> s[k]
    ensures forall m :: from <= m < k ==> !s[m]
    decreases |s| - from
  {
    if from == |s| || s[from] then from else FirstTrue(s, from + 1)
  }

  /** numpy's `argmax` on a non-empty boolean vector: the first `true`, or 0. */
  function ArgMax(s: seq<bool>): (k: nat)
    requires |s| > 0
    ensures k < |s|
    ensures s[k] || (k == 0 && forall m :: 0 <= m < |s| ==> !s[m])
    ensures forall m :: 0 <= m < k ==> !s[m]
  {
    var k := FirstTrue(s, 0);
    if k < |s| then k else 0
  }

  /** First row at or after `from` that holds a 1, or `g.rows` if there is none. */
  function FirstRowWithOne(g: Grid, from: nat): (i: nat)
    requires g.Valid() && from <= g.rows
    ensures from <= i <= g.rows
    ensures i < g.rows ==> FirstTrue(g.cells[i], 0) < g.cols
    ensures forall m, j :: from <= m < i && 0 <= j < g.cols ==> !g.cells[m][j]
    decreases g.rows - from
  {
    if from == g.rows || FirstTrue(g.cells[from], 0) < g.cols then from
    else FirstRowWithOne(g, from + 1)
  }

  /** The loop condition `arr.sum() > 0`. */
  predicate HasOne(g: Grid)
    requires g.Valid()
  {
    FirstRowWithOne(g, 0) < g.rows
  }

  lemma HasOneIffOnes(g: Grid)
    requires g.Valid()
    ensures HasOne(g) <==> Ones(g) != {}
  {
    var i := FirstRowWithOne(g, 0);
    if HasOne(g) {
      var j := FirstTrue(g.cells[i], 0);
      assert (i, j) in Ones(g);
    }
  }

  /** `arr[x1:, y1] == 0` */
  function ZerosBelow(g: Grid, x1: nat, y1: nat): (s: seq<bool>)
    requires g.Valid() && x1 < g.rows && y1 < g.cols
    ensures |s| == g.rows - x1
    ensures forall k :: 0 <= k < |s| ==> s[k] == !g.cells[x1 + k][y1]
  {
    seq(g.rows - x1, k requires 0 <= k < g.rows - x1 => !g.cells[x1 + k][y1])
  }

  /** The downward extension: `down_stop = argmax(arr[x1:, y1] == 0) - 1`, and the
      last row when no 0 follows. */
  function DownEdge(g: Grid, x1: nat, y1: nat): (x2: nat)
    requires g.Valid() && x1 < g.rows && y1 < g.cols
    ensures x1 <= x2 < g.rows
  {
    var downStop := ArgMax(ZerosBelow(g, x1, y1)) - 1;
    if downStop == -1 then g.rows - 1
    else
      assert downStop >= 0;
      x1 + downStop
  }

  /** Every row `x1..x2` of column `j` is 1. */
  predicate ColumnFull(g: Grid, x1: nat, x2: nat, j: nat)
    requires g.Valid() && x1 <= x2 < g.rows && j < g.cols
  {
    forall r :: x1 <= r <= x2 ==> g.cells[r][j]
  }

  /** The source's rightward loop over columns `j..cols-1`: `last` becomes every
      column whose row segment is all 1s, so it ends as the last such column. */
  function ScanRight(g: Grid, x1: nat, x2: nat, j: nat, last: nat): (y2: nat)
    requires g.Valid() && x1 <= x2 < g.rows && j <= g.cols && last < g.cols
    ensures y2 < g.cols
    ensures y2 == last || (j <= y2 && ColumnFull(g, x1, x2, y2))
    ensures forall c :: j <= c < g.cols && y2 < c ==> !ColumnFull(g, x1, x2, c)
    ensures y2 < j ==> y2 == last && forall c :: j <= c < g.cols ==> !ColumnFull(g, x1, x2, c)
    decreases g.cols - j
  {
    if j == g.cols then last
    else ScanRight(g, x1, x2, j + 1, if ColumnFull(g, x1, x2, j) then j else last)
  }

  /** The rightward extension with a `break`: the last column of the run of full
      columns that starts at `j`. */
  function ScanRightToGap(g: Grid, x1: nat, x2: nat, j: nat): (y2: nat)
    requires g.Valid() && x1 <= x2 < g.rows && j < g.cols
    ensures j <= y2 < g.cols
    ensures forall c :: j < c <= y2 ==> ColumnFull(g, x1, x2, c)
    ensures y2 + 1 < g.cols ==> !ColumnFull(g, x1, x2, y2 + 1)
    decreases g.cols - j
  {
    if j + 1 < g.cols && ColumnFull(g, x1, x2, j + 1) then ScanRightToGap(g, x1, x2, j + 1) else j
  }

  /** The block one round of the loop proposes: seeded at the first 1 in row-major
      order, extended down the seed column, then to the right. */
  function NextBlock(g: Grid, scan: Scan): (b: Block)
    requires g.Valid() && HasOne(g)
    ensures b.Within(g)
  {
    var x1 := FirstRowWithOne(g, 0);
    var y1 := FirstTrue(g.cells[x1], 0);
    var x2 := DownEdge(g, x1, y1);
    var y2 := match scan
      case AsWritten => ScanRight(g, x1, x2, y1, y1)
      case StopAtGap => ScanRightToGap(g, x1, x2, y1);
    Block(x1, y1, x2, y2)
  }

  /** The matrix with the cells of `b` set to 0. */
  function Clear(g: Grid, b: Block): (r: Grid)
    requires g.Valid()
    ensures r.Valid() && r.rows == g.rows && r.cols == g.cols
    ensures forall i, j :: 0 <= i < g.rows && 0 <= j < g.cols ==>
              r.cells[i][j] == (g.cells[i][j] && !b.Contains(i, j))
  {
    Grid(g.rows, g.cols,
      seq(g.rows, i requires 0 <= i < g.rows =>
        seq(g.cols, j requires 0 <= j < g.cols => g.cells[i][j] && !b.Contains(i, j))))
  }

  lemma CellsMember(b: Block, i: int, j: int)
    ensures (i, j) in b.Cells() <==> b.Contains(i, j)
  {
  }

  lemma ClearOnes(g: Grid, b: Block)
    requires g.Valid()
    ensures Ones(Clear(g, b)) == Ones(g) - b.Cells()
  {
  }

  lemma AllOnesCells(g: Grid, b: Block)
    requires g.Valid() && b.Within(g) && AllOnes(g, b)
    ensures b.Cells() <= Ones(g)
  {
  }

  /** Clearing a block that holds a 1 strictly lowers the count of 1s: the loop's measure. */
  lemma ClearShrinks(g: Grid, b: Block, i: int, j: int)
    requires g.Valid() && g.One(i, j) && b.Contains(i, j)
    ensures |Ones(Clear(g, b))| < |Ones(g)|
  {
    ClearOnes(g, b);
    CellsMember(b, i, j);
    OnesMember(g, i, j);
    var rest := Ones(g) - {(i, j)};
    assert Ones(Clear(g, b)) <= rest;
    assert |rest| == |Ones(g)| - 1;
    SubsetCard(Ones(Clear(g, b)), rest);
  }

  lemma SubsetCard<T>(a: set<T>, b: set<T>)
    requires a <= b
    ensures |a| <= |b|
  {
    assert b == a + (b - a);
  }

  /** The seed of a round is the first 1 in row-major order. */
  lemma SeedIsFirstOne(g: Grid, scan: Scan)
    requires g.Valid() && HasOne(g)
    ensures g.One(NextBlock(g, scan).x1, NextBlock(g, scan).y1)
    ensures forall i, j :: g.One(i, j) ==>
              NextBlock(g, scan).x1 < i || (NextBlock(g, scan).x1 == i && NextBlock(g, scan).y1 <= j)
  {
  }

  lemma CoveredHas(bs: seq<Block>, k: nat)
    requires k < |bs|
    ensures bs[k].Cells() <= Covered(bs)
  {
    if k > 0 {
      CoveredHas(bs[1..], k - 1);
    }
  }

  /** The down extension ends the block at the last row of the run of 1s that
      starts at the seed in the seed column. */
  lemma DownEdgeIsRunEnd(g: Grid, x1: nat, y1: nat)
    requires g.Valid() && x1 < g.rows && y1 < g.cols && g.cells[x1][y1]
    ensures forall r :: x1 <= r <= DownEdge(g, x1, y1) ==> g.cells[r][y1]
    ensures DownEdge(g, x1, y1) + 1 < g.rows ==> !g.cells[DownEdge(g, x1, y1) + 1][y1]
  {
    var s := ZerosBelow(g, x1, y1);
    var k := ArgMax(s);
    forall r | x1 <= r <= DownEdge(g, x1, y1)
      ensures g.cells[r][y1]
    {
      assert !s[r - x1];
    }
  }

  /** What one round proposes: the seed is the first 1 in row-major order, `x2` ends
      the run of 1s below it, and `y2` is the last full column (as written) or the
      end of the contiguous run of full columns (with a `break`). */
  lemma NextBlockShape(g: Grid, scan: Scan)
    requires g.Valid() && HasOne(g)
    ensures var b := NextBlock(g, scan);
      && g.One(b.x1, b.y1)
      && (forall i, j :: g.One(i, j) ==> b.x1 < i || (b.x1 == i && b.y1 <= j))
      && (forall r :: b.x1 <= r <= b.x2 ==> g.cells[r][b.y1])
      && (b.x2 + 1 < g.rows ==> !g.cells[b.x2 + 1][b.y1])
      && ColumnFull(g, b.x1, b.x2, b.y2)
      && (scan == AsWritten ==>
            forall c :: b.y2 < c < g.cols ==> !ColumnFull(g, b.x1, b.x2, c))
      && (scan == StopAtGap ==>
            && (forall c :: b.y1 <= c <= b.y2 ==> ColumnFull(g, b.x1, b.x2, c))
            && (b.y2 + 1 < g.cols ==> !ColumnFull(g, b.x1, b.x2, b.y2 + 1)))
  {
    var b := NextBlock(g, scan);
    SeedIsFirstOne(g, scan);
    DownEdgeIsRunEnd(g, b.x1, b.y1);
    assert ColumnFull(g, b.x1, b.x2, b.y1);
  }

  /** The source's assertion fires exactly when a column strictly between the seed
      column and the last full column is not full. */
  lemma AssertionFiresIffGap(g: Grid)
    requires g.Valid() && HasOne(g)
    ensures var b := NextBlock(g, AsWritten);
      !AllOnes(g, b) <==> exists c :: b.y1 < c < b.y2 && !ColumnFull(g, b.x1, b.x2, c)
  {
    var b := NextBlock(g, AsWritten);
    NextBlockShape(g, AsWritten);
    if !AllOnes(g, b) {
      var i, j :| b.x1 <= i <= b.x2 && b.y1 <= j <= b.y2 && !g.cells[i][j];
      assert !ColumnFull(g, b.x1, b.x2, j);
    }
  }

  /** Whenever the source's round passes its assertion, it proposes the same block
      as the scan with a `break`. */
  lemma RoundsAgree(g: Grid)
    requires g.Valid() && HasOne(g) && AllOnes(g, NextBlock(g, AsWritten))
    ensures NextBlock(g, AsWritten) == NextBlock(g, StopAtGap)
  {
    var a := NextBlock(g, AsWritten);
    var b := NextBlock(g, StopAtGap);
    NextBlockShape(g, AsWritten);
    NextBlockShape(g, StopAtGap);
  }

  /** Extending an exact, disjoint cover of the cleared matrix by the cleared block
      gives an exact, disjoint cover of the matrix. */
  lemma ExtendCover(g: Grid, b: Block, rest: seq<Block>)
    requires g.Valid() && b.Within(g) && AllOnes(g, b)
    requires Covered(rest) == Ones(Clear(g, b)) && Disjoint(rest)
    requires forall k :: 0 <= k < |rest| ==>
               rest[k].Within(Clear(g, b)) && AllOnes(Clear(g, b), rest[k])
    ensures Covered([b] + rest) == Ones(g) && Disjoint([b] + rest)
    ensures forall k :: 0 <= k < |[b] + rest| ==> ([b] + rest)[k].Within(g) && AllOnes(g, ([b] + rest)[k])
  {
    var bs := [b] + rest;
    assert bs[1..] == rest;
    ClearOnes(g, b);
    AllOnesCells(g, b);
    forall i, j | 0 <= i < j < |bs|
      ensures bs[i].Cells() !! bs[j].Cells()
    {
      if i == 0 {
        CoveredHas(rest, j - 1);
      }
    }
  }

  /** `blocks_of_ones`: take the next block, check the source's assertion that it is
      all 1s, clear it and repeat until no 1 is left. On success the blocks are
      in-bounds rectangles of 1s, pairwise disjoint, covering exactly the 1s; the
      measure is the number of 1s, which each round strictly lowers. */
  function Extract(g: Grid, scan: Scan): (r: Result<seq<Block>>)
    requires g.Valid()
    ensures r.Ok? ==> Covered(r.value) == Ones(g) && Disjoint(r.value)
    ensures r.Ok? ==> forall k :: 0 <= k < |r.value| ==> r.value[k].Within(g) && AllOnes(g, r.value[k])
    decreases |Ones(g)|
  {
    if !HasOne(g) then
      HasOneIffOnes(g);
      Ok([])
    else
      var b := NextBlock(g, scan);
      if !AllOnes(g, b) then Err(RectangleNotAllOnes(b.x1, b.y1, b.x2, b.y2))
      else
        SeedIsFirstOne(g, scan);
        ClearShrinks(g, b, b.x1, b.y1);
        var rest :- Extract(Clear(g, b), scan);
        ExtendCover(g, b, rest);
        Ok([b] + rest)
  }

  /** With a `break`, every column of the proposed block is full, so the block is all 1s. */
  lemma StopAtGapRoundIsOnes(g: Grid)
    requires g.Valid() && HasOne(g)
    ensures AllOnes(g, NextBlock(g, StopAtGap))
  {
    var b := NextBlock(g, StopAtGap);
    NextBlockShape(g, StopAtGap);
    forall i, j | b.x1 <= i <= b.x2 && b.y1 <= j <= b.y2
      ensures g.cells[i][j]
    {
      assert ColumnFull(g, b.x1, b.x2, j);
    }
  }

  /** With a `break` in the rightward scan the assertion can never fire. */
  lemma {:induction false} StopAtGapNeverFails(g: Grid)
    requires g.Valid()
    ensures Extract(g, StopAtGap).Ok?
    decreases |Ones(g)|
  {
    if HasOne(g) {
      var b := NextBlock(g, StopAtGap);
      StopAtGapRoundIsOnes(g);
      SeedIsFirstOne(g, StopAtGap);
      ClearShrinks(g, b, b.x1, b.y1);
      StopAtGapNeverFails(Clear(g, b));
    }
  }

  /** Whenever the source returns blocks, they are the blocks the corrected scan returns. */
  lemma {:induction false} AsWrittenAgreesWhenOk(g: Grid)
    requires g.Valid() && Extract(g, AsWritten).Ok?
    ensures Extract(g, AsWritten) == Extract(g, StopAtGap)
    decreases |Ones(g)|
  {
    if HasOne(g) {
      var b := NextBlock(g, AsWritten);
      RoundsAgree(g);
      SeedIsFirstOne(g, AsWritten);
      ClearShrinks(g, b, b.x1, b.y1);
      AsWrittenAgreesWhenOk(Clear(g, b));
    }
  }

  /** `[[1, 0, 1]]`: the seed column 0 and the last full column 2 enclose the 0 at
      column 1, so the source's assertion fails. */
  lemma GapBreaksAssertion()
    ensures Extract(Grid(1, 3, [[true, false, true]]), AsWritten) == Err(RectangleNotAllOnes(0, 0, 0, 2))
  {
    var g := Grid(1, 3, [[true, false, true]]);
    assert FirstRowWithOne(g, 0) == 0;
    assert FirstTrue(g.cells[0], 0) == 0;
    assert DownEdge(g, 0, 0) == 0;
    assert ColumnFull(g, 0, 0, 2);
    assert !ColumnFull(g, 0, 0, 1);
    assert ScanRight(g, 0, 0, 0, 0) == 2;
    assert !AllOnes(g, Block(0, 0, 0, 2));
  }
}
