/** What the program schedules: the missing matrix over (peptide, allele) after reuse
    loading (run_predictors.py:243-249), the jobs a fresh run splits its peptides into
    (:274-285), and the jobs each block of missing cells becomes in a reuse run
    (:257-272). */
module Plan {
  import opened Common
  import opened Inputs
  import opened Frames
  import opened Chunks
  import opened Blocks

  /** Whether any of allele `a`'s manifest columns is NaN for peptide `p`. */
  function AlleleMissing(f: Frame, p: string, a: string, manifest: seq<ManifestRow>): (b: bool)
    ensures b <==> exists row :: row in manifest && row.allele == a && f.Get(p, row.col).None?
  {
    if manifest == [] then false
    else
      assert manifest == [manifest[0]] + manifest[1..];
      (manifest[0].allele == a && f.Get(p, manifest[0].col).None?) || AlleleMissing(f, p, a, manifest[1..])
  }

  /** `is_null_matrix`: one row per peptide of the table, one column per allele; a cell
      is set when some manifest column of that allele is NaN for that peptide. */
  function MissingMatrix(f: Frame, alleles: seq<string>, manifest: seq<ManifestRow>): (g: Grid)
    ensures g.Valid() && g.rows == |f.index| && g.cols == |alleles|
    ensures forall i, j :: 0 <= i < |f.index| && 0 <= j < |alleles| ==>
              (g.cells[i][j] <==> exists row :: row in manifest && row.allele == alleles[j] && f.Get(f.index[i], row.col).None?)
  {
    Grid(|f.index|, |alleles|,
      seq(|f.index|, i requires 0 <= i < |f.index| =>
        seq(|alleles|, j requires 0 <= j < |alleles| => AlleleMissing(f, f.index[i], alleles[j], manifest))))
  }

  /** Over the manifest the program builds, a cell of the missing matrix is set exactly
      when one of that allele's kinds is NaN for that peptide. */
  lemma MissingIffSomeKindNull(f: Frame, alleles: seq<string>, kinds: seq<string>, i: nat, j: nat)
    requires i < |f.index| && j < |alleles|
    ensures MissingMatrix(f, alleles, BuildManifest(alleles, kinds)).cells[i][j] <==>
            exists k :: 0 <= k < |kinds| && f.Get(f.index[i], ColumnName(alleles[j], kinds[k])).None?
  {
    var m := BuildManifest(alleles, kinds);
    var p := f.index[i];
    if exists row :: row in m && row.allele == alleles[j] && f.Get(p, row.col).None? {
      var row :| row in m && row.allele == alleles[j] && f.Get(p, row.col).None?;
      ManifestOnlyRows(alleles, kinds, row);
      var k :| 0 <= k < |kinds| && kinds[k] == row.kind;
      assert f.Get(p, ColumnName(alleles[j], kinds[k])).None?;
    }
    if exists k :: 0 <= k < |kinds| && f.Get(p, ColumnName(alleles[j], kinds[k])).None? {
      var k :| 0 <= k < |kinds| && f.Get(p, ColumnName(alleles[j], kinds[k])).None?;
      RowInManifest(alleles, kinds, j, k);
    }
  }

  /** A unit of work before numbering: these peptides against these alleles. */
  datatype Job = Job(peptides: seq<string>, alleles: seq<string>)

  function PeptidesOf(jobs: seq<Job>): (ps: seq<seq<string>>)
    ensures |ps| == |jobs|
    ensures forall k :: 0 <= k < |jobs| ==> ps[k] == jobs[k].peptides
  {
    seq(|jobs|, k requires 0 <= k < |jobs| => jobs[k].peptides)
  }

  function JobsFor(pieces: seq<seq<string>>, alleles: seq<string>): (jobs: seq<Job>)
    ensures |jobs| == |pieces| && PeptidesOf(jobs) == pieces
    ensures forall k :: 0 <= k < |jobs| ==> jobs[k].alleles == alleles
  {
    seq(|pieces|, k requires 0 <= k < |pieces| => Job(pieces[k], alleles))
  }

  /** Some job pairs peptide `p` with allele `a`. */
  predicate Scheduled(jobs: seq<Job>, p: string, a: string) {
    exists job :: job in jobs && p in job.peptides && a in job.alleles
  }

  /** An element of a flattening lies in one of the flattened pieces. */
  lemma {:induction false} FlattenWitness<T>(ss: seq<seq<T>>, x: T)
    requires x in Flatten(ss)
    ensures exists k :: 0 <= k < |ss| && x in ss[k]
  {
    if x !in ss[0] {
      FlattenWitness(ss[1..], x);
      var k :| 0 <= k < |ss[1..]| && x in ss[1..][k];
      assert x in ss[k + 1];
    }
  }

  /** Jobs cut from one list, all for the same alleles, schedule exactly the pairs of a
      listed peptide with one of those alleles. */
  lemma ScheduledPieces(pieces: seq<seq<string>>, alleles: seq<string>, p: string, a: string)
    ensures Scheduled(JobsFor(pieces, alleles), p, a) <==> p in Flatten(pieces) && a in alleles
  {
  }

  /** The fresh run: `ceil(N / chunk_size)` near-equal pieces of all peptides, each
      against every allele. It fails when the chunk size is not positive or no peptide
      is left; otherwise the pieces cover the peptides in order, each within the chunk
      size, so every (peptide, allele) pair is scheduled exactly when both are listed. */
  function FreshJobs(peptides: seq<string>, alleles: seq<string>, chunkSize: int): (r: Result<seq<Job>>)
    ensures r.Ok? <==> chunkSize > 0 && |peptides| > 0
    ensures r.Ok? ==> Flatten(PeptidesOf(r.value)) == peptides
    ensures r.Ok? ==> forall k :: 0 <= k < |r.value| ==>
              r.value[k].alleles == alleles && 0 < |r.value[k].peptides| <= chunkSize
    ensures r.Ok? ==> forall p, a :: Scheduled(r.value, p, a) <==> p in peptides && a in alleles
  {
    var pieces :- Chunk(peptides, chunkSize);
    forall p, a
      ensures Scheduled(JobsFor(pieces, alleles), p, a) <==> p in peptides && a in alleles
    {
      ScheduledPieces(pieces, alleles, p, a);
    }
    Ok(JobsFor(pieces, alleles))
  }

  /** Which list a block's chunk count is applied to: the whole peptide list, as the
      reuse branch does, or the block's own rows. */
  datatype Split = WholeList | BlockRows

  /** The program's split for a block with `count` rows: `ceil(count / chunk_size)`
      pieces of the whole peptide list. */
  function WholeListJobs(peptides: seq<string>, count: nat, cols: seq<string>, chunkSize: int): (r: Result<seq<Job>>)
    ensures r.Ok? <==> chunkSize > 0 && count > 0
    ensures r.Ok? ==> forall k :: 0 <= k < |r.value| ==> r.value[k].alleles == cols
    ensures r.Ok? ==> Flatten(PeptidesOf(r.value)) == peptides
  {
    var n :- NumChunks(count, chunkSize);
    var pieces :- ArraySplit(peptides, n);
    Ok(JobsFor(pieces, cols))
  }

  /** The corrected split: the block's own rows in pieces within the chunk size. */
  function BlockRowsJobs(rows: seq<string>, cols: seq<string>, chunkSize: int): (r: Result<seq<Job>>)
    ensures r.Ok? <==> chunkSize > 0 && |rows| > 0
    ensures r.Ok? ==> forall k :: 0 <= k < |r.value| ==> r.value[k].alleles == cols
    ensures r.Ok? ==> Flatten(PeptidesOf(r.value)) == rows
    ensures r.Ok? ==> forall k :: 0 <= k < |r.value| ==> |r.value[k].peptides| <= chunkSize
  {
    var pieces :- Chunk(rows, chunkSize);
    Ok(JobsFor(pieces, cols))
  }

  /** The jobs of one block: `ceil(|block rows| / chunk_size)` pieces, each against the
      block's alleles. The pieces are cut from the whole peptide list in the program
      and from the block's rows in the corrected version, where each piece fits the
      chunk size. */
  function BlockJobs(peptides: seq<string>, alleles: seq<string>, b: Block, chunkSize: int, split: Split): (r: Result<seq<Job>>)
    ensures r.Ok? <==> chunkSize > 0 && |Slice(peptides, b.x1, b.x2 + 1)| > 0
    ensures r.Ok? ==> forall k :: 0 <= k < |r.value| ==> r.value[k].alleles == Slice(alleles, b.y1, b.y2 + 1)
    ensures r.Ok? && split == WholeList ==> Flatten(PeptidesOf(r.value)) == peptides
    ensures r.Ok? && split == BlockRows ==> Flatten(PeptidesOf(r.value)) == Slice(peptides, b.x1, b.x2 + 1)
    ensures r.Ok? && split == BlockRows ==> forall k :: 0 <= k < |r.value| ==> |r.value[k].peptides| <= chunkSize
  {
    var rows := Slice(peptides, b.x1, b.x2 + 1);
    var cols := Slice(alleles, b.y1, b.y2 + 1);
    match split
    case WholeList => WholeListJobs(peptides, |rows|, cols, chunkSize)
    case BlockRows => BlockRowsJobs(rows, cols, chunkSize)
  }

  /** Each block yields `ceil(|block rows| / chunk_size)` jobs, whichever list is split. */
  lemma BlockJobsCount(peptides: seq<string>, alleles: seq<string>, b: Block, chunkSize: int, split: Split)
    requires BlockJobs(peptides, alleles, b, chunkSize, split).Ok?
    ensures |BlockJobs(peptides, alleles, b, chunkSize, split).value| == CeilDiv(|Slice(peptides, b.x1, b.x2 + 1)|, chunkSize)
  {
  }

  lemma ScheduledConcat(x: seq<Job>, y: seq<Job>, p: string, a: string)
    ensures Scheduled(x + y, p, a) <==> Scheduled(x, p, a) || Scheduled(y, p, a)
  {
  }

  /** The job lists of a sequence of steps concatenated in order; the first failing
      step fails the whole. */
  function JoinAll(rs: seq<Result<seq<Job>>>): (r: Result<seq<Job>>)
    ensures r.Ok? <==> forall k :: 0 <= k < |rs| ==> rs[k].Ok?
  {
    if rs == [] then Ok([])
    else
      var head :- rs[0];
      var tail :- JoinAll(rs[1..]);
      assert forall k :: 0 < k < |rs| ==> rs[k] == rs[1..][k - 1];
      Ok(head + tail)
  }

  /** A pair scheduled by the joined list is scheduled by one of the steps. */
  lemma {:induction false} JoinAllWitness(rs: seq<Result<seq<Job>>>, p: string, a: string) returns (k: nat)
    requires JoinAll(rs).Ok? && Scheduled(JoinAll(rs).value, p, a)
    ensures k < |rs| && rs[k].Ok? && Scheduled(rs[k].value, p, a)
  {
    var tail := JoinAll(rs[1..]);
    assert JoinAll(rs).value == rs[0].value + tail.value;
    ScheduledConcat(rs[0].value, tail.value, p, a);
    if Scheduled(rs[0].value, p, a) {
      k := 0;
    } else {
      var m := JoinAllWitness(rs[1..], p, a);
      assert rs[1..][m] == rs[m + 1];
      k := m + 1;
    }
  }

  /** A pair scheduled by one step is scheduled by the joined list. */
  lemma {:induction false} JoinAllFrom(rs: seq<Result<seq<Job>>>, p: string, a: string, k: nat)
    requires JoinAll(rs).Ok? && k < |rs| && rs[k].Ok? && Scheduled(rs[k].value, p, a)
    ensures Scheduled(JoinAll(rs).value, p, a)
  {
    var tail := JoinAll(rs[1..]);
    assert JoinAll(rs).value == rs[0].value + tail.value;
    ScheduledConcat(rs[0].value, tail.value, p, a);
    if k > 0 {
      assert rs[1..][k - 1] == rs[k];
      JoinAllFrom(rs[1..], p, a, k - 1);
    }
  }

  /** The jobs of each block, in block order. */
  function PerBlock(peptides: seq<string>, alleles: seq<string>, blocks: seq<Block>, chunkSize: int, split: Split): (rs: seq<Result<seq<Job>>>)
    ensures |rs| == |blocks|
    ensures forall k :: 0 <= k < |blocks| ==> rs[k] == BlockJobs(peptides, alleles, blocks[k], chunkSize, split)
  {
    seq(|blocks|, k requires 0 <= k < |blocks| => BlockJobs(peptides, alleles, blocks[k], chunkSize, split))
  }

  /** The reuse branch: the jobs of every block, block after block. */
  function ReuseJobs(peptides: seq<string>, alleles: seq<string>, blocks: seq<Block>, chunkSize: int, split: Split): (r: Result<seq<Job>>)
    ensures r.Ok? <==> forall k :: 0 <= k < |blocks| ==> BlockJobs(peptides, alleles, blocks[k], chunkSize, split).Ok?
  {
    JoinAll(PerBlock(peptides, alleles, blocks, chunkSize, split))
  }

  /** A pair is scheduled in a reuse run exactly when the jobs of some block schedule it. */
  lemma ReuseJobsScheduled(peptides: seq<string>, alleles: seq<string>, blocks: seq<Block>,
                           chunkSize: int, split: Split, p: string, a: string)
    requires ReuseJobs(peptides, alleles, blocks, chunkSize, split).Ok?
    ensures Scheduled(ReuseJobs(peptides, alleles, blocks, chunkSize, split).value, p, a) <==>
            exists k :: 0 <= k < |blocks| && Scheduled(BlockJobs(peptides, alleles, blocks[k], chunkSize, split).value, p, a)
  {
    var rs := PerBlock(peptides, alleles, blocks, chunkSize, split);
    if Scheduled(JoinAll(rs).value, p, a) {
      var k := JoinAllWitness(rs, p, a);
      assert rs[k] == BlockJobs(peptides, alleles, blocks[k], chunkSize, split);
    }
    if exists k :: 0 <= k < |blocks| && Scheduled(BlockJobs(peptides, alleles, blocks[k], chunkSize, split).value, p, a) {
      var k :| 0 <= k < |blocks| && Scheduled(BlockJobs(peptides, alleles, blocks[k], chunkSize, split).value, p, a);
      JoinAllFrom(rs, p, a, k);
    }
  }

  /** In the corrected version a block schedules exactly the pairs of one of its
      peptides with one of its alleles. */
  lemma BlockScheduled(peptides: seq<string>, alleles: seq<string>, b: Block, chunkSize: int, p: string, a: string)
    requires BlockJobs(peptides, alleles, b, chunkSize, BlockRows).Ok?
    ensures Scheduled(BlockJobs(peptides, alleles, b, chunkSize, BlockRows).value, p, a) <==>
            p in Slice(peptides, b.x1, b.x2 + 1) && a in Slice(alleles, b.y1, b.y2 + 1)
  {
    var cols := Slice(alleles, b.y1, b.y2 + 1);
    var pieces := Chunk(Slice(peptides, b.x1, b.x2 + 1), chunkSize).value;
    assert BlockJobs(peptides, alleles, b, chunkSize, BlockRows) == Ok(JobsFor(pieces, cols));
    ScheduledPieces(pieces, cols, p, a);
  }

  /** Every cell of a list of blocks lies in one of them. */
  lemma {:induction false} CoveredWitness(bs: seq<Block>, i: int, j: int)
    requires (i, j) in Covered(bs)
    ensures exists k :: 0 <= k < |bs| && bs[k].Contains(i, j)
  {
    if (i, j) !in bs[0].Cells() {
      CoveredWitness(bs[1..], i, j);
      var k :| 0 <= k < |bs[1..]| && bs[1..][k].Contains(i, j);
      assert bs[k + 1].Contains(i, j);
    }
  }

  /** A listed element of a distinct sequence lies in a slice exactly when its position
      does. */
  lemma InSlice(s: seq<string>, lo: nat, hi: nat, i: nat)
    requires Distinct(s) && i < |s| && lo <= hi <= |s|
    ensures s[i] in s[lo..hi] <==> lo <= i < hi
  {
  }

  /** On a list without repeats, a corrected block schedules peptide `i` against
      allele `j` exactly when the block contains cell `(i, j)`. */
  lemma BlockSchedulesItsCells(peptides: seq<string>, alleles: seq<string>, b: Block, chunkSize: int, i: nat, j: nat)
    requires Distinct(peptides) && Distinct(alleles) && chunkSize > 0
    requires b.x1 <= b.x2 < |peptides| && b.y1 <= b.y2 < |alleles|
    requires i < |peptides| && j < |alleles|
    ensures BlockJobs(peptides, alleles, b, chunkSize, BlockRows).Ok?
    ensures Scheduled(BlockJobs(peptides, alleles, b, chunkSize, BlockRows).value, peptides[i], alleles[j]) <==> b.Contains(i, j)
  {
    assert Slice(peptides, b.x1, b.x2 + 1) == peptides[b.x1..b.x2 + 1];
    assert Slice(alleles, b.y1, b.y2 + 1) == alleles[b.y1..b.y2 + 1];
    BlockScheduled(peptides, alleles, b, chunkSize, peptides[i], alleles[j]);
    InSlice(peptides, b.x1, b.x2 + 1, i);
    InSlice(alleles, b.y1, b.y2 + 1, j);
  }

  /** After a successful extraction a cell is set exactly when some block contains it. */
  lemma CellInSomeBlock(g: Grid, scan: Scan, i: nat, j: nat)
    requires g.Valid() && Extract(g, scan).Ok? && i < g.rows && j < g.cols
    ensures g.cells[i][j] <==> exists k :: 0 <= k < |Extract(g, scan).value| && Extract(g, scan).value[k].Contains(i, j)
  {
    var bs := Extract(g, scan).value;
    OnesMember(g, i, j);
    if g.cells[i][j] {
      CoveredWitness(bs, i, j);
    }
    if exists k :: 0 <= k < |bs| && bs[k].Contains(i, j) {
      var k :| 0 <= k < |bs| && bs[k].Contains(i, j);
      CoveredHas(bs, k);
      assert (i, j) in bs[k].Cells();
    }
  }

  /** The corrected reuse schedule is exact: with distinct peptides and alleles and a
      positive chunk size, peptide `i` is scheduled against allele `j` exactly when the
      missing matrix marks cell `(i, j)`. Nothing present is recomputed and nothing
      missing is skipped. */
  lemma ReuseScheduleExact(f: Frame, alleles: seq<string>, manifest: seq<ManifestRow>,
                           chunkSize: int, i: nat, j: nat)
    requires Distinct(f.index) && Distinct(alleles) && chunkSize > 0
    requires i < |f.index| && j < |alleles|
    ensures Extract(MissingMatrix(f, alleles, manifest), StopAtGap).Ok?
    ensures ReuseJobs(f.index, alleles, Extract(MissingMatrix(f, alleles, manifest), StopAtGap).value, chunkSize, BlockRows).Ok?
    ensures MissingMatrix(f, alleles, manifest).cells[i][j] <==>
            Scheduled(ReuseJobs(f.index, alleles, Extract(MissingMatrix(f, alleles, manifest), StopAtGap).value,
                                chunkSize, BlockRows).value, f.index[i], alleles[j])
  {
    var g := MissingMatrix(f, alleles, manifest);
    StopAtGapNeverFails(g);
    var blocks := Extract(g, StopAtGap).value;
    forall k | 0 <= k < |blocks|
      ensures BlockJobs(f.index, alleles, blocks[k], chunkSize, BlockRows).Ok?
      ensures Scheduled(BlockJobs(f.index, alleles, blocks[k], chunkSize, BlockRows).value, f.index[i], alleles[j])
              <==> blocks[k].Contains(i, j)
    {
      assert blocks[k].Within(g);
      BlockSchedulesItsCells(f.index, alleles, blocks[k], chunkSize, i, j);
    }
    CellInSomeBlock(g, StopAtGap, i, j);
    ReuseJobsScheduled(f.index, alleles, blocks, chunkSize, BlockRows, f.index[i], alleles[j]);
  }

  /** A list split into one piece is that piece. */
  lemma SinglePiece<T>(pieces: seq<seq<T>>, s: seq<T>)
    requires |pieces| == 1 && Flatten(pieces) == s
    ensures pieces == [s]
  {
    assert pieces[1..] == [];
    assert Flatten(pieces) == pieces[0] + Flatten(pieces[1..]);
    assert Flatten(pieces) == pieces[0];
  }

  lemma WholeListExample()
    ensures BlockJobs(["P", "Q"], ["A"], Block(0, 0, 0, 0), 1, WholeList) == Ok([Job(["P", "Q"], ["A"])])
  {
    var peptides := ["P", "Q"];
    assert Slice(peptides, 0, 1) == ["P"];
    assert Slice(["A"], 0, 1) == ["A"];
    assert NumChunks(1, 1) == Ok(1);
    var whole := ArraySplit(peptides, 1).value;
    SinglePiece(whole, peptides);
    assert ArraySplit(peptides, 1) == Ok([peptides]);
    assert JobsFor([peptides], ["A"]) == [Job(peptides, ["A"])];
    assert BlockJobs(peptides, ["A"], Block(0, 0, 0, 0), 1, WholeList) == Ok(JobsFor([peptides], ["A"]));
  }

  lemma BlockRowsExample()
    ensures BlockJobs(["P", "Q"], ["A"], Block(0, 0, 0, 0), 1, BlockRows) == Ok([Job(["P"], ["A"])])
  {
    var peptides := ["P", "Q"];
    assert Slice(peptides, 0, 1) == ["P"];
    assert Slice(["A"], 0, 1) == ["A"];
    SingleJob(["P"], ["A"], 1);
  }

  /** Rows that fit the chunk size make a single job. */
  lemma SingleJob(rows: seq<string>, cols: seq<string>, chunkSize: int)
    requires 0 < |rows| <= chunkSize
    ensures BlockRowsJobs(rows, cols, chunkSize) == Ok([Job(rows, cols)])
  {
    ChunkFits(rows, chunkSize);
    var jobs := JobsFor([rows], cols);
    assert |jobs| == 1 && jobs[0] == Job(rows, cols);
    assert jobs == [Job(rows, cols)];
  }

  lemma ChunkFits(rows: seq<string>, chunkSize: int)
    requires 0 < |rows| <= chunkSize
    ensures Chunk(rows, chunkSize) == Ok([rows])
  {
    var own := Chunk(rows, chunkSize).value;
    assert |own| == 1 by {
      if |own| >= 2 {
        MulLe(1, |own| - 1, chunkSize);
      }
    }
    SinglePiece(own, rows);
  }

  /** The reuse branch as written cuts its pieces from every peptide: for peptides
      `P`, `Q`, one allele, a chunk size of 1 and a single missing cell `(P, A)`, it
      schedules one job of both peptides, larger than the chunk size and including
      `Q`, whose prediction is not missing; the corrected split schedules `P` alone. */
  lemma WholeListOverschedules()
    ensures ReuseJobs(["P", "Q"], ["A"], [Block(0, 0, 0, 0)], 1, WholeList) == Ok([Job(["P", "Q"], ["A"])])
    ensures ReuseJobs(["P", "Q"], ["A"], [Block(0, 0, 0, 0)], 1, BlockRows) == Ok([Job(["P"], ["A"])])
  {
    var peptides, alleles, bs := ["P", "Q"], ["A"], [Block(0, 0, 0, 0)];
    OneBlock(peptides, alleles, Block(0, 0, 0, 0), 1, WholeList);
    OneBlock(peptides, alleles, Block(0, 0, 0, 0), 1, BlockRows);
    WholeListExample();
    BlockRowsExample();
  }

  lemma OneBlock(peptides: seq<string>, alleles: seq<string>, b: Block, chunkSize: int, split: Split)
    requires BlockJobs(peptides, alleles, b, chunkSize, split).Ok?
    ensures ReuseJobs(peptides, alleles, [b], chunkSize, split) == BlockJobs(peptides, alleles, b, chunkSize, split)
  {
    var rs := PerBlock(peptides, alleles, [b], chunkSize, split);
    assert rs == [BlockJobs(peptides, alleles, b, chunkSize, split)];
    assert rs[1..] == [];
    assert JoinAll(rs[1..]) == Ok([]);
    assert BlockJobs(peptides, alleles, b, chunkSize, split).value + [] == BlockJobs(peptides, alleles, b, chunkSize, split).value;
  }
}
