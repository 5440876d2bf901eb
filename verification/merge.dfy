/** Writing worker results into the result table (run_predictors.py:358-364): every
    `(work_item_num, {col: predictions})` pair is routed by its number to the work
    item's peptides and written column by column. */
module Merge {
  import opened Common
  import opened Frames
  import opened Plan
  import opened Tasks

  /** One entry of a worker's result list: an item number and its column → predictions
      dictionary, in the dictionary's order. */
  datatype ItemResult = ItemResult(num: nat, predictions: seq<(string, seq<Cell>)>)

  function Keys(preds: seq<(string, seq<Cell>)>): (ks: seq<string>)
    ensures |ks| == |preds|
    ensures forall k :: 0 <= k < |preds| ==> ks[k] == preds[k].0
  {
    seq(|preds|, k requires 0 <= k < |preds| => preds[k].0)
  }

  /** The predictions the last entry for column `c` gives. */
  function PredFor(preds: seq<(string, seq<Cell>)>, c: string): seq<Cell>
    requires c in Keys(preds)
  {
    preds[LastIndexOf(Keys(preds), c)].1
  }

  lemma PredForSnoc(preds: seq<(string, seq<Cell>)>, e: (string, seq<Cell>), c: string)
    requires c in Keys(preds + [e])
    ensures c == e.0 ==> PredFor(preds + [e], c) == e.1
    ensures c != e.0 ==> c in Keys(preds) && PredFor(preds + [e], c) == PredFor(preds, c)
  {
    assert Keys(preds + [e]) == Keys(preds) + [e.0];
  }

  /** Whether a result can be written into a table with this index and these columns.
      A result without columns never looks its item up, so it always applies. Otherwise
      its number names a work item, each of its columns is a column of the table, each
      array has one value per peptide of the item, and the item's peptides are rows. */
  predicate Applicable(index: seq<string>, columns: seq<string>, items: seq<WorkItem>, res: ItemResult) {
    || res.predictions == []
    || (&& res.num < |items|
        && (forall e :: e in res.predictions ==> e.0 in columns && |e.1| == |items[res.num].peptides|)
        && (forall p :: p in items[res.num].peptides ==> p in index))
  }

  /** The column loop for one item: `.loc[peptides, col] = predictions`, then the
      per-column bookkeeping, which raises `KeyError` for a column the table did not
      have. Each listed column takes its (last) array at the item's peptides; every other
      cell is unchanged. */
  function WriteColumns(f: Frame, peptides: seq<string>, preds: seq<(string, seq<Cell>)>): (r: Result<Frame>)
    ensures r.Ok? <==> (forall e :: e in preds ==> e.0 in f.columns && |e.1| == |peptides|)
                       && (preds != [] ==> forall p :: p in peptides ==> p in f.index)
    ensures r.Ok? ==> r.value.index == f.index && r.value.columns == f.columns
    ensures r.Ok? ==> forall p, c :: r.value.Get(p, c) ==
                        if c in Keys(preds) && p in peptides
                        then PredFor(preds, c)[LastIndexOf(peptides, p)]
                        else f.Get(p, c)
    decreases |preds|
  {
    if preds == [] then Ok(f)
    else
      var n := |preds| - 1;
      var e := preds[n];
      assert preds == preds[..n] + [e];
      var g :- WriteColumns(f, peptides, preds[..n]);
      var h :- Assign(g, peptides, e.0, e.1);
      if e.0 !in g.columns then Err(UnknownColumn(e.0))
      else
        forall p, c
          ensures h.Get(p, c) ==
                  if c in Keys(preds) && p in peptides
                  then PredFor(preds, c)[LastIndexOf(peptides, p)]
                  else f.Get(p, c)
        {
          if c in Keys(preds) {
            PredForSnoc(preds[..n], e, c);
          } else {
            assert Keys(preds) == Keys(preds[..n]) + [e.0];
          }
        }
        Ok(h)
  }

  /** The cells a result writes: the item's peptides × the result's columns. */
  predicate Touches(items: seq<WorkItem>, res: ItemResult, p: string, c: string) {
    res.num < |items| && c in Keys(res.predictions) && p in items[res.num].peptides
  }

  /** What a result writes in a cell it touches. */
  function Written(items: seq<WorkItem>, res: ItemResult, p: string, c: string): Cell
    requires Touches(items, res, p, c)
    requires forall e :: e in res.predictions ==> |e.1| == |items[res.num].peptides|
  {
    var k := LastIndexOf(Keys(res.predictions), c);
    assert res.predictions[k] in res.predictions;
    PredFor(res.predictions, c)[LastIndexOf(items[res.num].peptides, p)]
  }

  /** Merging one result. The item is looked up (`work_items[work_item_num]`, an
      `IndexError` for a number that names no item) once per column, so a result without
      columns changes nothing and cannot fail. Exactly the touched cells change, each to
      the value the result gives it. */
  function MergeResult(f: Frame, items: seq<WorkItem>, res: ItemResult): (r: Result<Frame>)
    ensures r.Ok? <==> Applicable(f.index, f.columns, items, res)
    ensures res.predictions == [] ==> r == Ok(f)
    ensures r.Err? && res.num >= |items| ==> r.error == ItemNumberOutOfRange(res.num)
    ensures r.Ok? ==> r.value.index == f.index && r.value.columns == f.columns
    ensures r.Ok? ==> forall p, c :: r.value.Get(p, c) ==
                        if Touches(items, res, p, c) then Written(items, res, p, c) else f.Get(p, c)
  {
    if res.predictions == [] then Ok(f)
    else if res.num >= |items| then Err(ItemNumberOutOfRange(res.num))
    else WriteColumns(f, items[res.num].peptides, res.predictions)
  }

  /** Merging the same result twice is merging it once. */
  lemma MergeIdempotent(f: Frame, items: seq<WorkItem>, res: ItemResult)
    requires MergeResult(f, items, res).Ok?
    ensures MergeResult(MergeResult(f, items, res).value, items, res) == MergeResult(f, items, res)
  {
    var g := MergeResult(f, items, res).value;
    var h := MergeResult(g, items, res);
    assert h.Ok?;
    FrameExt(h.value, g);
  }

  /** Every result of the stream merged in arrival order. */
  function MergeAll(f: Frame, items: seq<WorkItem>, results: seq<ItemResult>): (r: Result<Frame>)
    ensures r.Ok? <==> forall k :: 0 <= k < |results| ==> Applicable(f.index, f.columns, items, results[k])
    ensures r.Ok? ==> r.value.index == f.index && r.value.columns == f.columns
    decreases |results|
  {
    if results == [] then Ok(f)
    else
      var n := |results| - 1;
      var g :- MergeAll(f, items, results[..n]);
      MergeResult(g, items, results[n])
  }

  /** No two results of the stream write the same cell. */
  ghost predicate DisjointResults(items: seq<WorkItem>, results: seq<ItemResult>) {
    forall k1, k2, p, c :: 0 <= k1 < k2 < |results| && Touches(items, results[k1], p, c) ==>
      !Touches(items, results[k2], p, c)
  }

  /** Results that name pairwise different work items of the fresh run never write the
      same cell: the fresh pieces partition a repeat-free peptide list, so no peptide
      belongs to two items. */
  lemma FreshRunDisjoint(peptides: seq<string>, alleles: seq<string>, chunkSize: int, results: seq<ItemResult>)
    requires Distinct(peptides) && FreshJobs(peptides, alleles, chunkSize).Ok?
    requires forall k1, k2 :: 0 <= k1 < k2 < |results| ==> results[k1].num != results[k2].num
    ensures DisjointResults(Number(FreshJobs(peptides, alleles, chunkSize).value), results)
  {
    var jobs := FreshJobs(peptides, alleles, chunkSize).value;
    var items := Number(jobs);
    var pieces := PeptidesOf(jobs);
    forall k1, k2, p, c | 0 <= k1 < k2 < |results| && Touches(items, results[k1], p, c)
      ensures !Touches(items, results[k2], p, c)
    {
      var n1, n2 := results[k1].num, results[k2].num;
      if n2 < |items| {
        assert p in pieces[n1];
        if n1 < n2 {
          FlattenDistinctApart(pieces, n1, n2, p);
        } else {
          forall q | q in pieces[n2]
            ensures q != p
          {
            FlattenDistinctApart(pieces, n2, n1, q);
          }
        }
        assert p !in items[n2].peptides;
      }
    }
  }

  /** With disjoint results, a cell holds what the result touching it wrote, or its
      original value when none touches it. */
  lemma DisjointFront(items: seq<WorkItem>, results: seq<ItemResult>)
    requires DisjointResults(items, results) && results != []
    ensures DisjointResults(items, results[..|results| - 1])
  {
  }

  lemma DisjointLast(items: seq<WorkItem>, results: seq<ItemResult>, k: nat, p: string, c: string)
    requires DisjointResults(items, results) && k < |results| - 1
    requires Touches(items, results[|results| - 1], p, c)
    ensures !Touches(items, results[k], p, c)
  {
  }

  lemma {:induction false} MergeAllCell(f: Frame, items: seq<WorkItem>, results: seq<ItemResult>, p: string, c: string)
    requires MergeAll(f, items, results).Ok? && DisjointResults(items, results)
    ensures forall k :: 0 <= k < |results| && Touches(items, results[k], p, c) ==>
              MergeAll(f, items, results).value.Get(p, c) == Written(items, results[k], p, c)
    ensures (forall k :: 0 <= k < |results| ==> !Touches(items, results[k], p, c)) ==>
              MergeAll(f, items, results).value.Get(p, c) == f.Get(p, c)
  {
    if results != [] {
      var n := |results| - 1;
      var front := results[..n];
      var last := results[n];
      var g := MergeAll(f, items, front);
      assert g.Ok?;
      assert MergeAll(f, items, results) == MergeResult(g.value, items, last);
      DisjointFront(items, results);
      MergeAllCell(f, items, front, p, c);
      var v := MergeAll(f, items, results).value.Get(p, c);
      if Touches(items, last, p, c) {
        assert v == Written(items, last, p, c);
        forall k | 0 <= k < n
          ensures !Touches(items, results[k], p, c)
        {
          DisjointLast(items, results, k, p, c);
        }
      } else {
        assert v == g.value.Get(p, c);
        assert forall k :: 0 <= k < n ==> results[k] == front[k];
      }
    }
  }

  /** A result of one stream is a result of any reordering of it. */
  lemma InReordering(rs: seq<ItemResult>, qs: seq<ItemResult>, k: nat)
    requires multiset(rs) == multiset(qs) && k < |rs|
    ensures exists j :: 0 <= j < |qs| && qs[j] == rs[k]
  {
    assert rs[k] in multiset(qs);
  }

  /** Two reorderings of a stream of disjoint results agree on every cell. */
  lemma CellAgrees(f: Frame, items: seq<WorkItem>, rs: seq<ItemResult>, qs: seq<ItemResult>, p: string, c: string)
    requires multiset(rs) == multiset(qs)
    requires DisjointResults(items, rs) && DisjointResults(items, qs)
    requires MergeAll(f, items, rs).Ok? && MergeAll(f, items, qs).Ok?
    ensures MergeAll(f, items, qs).value.Get(p, c) == MergeAll(f, items, rs).value.Get(p, c)
  {
    MergeAllCell(f, items, rs, p, c);
    MergeAllCell(f, items, qs, p, c);
    if k :| 0 <= k < |rs| && Touches(items, rs[k], p, c) {
      InReordering(rs, qs, k);
    } else if j :| 0 <= j < |qs| && Touches(items, qs[j], p, c) {
      InReordering(qs, rs, j);
    }
  }

  /** The arrival order of results does not matter: merging any reordering of a
      stream of disjoint results gives the same table. */
  lemma ArrivalOrderIrrelevant(f: Frame, items: seq<WorkItem>, rs: seq<ItemResult>, qs: seq<ItemResult>)
    requires multiset(rs) == multiset(qs)
    requires DisjointResults(items, rs) && DisjointResults(items, qs)
    requires MergeAll(f, items, rs).Ok?
    ensures MergeAll(f, items, qs) == MergeAll(f, items, rs)
  {
    forall j | 0 <= j < |qs|
      ensures Applicable(f.index, f.columns, items, qs[j])
    {
      InReordering(qs, rs, j);
    }
    var a := MergeAll(f, items, rs).value;
    var b := MergeAll(f, items, qs).value;
    forall p, c
      ensures b.Get(p, c) == a.Get(p, c)
    {
      CellAgrees(f, items, rs, qs, p, c);
    }
    FrameExt(b, a);
  }

  /** In the fresh run, results naming distinct work items may arrive in any order:
      every arrival order gives the same table. */
  lemma FreshRunOrderIrrelevant(f: Frame, peptides: seq<string>, alleles: seq<string>, chunkSize: int,
                                rs: seq<ItemResult>, qs: seq<ItemResult>)
    requires Distinct(peptides) && FreshJobs(peptides, alleles, chunkSize).Ok?
    requires forall k1, k2 :: 0 <= k1 < k2 < |rs| ==> rs[k1].num != rs[k2].num
    requires forall k1, k2 :: 0 <= k1 < k2 < |qs| ==> qs[k1].num != qs[k2].num
    requires multiset(rs) == multiset(qs)
    requires MergeAll(f, Number(FreshJobs(peptides, alleles, chunkSize).value), rs).Ok?
    ensures MergeAll(f, Number(FreshJobs(peptides, alleles, chunkSize).value), qs)
         == MergeAll(f, Number(FreshJobs(peptides, alleles, chunkSize).value), rs)
  {
    FreshRunDisjoint(peptides, alleles, chunkSize, rs);
    FreshRunDisjoint(peptides, alleles, chunkSize, qs);
    ArrivalOrderIrrelevant(f, Number(FreshJobs(peptides, alleles, chunkSize).value), rs, qs);
  }
}
