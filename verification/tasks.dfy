/** Numbering the jobs and packing them into tasks (run_predictors.py:288-306): jobs
    are numbered in generation order, stably sorted by peptide count, and each is added
    to the last task while that keeps the task's peptide count below the chunk size. */
module Tasks {
  import opened Common
  import opened Plan

  datatype WorkItem = WorkItem(num: nat, peptides: seq<string>, alleles: seq<string>)

  /** `work_item_num = i` for the `i`-th job generated. */
  function Number(jobs: seq<Job>): (items: seq<WorkItem>)
    ensures |items| == |jobs|
    ensures forall i :: 0 <= i < |jobs| ==> items[i].peptides == jobs[i].peptides && items[i].alleles == jobs[i].alleles
  {
    seq(|jobs|, i requires 0 <= i < |jobs| => WorkItem(i, jobs[i].peptides, jobs[i].alleles))
  }

  /** The number of a numbered item is its position, so `work_items[num]` finds the item
      again wherever packing and execution move it. */
  lemma NumberLocates(jobs: seq<Job>, w: WorkItem)
    requires w in Number(jobs)
    ensures w.num < |jobs| && Number(jobs)[w.num] == w
  {
  }

  function Size(w: WorkItem): nat {
    |w.peptides|
  }

  predicate SortedBySize(s: seq<WorkItem>) {
    forall i, j :: 0 <= i < j < |s| ==> Size(s[i]) <= Size(s[j])
  }

  /** The items of `s` with `n` peptides, in their order in `s`. */
  function OfSize(s: seq<WorkItem>, n: nat): seq<WorkItem> {
    if s == [] then []
    else (if Size(s[0]) == n then [s[0]] else []) + OfSize(s[1..], n)
  }

  lemma OfSizeCons(x: WorkItem, s: seq<WorkItem>, n: nat)
    ensures OfSize([x] + s, n) == (if Size(x) == n then [x] else []) + OfSize(s, n)
  {
    assert ([x] + s)[1..] == s;
  }

  /** Puts `x` before the first item at least as large, so it stays ahead of the items
      of its size that came after it. */
  function Insert(x: WorkItem, s: seq<WorkItem>): (r: seq<WorkItem>)
    ensures multiset(r) == multiset(s) + multiset{x}
  {
    if s == [] || Size(x) <= Size(s[0]) then [x] + s
    else
      assert s == [s[0]] + s[1..];
      [s[0]] + Insert(x, s[1..])
  }

  /** A lower bound on the sizes of `x` and of `s` bounds the sizes after inserting. */
  lemma {:induction false} InsertBound(x: WorkItem, s: seq<WorkItem>, b: nat)
    requires b <= Size(x) && forall k :: 0 <= k < |s| ==> b <= Size(s[k])
    ensures forall k :: 0 <= k < |Insert(x, s)| ==> b <= Size(Insert(x, s)[k])
  {
    if !(s == [] || Size(x) <= Size(s[0])) {
      InsertBound(x, s[1..], b);
      assert Insert(x, s) == [s[0]] + Insert(x, s[1..]);
    }
  }

  /** Inserting into a sorted sequence keeps it sorted. */
  lemma {:induction false} InsertKeepsSorted(x: WorkItem, s: seq<WorkItem>)
    requires SortedBySize(s)
    ensures SortedBySize(Insert(x, s))
  {
    if !(s == [] || Size(x) <= Size(s[0])) {
      var t := Insert(x, s[1..]);
      InsertKeepsSorted(x, s[1..]);
      InsertBound(x, s[1..], Size(s[0]));
      assert Insert(x, s) == [s[0]] + t;
    }
  }

  /** Inserting `x` puts it first among the items of its size and leaves the other
      sizes alone. */
  lemma {:induction false} InsertOfSize(x: WorkItem, s: seq<WorkItem>, n: nat)
    ensures OfSize(Insert(x, s), n) == if Size(x) == n then [x] + OfSize(s, n) else OfSize(s, n)
  {
    if s == [] || Size(x) <= Size(s[0]) {
      OfSizeCons(x, s, n);
    } else {
      InsertOfSize(x, s[1..], n);
      OfSizeCons(s[0], Insert(x, s[1..]), n);
      OfSizeCons(s[0], s[1..], n);
      assert s == [s[0]] + s[1..];
    }
  }

  /** `sorted(work_items, key=lambda d: len(d['peptides']))`: ascending peptide count,
      a permutation of the input, and stable: the items of each size keep their
      relative order. */
  function SortBySize(items: seq<WorkItem>): (r: seq<WorkItem>)
    ensures SortedBySize(r)
    ensures multiset(r) == multiset(items)
    ensures forall n :: OfSize(r, n) == OfSize(items, n)
  {
    if items == [] then []
    else
      var rest := SortBySize(items[1..]);
      assert items == [items[0]] + items[1..];
      InsertKeepsSorted(items[0], rest);
      forall n
        ensures OfSize(Insert(items[0], rest), n) == OfSize(items, n)
      {
        InsertOfSize(items[0], rest, n);
        OfSizeCons(items[0], items[1..], n);
      }
      Insert(items[0], rest)
  }

  lemma CancelPrefix<T>(x: seq<T>, a: seq<T>, b: seq<T>)
    requires x + a == x + b
    ensures a == b
  {
    assert a == (x + a)[|x|..];
    assert b == (x + b)[|x|..];
  }

  /** A sequence with no item of any size is empty. */
  lemma OfSizeNone(s: seq<WorkItem>)
    requires forall n :: OfSize(s, n) == []
    ensures s == []
  {
    if s != [] {
      assert s == [s[0]] + s[1..];
      OfSizeCons(s[0], s[1..], Size(s[0]));
    }
  }

  /** The items of size `n` are the members of that size. */
  lemma {:induction false} OfSizeMember(s: seq<WorkItem>, n: nat, w: WorkItem)
    ensures w in OfSize(s, n) <==> w in s && Size(w) == n
  {
    if s != [] {
      assert s == [s[0]] + s[1..];
      OfSizeMember(s[1..], n, w);
    }
  }

  lemma OfSizeHead(s: seq<WorkItem>)
    requires s != []
    ensures OfSize(s, Size(s[0])) == [s[0]] + OfSize(s[1..], Size(s[0]))
  {
  }

  /** The head of a size-sorted sequence is among its smallest items. */
  lemma HeadSmallest(s: seq<WorkItem>, w: WorkItem)
    requires SortedBySize(s) && w in s
    ensures Size(s[0]) <= Size(w)
  {
    var i :| 0 <= i < |s| && s[i] == w;
  }

  /** Two size-sorted sequences listing the same items of every size start alike. */
  lemma HeadsAgree(a: seq<WorkItem>, b: seq<WorkItem>)
    requires SortedBySize(a) && SortedBySize(b) && a != [] && b != []
    requires forall n :: OfSize(a, n) == OfSize(b, n)
    ensures a[0] == b[0]
  {
    var n := Size(a[0]);
    var m := Size(b[0]);
    OfSizeHead(a);
    OfSizeHead(b);
    assert OfSize(a, m) == OfSize(b, m);
    assert b[0] in OfSize(a, m);
    OfSizeMember(a, m, b[0]);
    HeadSmallest(a, b[0]);
    assert OfSize(b, n) == OfSize(a, n);
    assert a[0] in OfSize(b, n);
    OfSizeMember(b, n, a[0]);
    HeadSmallest(b, a[0]);
    assert n == m;
    assert OfSize(a, n)[0] == a[0];
    assert OfSize(b, n)[0] == b[0];
  }

  /** Dropping a common head keeps the items of every size in the same order. */
  lemma TailsAgree(a: seq<WorkItem>, b: seq<WorkItem>)
    requires a != [] && b != [] && a[0] == b[0]
    requires forall n :: OfSize(a, n) == OfSize(b, n)
    ensures forall k :: OfSize(a[1..], k) == OfSize(b[1..], k)
  {
    forall k
      ensures OfSize(a[1..], k) == OfSize(b[1..], k)
    {
      assert a == [a[0]] + a[1..];
      assert b == [b[0]] + b[1..];
      OfSizeCons(a[0], a[1..], k);
      OfSizeCons(b[0], b[1..], k);
      CancelPrefix(if Size(a[0]) == k then [a[0]] else [], OfSize(a[1..], k), OfSize(b[1..], k));
    }
  }

  /** A stable sort by size has exactly one possible result: two size-sorted sequences
      that list the items of every size in the same order are equal. */
  lemma {:induction false} StableSortUnique(a: seq<WorkItem>, b: seq<WorkItem>)
    requires SortedBySize(a) && SortedBySize(b)
    requires forall n :: OfSize(a, n) == OfSize(b, n)
    ensures a == b
    decreases |a|
  {
    if a == [] || b == [] {
      OfSizeNone(a);
      OfSizeNone(b);
    } else {
      HeadsAgree(a, b);
      TailsAgree(a, b);
      StableSortUnique(a[1..], b[1..]);
      assert a == [a[0]] + a[1..];
      assert b == [b[0]] + b[1..];
    }
  }

  /** `SortBySize` is the stable sort: any size-sorted arrangement of the items that
      keeps the order within each size is exactly its result. */
  lemma SortBySizeIsTheStableSort(items: seq<WorkItem>, r: seq<WorkItem>)
    requires SortedBySize(r) && forall n :: OfSize(r, n) == OfSize(items, n)
    ensures r == SortBySize(items)
  {
    StableSortUnique(r, SortBySize(items));
  }

  /** Peptide count of a task. */
  function Total(task: seq<WorkItem>): nat {
    if task == [] then 0 else Total(task[..|task| - 1]) + Size(task[|task| - 1])
  }

  /** The packing loop's state: the tasks so far and `peptides_in_last_task`. */
  datatype Packing = Packing(tasks: seq<seq<WorkItem>>, last: Option<int>)

  /** One turn of the loop: join the last task when the item plus that task's count
      stays below the chunk size, else open a new task. */
  function Place(p: Packing, w: WorkItem, chunkSize: int): (r: Packing)
    requires p.last.Some? ==> |p.tasks| > 0
    ensures r.last.Some? && |r.tasks| > 0
  {
    if p.last.Some? && Size(w) + p.last.value < chunkSize then
      var n := |p.tasks| - 1;
      Packing(p.tasks[..n] + [p.tasks[n] + [w]], Some(p.last.value + Size(w)))
    else
      Packing(p.tasks + [[w]], Some(Size(w)))
  }

  /** What the packing loop keeps true of the tasks it has formed from `items`. */
  predicate Packed(p: Packing, items: seq<WorkItem>, chunkSize: int) {
    && Flatten(p.tasks) == items
    && (p.last.None? <==> items == [])
    && (p.last.Some? ==> |p.tasks| > 0 && p.last.value == Total(p.tasks[|p.tasks| - 1]))
    && (forall k :: 0 <= k < |p.tasks| ==> |p.tasks[k]| > 0)
    && (forall k :: 0 <= k < |p.tasks| && |p.tasks[k]| >= 2 ==> Total(p.tasks[k]) < chunkSize)
    && (forall k :: 0 <= k < |p.tasks| - 1 ==> Total(p.tasks[k]) + Size(p.tasks[k + 1][0]) >= chunkSize)
  }

  lemma TotalSnoc(t: seq<WorkItem>, w: WorkItem)
    ensures Total(t + [w]) == Total(t) + Size(w)
  {
    assert (t + [w])[..|t|] == t;
  }

  /** Joining the last task keeps the packing invariant. */
  lemma JoinLast(q: Packing, items: seq<WorkItem>, w: WorkItem, chunkSize: int)
    requires Packed(q, items, chunkSize) && q.last.Some? && Size(w) + q.last.value < chunkSize
    ensures Packed(Place(q, w, chunkSize), items + [w], chunkSize)
  {
    var r := Place(q, w, chunkSize);
    var m := |q.tasks| - 1;
    var t := q.tasks[m];
    assert q.tasks == q.tasks[..m] + [t];
    assert r.tasks == q.tasks[..m] + [t + [w]];
    FlattenAppend(q.tasks[..m], t);
    FlattenAppend(q.tasks[..m], t + [w]);
    TotalSnoc(t, w);
    assert forall k :: 0 <= k < m ==> r.tasks[k] == q.tasks[k];
    assert r.tasks[m][0] == t[0];
  }

  /** Opening a new task keeps the packing invariant. */
  lemma OpenNew(q: Packing, items: seq<WorkItem>, w: WorkItem, chunkSize: int)
    requires Packed(q, items, chunkSize) && !(q.last.Some? && Size(w) + q.last.value < chunkSize)
    ensures Packed(Place(q, w, chunkSize), items + [w], chunkSize)
  {
    var r := Place(q, w, chunkSize);
    var m := |q.tasks|;
    assert r.tasks == q.tasks + [[w]] && r.last == Some(Size(w));
    FlattenAppend(q.tasks, [w]);
    TotalSnoc([], w);
    assert [] + [w] == [w];
    assert r.tasks[m] == [w];
    forall k | 0 <= k < m
      ensures r.tasks[k] == q.tasks[k]
    {
    }
    forall k | 0 <= k < m
      ensures Total(r.tasks[k]) + Size(r.tasks[k + 1][0]) >= chunkSize
    {
      if k == m - 1 {
        assert r.tasks[k + 1][0] == w;
      } else {
        assert r.tasks[k + 1] == q.tasks[k + 1];
      }
    }
  }

  /** The packing loop over `items` in order. The tasks concatenate back to the items;
      none is empty; the counter is the last task's peptide count; a task of two or
      more items stays below the chunk size; and each task was closed because its
      count plus the next task's first item reached the chunk size. */
  function PackAll(items: seq<WorkItem>, chunkSize: int): (p: Packing)
    ensures Packed(p, items, chunkSize)
    decreases |items|
  {
    if items == [] then Packing([], None)
    else
      var n := |items| - 1;
      var w := items[n];
      var q := PackAll(items[..n], chunkSize);
      assert items == items[..n] + [w];
      if q.last.Some? && Size(w) + q.last.value < chunkSize then
        JoinLast(q, items[..n], w, chunkSize);
        Place(q, w, chunkSize)
      else
        OpenNew(q, items[..n], w, chunkSize);
        Place(q, w, chunkSize)
  }

  /** Tasks as the program forms them: the items stably sorted by size, then packed. */
  function Pack(items: seq<WorkItem>, chunkSize: int): (tasks: seq<seq<WorkItem>>)
    ensures Flatten(tasks) == SortBySize(items)
    ensures multiset(Flatten(tasks)) == multiset(items)
    ensures forall k :: 0 <= k < |tasks| ==> |tasks[k]| > 0
    ensures forall k :: 0 <= k < |tasks| && |tasks[k]| >= 2 ==> Total(tasks[k]) < chunkSize
  {
    PackAll(SortBySize(items), chunkSize).tasks
  }
}
