/** Preparing the run's inputs: the sorted, de-duplicated allele list, the filtered
    peptide list, the predictor's kinds of value and the manifest of output columns. */
module Inputs {
  import opened Common

  // ---------------------------------------------------------------------------
  // Alleles: `sorted(set(alleles))`
  // ---------------------------------------------------------------------------

  /** Python's `<` on strings: lexicographic by code point. */
  predicate Less(a: string, b: string)
    decreases |a|
  {
    |b| > 0 && (|a| == 0 || a[0] < b[0] || (a[0] == b[0] && Less(a[1..], b[1..])))
  }

  lemma LessIrreflexive(a: string)
    ensures !Less(a, a)
  {
  }

  lemma LessTransitive(a: string, b: string, c: string)
    requires Less(a, b) && Less(b, c)
    ensures Less(a, c)
    decreases |a|
  {
  }

  lemma LessTotal(a: string, b: string)
    requires a != b
    ensures Less(a, b) || Less(b, a)
    decreases |a|
  {
  }

  lemma LessAsymmetric(a: string, b: string)
    requires Less(a, b)
    ensures !Less(b, a)
  {
  }

  predicate StrictlySorted(s: seq<string>) {
    forall i, j :: 0 <= i < j < |s| ==> Less(s[i], s[j])
  }

  lemma StrictlySortedDistinct(s: seq<string>)
    requires StrictlySorted(s)
    ensures Distinct(s)
  {
    forall i, j | 0 <= i < j < |s|
      ensures s[i] != s[j]
    {
      LessIrreflexive(s[i]);
    }
  }

  lemma PrependSorted(h: string, t: seq<string>)
    requires StrictlySorted(t) && forall y :: y in t ==> Less(h, y)
    ensures StrictlySorted([h] + t)
  {
  }

  /** Insert `x` into a strictly increasing list, unless it is already there. */
  function InsertSorted(x: string, t: seq<string>): (r: seq<string>)
    requires StrictlySorted(t)
    ensures StrictlySorted(r)
    ensures forall y :: y in r <==> y == x || y in t
  {
    if t == [] then [x]
    else if x == t[0] then t
    else if Less(x, t[0]) then
      assert forall y :: y in t ==> Less(x, y) by {
        forall y | y in t
          ensures Less(x, y)
        {
          if y != t[0] {
            var k :| 0 <= k < |t| && t[k] == y;
            LessTransitive(x, t[0], y);
          }
        }
      }
      PrependSorted(x, t);
      [x] + t
    else
      LessTotal(x, t[0]);
      var rest := InsertSorted(x, t[1..]);
      assert forall y :: y in rest ==> Less(t[0], y) by {
        forall y | y in rest
          ensures Less(t[0], y)
        {
          if y != x {
            var k :| 0 <= k < |t[1..]| && t[1..][k] == y;
            assert t[k + 1] == y;
          }
        }
      }
      PrependSorted(t[0], rest);
      [t[0]] + rest
  }

  /** `sorted(set(xs))`: a strictly increasing list of exactly the elements of `xs`. */
  function SortedUnique(xs: seq<string>): (r: seq<string>)
    ensures StrictlySorted(r)
    ensures forall y :: y in r <==> y in xs
  {
    if xs == [] then []
    else
      var init := SortedUnique(xs[..|xs| - 1]);
      assert xs == xs[..|xs| - 1] + [xs[|xs| - 1]];
      InsertSorted(xs[|xs| - 1], init)
  }

  /** A strictly increasing list is fixed by its elements: `sorted(set(...))` does not
      depend on the order or repetition of the alleles given on the command line. */
  lemma {:induction false} SortedIsCanonical(a: seq<string>, b: seq<string>)
    requires StrictlySorted(a) && StrictlySorted(b)
    requires forall y :: y in a <==> y in b
    ensures a == b
    decreases |a|
  {
    if a != [] {
      assert a[0] in b;
    }
    if b != [] {
      assert b[0] in a;
    }
    if a != [] && b != [] {
      if a[0] != b[0] {
        assert a[0] in a && b[0] in b;
        var k :| 0 <= k < |b| && b[k] == a[0];
        var m :| 0 <= m < |a| && a[m] == b[0];
        LessAsymmetric(a[0], b[0]);
      }
      forall y
        ensures y in a[1..] <==> y in b[1..]
      {
        if y in a[1..] {
          var k :| 0 <= k < |a[1..]| && a[1..][k] == y;
          assert Less(a[0], a[k + 1]);
          LessIrreflexive(y);
          assert y in b;
        }
        if y in b[1..] {
          var k :| 0 <= k < |b[1..]| && b[1..][k] == y;
          assert Less(b[0], b[k + 1]);
          LessIrreflexive(y);
          assert y in a;
        }
      }
      SortedIsCanonical(a[1..], b[1..]);
      assert a == [a[0]] + a[1..] && b == [b[0]] + b[1..];
    }
  }

  lemma SortedUniqueIgnoresOrder(xs: seq<string>, ys: seq<string>)
    requires forall y :: y in xs <==> y in ys
    ensures SortedUnique(xs) == SortedUnique(ys)
  {
    SortedIsCanonical(SortedUnique(xs), SortedUnique(ys));
  }

  // ---------------------------------------------------------------------------
  // Peptides
  // ---------------------------------------------------------------------------

  const AminoAcids: set<char> :=
    {'A', 'C', 'D', 'E', 'F', 'G', 'H', 'I', 'K', 'L', 'M', 'N', 'P', 'Q', 'R', 'S', 'T', 'V', 'W', 'Y'}

  predicate AllAmino(s: string) {
    forall k :: 0 <= k < |s| ==> s[k] in AminoAcids
  }

  /** `re.match("^[ACDEFGHIKLMNPQRSTVWY]+$", s)`. Python's `$` also matches just
      before a newline that ends the string, so one trailing newline is accepted. */
  predicate IsValidPeptide(s: string) {
    || (|s| > 0 && AllAmino(s))
    || (|s| > 1 && s[|s| - 1] == '\n' && AllAmino(s[..|s| - 1]))
  }

  lemma PeptidePatternExamples()
    ensures IsValidPeptide("SIINFEKL") && IsValidPeptide("AAAA")
    ensures IsValidPeptide("AAAA\n")
    ensures !IsValidPeptide("") && !IsValidPeptide("\n") && !IsValidPeptide("SIINFEKLB")
    ensures !IsValidPeptide("AA\n\n") && !IsValidPeptide("aaaa")
  {
    assert "AAAA\n"[..4] == "AAAA";
    assert "\n"[0] !in AminoAcids;
    assert "SIINFEKLB"[8] !in AminoAcids;
    assert "AA\n\n"[2] !in AminoAcids;
    assert "AA\n\n"[..3][2] !in AminoAcids;
    assert "aaaa"[0] !in AminoAcids;
  }

  /** `drop_duplicates()`: keep the first occurrence of each value, in order. */
  function DropDuplicates(s: seq<string>): (r: seq<string>)
    ensures Distinct(r)
    ensures forall x :: x in r <==> x in s
    ensures forall i, j :: 0 <= i < j < |r| ==> FirstIndexOf(s, r[i]) < FirstIndexOf(s, r[j])
  {
    if s == [] then []
    else
      var n := |s| - 1;
      var init := DropDuplicates(s[..n]);
      assert s == s[..n] + [s[n]];
      forall x | x in init
        ensures FirstIndexOf(s, x) == FirstIndexOf(s[..n], x)
      {
        FirstIndexOfPrefix(s, n, x);
      }
      if s[n] in init then init
      else
        assert FirstIndexOf(s, s[n]) == n;
        init + [s[n]]
  }

  /** A list without repeats is its own `drop_duplicates()` (so `unique()` after
      filtering changes nothing). */
  lemma {:induction false} DropDuplicatesOfDistinct(s: seq<string>)
    requires Distinct(s)
    ensures DropDuplicates(s) == s
  {
    if s != [] {
      var n := |s| - 1;
      DropDuplicatesOfDistinct(s[..n]);
      assert s == s[..n] + [s[n]];
    }
  }

  /** The elements satisfying `ok`, in order. */
  function Filter(s: seq<string>, ok: string -> bool): (r: seq<string>)
    ensures forall x :: x in r <==> x in s && ok(x)
    ensures Distinct(s) ==> Distinct(r)
  {
    if s == [] then []
    else
      var n := |s| - 1;
      assert s == s[..n] + [s[n]];
      Filter(s[..n], ok) + (if ok(s[n]) then [s[n]] else [])
  }

  /** Filtering a list without repeats keeps the order in which elements first appear. */
  lemma {:induction false} FilterKeepsOrder(s: seq<string>, ok: string -> bool)
    requires Distinct(s)
    ensures forall i, j :: 0 <= i < j < |Filter(s, ok)| ==>
              FirstIndexOf(s, Filter(s, ok)[i]) < FirstIndexOf(s, Filter(s, ok)[j])
  {
    if s != [] {
      var n := |s| - 1;
      var init := Filter(s[..n], ok);
      var r := Filter(s, ok);
      assert s == s[..n] + [s[n]];
      FilterKeepsOrder(s[..n], ok);
      forall x | x in init
        ensures FirstIndexOf(s, x) == FirstIndexOf(s[..n], x)
      {
        FirstIndexOfPrefix(s, n, x);
      }
      forall i, j | 0 <= i < j < |r|
        ensures FirstIndexOf(s, r[i]) < FirstIndexOf(s, r[j])
      {
        assert r[i] in init;
        if j < |init| {
          assert r[j] in init;
        } else {
          assert r[j] == s[n];
          assert FirstIndexOf(s, s[n]) == n;
        }
      }
    }
  }

  /** The rows whose peptide matches the pattern, in order. */
  function KeepValid(s: seq<string>): (r: seq<string>)
    ensures forall x :: x in r <==> x in s && IsValidPeptide(x)
    ensures Distinct(s) ==> Distinct(r)
    ensures Distinct(s) ==> forall i, j :: 0 <= i < j < |r| ==> FirstIndexOf(s, r[i]) < FirstIndexOf(s, r[j])
  {
    if Distinct(s) then
      FilterKeepsOrder(s, IsValidPeptide);
      Filter(s, IsValidPeptide)
    else
      Filter(s, IsValidPeptide)
  }

  /** `nrows=max_peptides` when reading the CSV. */
  function Taken(rows: seq<string>, maxPeptides: Option<nat>): (r: seq<string>)
    ensures r <= rows
    ensures maxPeptides.None? ==> r == rows
    ensures maxPeptides.Some? ==> |r| == Min(maxPeptides.value, |rows|)
  {
    match maxPeptides
    case None => rows
    case Some(m) => rows[..Min(m, |rows|)]
  }

  /** Filtering a de-duplicated list keeps the order of first appearance in the original. */
  lemma KeepValidKeepsFirstOrder(taken: seq<string>)
    ensures var valid := KeepValid(DropDuplicates(taken));
      forall i, j :: 0 <= i < j < |valid| ==>
        FirstIndexOf(taken, valid[i]) < FirstIndexOf(taken, valid[j])
  {
  }

  /** The run's peptide list: the first `maxPeptides` rows, duplicates dropped keeping
      the first occurrence, filtered to the pattern, then `unique()`. The result has no
      repeats, holds exactly the valid peptides among the rows read, and keeps them in
      the order in which they first appear. */
  function NormalizePeptides(rows: seq<string>, maxPeptides: Option<nat>): (r: seq<string>)
    ensures Distinct(r)
    ensures forall p :: p in r <==> p in Taken(rows, maxPeptides) && IsValidPeptide(p)
    ensures forall i, j :: 0 <= i < j < |r| ==>
              FirstIndexOf(Taken(rows, maxPeptides), r[i]) < FirstIndexOf(Taken(rows, maxPeptides), r[j])
  {
    var valid := KeepValid(DropDuplicates(Taken(rows, maxPeptides)));
    KeepValidKeepsFirstOrder(Taken(rows, maxPeptides));
    DropDuplicatesOfDistinct(valid);
    DropDuplicates(valid)
  }

  // ---------------------------------------------------------------------------
  // Kinds and the manifest
  // ---------------------------------------------------------------------------

  /** `PREDICTOR_TO_COLS[predictor]`: the kinds of value each predictor produces. */
  function KindsOf(predictor: string): (r: Result<seq<string>>)
    ensures r.Ok? <==> predictor == "mhcflurry" || predictor == "netmhcpan4"
    ensures r.Ok? ==> |r.value| > 0 && r.value[0] == "affinity" && Distinct(r.value)
    ensures r.Ok? ==> forall k :: k in r.value ==> ' ' !in k
  {
    if predictor == "mhcflurry" then Ok(["affinity"])
    else if predictor == "netmhcpan4" then Ok(["affinity", "percentile_rank", "elution_score"])
    else Err(UnknownPredictor(predictor))
  }

  datatype ManifestRow = ManifestRow(allele: string, kind: string, col: string, path: string)

  /** The column id `allele + " " + kind`. */
  function ColumnName(allele: string, kind: string): string {
    allele + " " + kind
  }

  /** `s.replace("*", "").replace(" ", ".")`, character by character. */
  function Sanitize(s: string): string {
    if s == [] then []
    else if s[0] == '*' then Sanitize(s[1..])
    else [if s[0] == ' ' then '.' else s[0]] + Sanitize(s[1..])
  }

  /** Cleaning leaves no `*` and no space, and never lengthens. */
  lemma {:induction false} SanitizeClean(s: string)
    ensures '*' !in Sanitize(s) && ' ' !in Sanitize(s)
    ensures |Sanitize(s)| <= |s|
  {
    if s != [] {
      SanitizeClean(s[1..]);
    }
  }

  lemma {:induction false} SanitizeConcat(a: string, b: string)
    ensures Sanitize(a + b) == Sanitize(a) + Sanitize(b)
  {
    if a == [] {
      assert a + b == b;
    } else {
      assert (a + b)[1..] == a[1..] + b;
      SanitizeConcat(a[1..], b);
    }
  }

  /** Strings with no `*` and no space are left as they are. */
  lemma {:induction false} SanitizeKeepsPlain(s: string)
    requires '*' !in s && ' ' !in s
    ensures Sanitize(s) == s
  {
    if s != [] {
      assert s == [s[0]] + s[1..];
      SanitizeKeepsPlain(s[1..]);
    }
  }

  /** The column file name: `col.replace("*", "").replace(" ", ".") + ".npz"`. */
  function PathOf(col: string): string {
    Sanitize(col) + ".npz"
  }

  /** A path holds no `*` and no space and ends in `.npz`. */
  lemma PathOfShape(col: string)
    ensures '*' !in PathOf(col) && ' ' !in PathOf(col)
    ensures |PathOf(col)| >= 4 && PathOf(col)[|PathOf(col)| - 4..] == ".npz"
  {
    SanitizeClean(col);
  }

  /** The path of a column is the allele with `*` and spaces cleaned, a dot, the kind
      cleaned the same way, and `.npz`. */
  lemma PathLayout(allele: string, kind: string)
    ensures PathOf(ColumnName(allele, kind)) == Sanitize(allele) + "." + Sanitize(kind) + ".npz"
  {
    SanitizeConcat(allele + " ", kind);
    SanitizeConcat(allele, " ");
    assert Sanitize(" ") == ".";
  }

  /** Cleaning can map two different columns to one file: `HLA-A*02:01` and
      `HLA-A02:01` share a path, so the later write would replace the earlier one. */
  lemma PathsCanCollide()
    ensures ColumnName("HLA-A*02:01", "affinity") != ColumnName("HLA-A02:01", "affinity")
    ensures PathOf(ColumnName("HLA-A*02:01", "affinity")) == PathOf(ColumnName("HLA-A02:01", "affinity"))
  {
    var c1 := ColumnName("HLA-A*02:01", "affinity");
    var c2 := ColumnName("HLA-A02:01", "affinity");
    assert c1[5] != c2[5];
    assert c1 == "HLA-A" + "*02:01 affinity";
    assert c2 == "HLA-A" + "02:01 affinity";
    SanitizeConcat("HLA-A", "*02:01 affinity");
    SanitizeConcat("HLA-A", "02:01 affinity");
    assert "*02:01 affinity"[1..] == "02:01 affinity";
  }

  function Row(allele: string, kind: string): ManifestRow {
    ManifestRow(allele, kind, ColumnName(allele, kind), PathOf(ColumnName(allele, kind)))
  }

  function RowsFor(allele: string, kinds: seq<string>): (rs: seq<ManifestRow>)
    ensures |rs| == |kinds|
    ensures forall j :: 0 <= j < |kinds| ==> rs[j] == Row(allele, kinds[j])
  {
    seq(|kinds|, j requires 0 <= j < |kinds| => Row(allele, kinds[j]))
  }

  /** The manifest: alleles in the outer loop, the predictor's kinds in the inner one;
      one row per pair, each row's column id and path derived from its allele and kind. */
  function BuildManifest(alleles: seq<string>, kinds: seq<string>): seq<ManifestRow> {
    if alleles == [] then []
    else RowsFor(alleles[0], kinds) + BuildManifest(alleles[1..], kinds)
  }

  /** Every manifest row is the row of one of the given alleles with one of the kinds. */
  lemma {:induction false} ManifestOnlyRows(alleles: seq<string>, kinds: seq<string>, r: ManifestRow)
    requires r in BuildManifest(alleles, kinds)
    ensures r.allele in alleles && r.kind in kinds && r == Row(r.allele, r.kind)
  {
    var head := RowsFor(alleles[0], kinds);
    var rest := BuildManifest(alleles[1..], kinds);
    assert BuildManifest(alleles, kinds) == head + rest;
    if r in head {
      var j :| 0 <= j < |kinds| && head[j] == r;
    } else {
      ManifestOnlyRows(alleles[1..], kinds, r);
    }
  }

  /** One row per (allele, kind) pair. */
  lemma {:induction false} ManifestSize(alleles: seq<string>, kinds: seq<string>)
    ensures |BuildManifest(alleles, kinds)| == |alleles| * |kinds|
  {
    if alleles != [] {
      ManifestSize(alleles[1..], kinds);
      assert |alleles| * |kinds| == |kinds| + |alleles[1..]| * |kinds|;
    }
  }

  /** Every (allele, kind) pair has its row in the manifest. */
  lemma {:induction false} RowInManifest(alleles: seq<string>, kinds: seq<string>, i: nat, j: nat)
    requires i < |alleles| && j < |kinds|
    ensures Row(alleles[i], kinds[j]) in BuildManifest(alleles, kinds)
  {
    var head := RowsFor(alleles[0], kinds);
    if i == 0 {
      assert head[j] in head;
    } else {
      RowInManifest(alleles[1..], kinds, i - 1, j);
    }
  }

  /** Row `i * |kinds| + j` of the manifest is allele `i` with kind `j`. */
  lemma ManifestLayout(alleles: seq<string>, kinds: seq<string>, i: nat, j: nat)
    requires i < |alleles| && j < |kinds|
    ensures var m := BuildManifest(alleles, kinds);
      i * |kinds| + j < |m| && m[i * |kinds| + j] == Row(alleles[i], kinds[j])
  {
    var m := BuildManifest(alleles, kinds);
    OffsetIsProduct(i, |kinds|);
    RowAt(alleles, kinds, i, j);
    ManifestOnlyRows(alleles, kinds, m[i * |kinds| + j]);
  }

  lemma {:induction false} RowAt(alleles: seq<string>, kinds: seq<string>, i: nat, j: nat)
    requires i < |alleles| && j < |kinds|
    ensures Offset(i, |kinds|) + j < |BuildManifest(alleles, kinds)|
    ensures BuildManifest(alleles, kinds)[Offset(i, |kinds|) + j].allele == alleles[i]
    ensures BuildManifest(alleles, kinds)[Offset(i, |kinds|) + j].kind == kinds[j]
  {
    var m := BuildManifest(alleles, kinds);
    var head := RowsFor(alleles[0], kinds);
    var rest := BuildManifest(alleles[1..], kinds);
    assert m == head + rest;
    if i == 0 {
      assert Offset(i, |kinds|) == 0;
      assert m[j] == head[j] == Row(alleles[0], kinds[j]);
      assert m[j].kind == kinds[j];
    } else {
      var o := Offset(i - 1, |kinds|);
      assert Offset(i, |kinds|) == |head| + o;
      RowAt(alleles[1..], kinds, i - 1, j);
      var r := rest[o + j];
      assert r.allele == alleles[1..][i - 1] == alleles[i];
      assert r.kind == kinds[j];
      assert m[|head| + o + j] == r;
    }
  }

  /** Kinds never contain a space, so a column id splits back into allele and kind. */
  lemma ColumnNameInjective(a1: string, k1: string, a2: string, k2: string)
    requires ' ' !in k1 && ' ' !in k2
    requires ColumnName(a1, k1) == ColumnName(a2, k2)
    ensures a1 == a2 && k1 == k2
  {
    var c := ColumnName(a1, k1);
    LastSpace(a1, k1);
    LastSpace(a2, k2);
    assert |a1| == |a2|;
    assert a1 == c[..|a1|] == a2;
    assert k1 == c[|a1| + 1..] == k2;
  }

  /** The separating space is the last space of a column id. */
  lemma LastSpace(a: string, k: string)
    requires ' ' !in k
    ensures ColumnName(a, k)[|a|] == ' '
    ensures forall q :: |a| < q < |ColumnName(a, k)| ==> ColumnName(a, k)[q] != ' '
  {
  }

  /** With distinct alleles and distinct kinds, every manifest row names a different column. */
  lemma {:induction false} ManifestColumnsDistinct(alleles: seq<string>, kinds: seq<string>)
    requires Distinct(alleles) && Distinct(kinds) && forall k :: k in kinds ==> ' ' !in k
    ensures forall p, q :: 0 <= p < q < |BuildManifest(alleles, kinds)| ==>
              BuildManifest(alleles, kinds)[p].col != BuildManifest(alleles, kinds)[q].col
  {
    var m := BuildManifest(alleles, kinds);
    if alleles != [] {
      var rest := BuildManifest(alleles[1..], kinds);
      var head := RowsFor(alleles[0], kinds);
      assert m == head + rest;
      ManifestColumnsDistinct(alleles[1..], kinds);
      forall p, q | 0 <= p < q < |m|
        ensures m[p].col != m[q].col
      {
        if q < |head| {
          assert m[p] == Row(alleles[0], kinds[p]) && m[q] == Row(alleles[0], kinds[q]);
          if m[p].col == m[q].col {
            ColumnNameInjective(alleles[0], kinds[p], alleles[0], kinds[q]);
          }
        } else if p < |head| {
          var r := rest[q - |head|];
          assert m[q] == r && r in rest;
          ManifestOnlyRows(alleles[1..], kinds, r);
          assert m[p] == Row(alleles[0], kinds[p]);
          if m[p].col == r.col {
            ColumnNameInjective(alleles[0], kinds[p], r.allele, r.kind);
          }
        } else {
          assert m[p] == rest[p - |head|] && m[q] == rest[q - |head|];
        }
      }
    }
  }
}
