/** A prediction directory and the two ways the program touches it: `load_results`
    (run_predictors.py:90-128), applied to each reuse directory in turn (:233-241), and
    the final write of every column (:349-352, :369-371). Files are abstract values:
    a directory is its peptide list, its manifest and the array stored under each path. */
module Store {
  import opened Common
  import opened Inputs
  import opened Frames

  /** One line of a stored `alleles.csv`; `kind` and `col` mean something only when the
      file has that column. */
  datatype StoredRow = StoredRow(allele: string, kind: string, col: string, path: string)

  datatype StoredManifest = StoredManifest(hasKind: bool, hasCol: bool, rows: seq<StoredRow>)

  /** `peptides.csv`, `alleles.csv` and the array stored in each column file. */
  datatype Dir = Dir(peptides: seq<string>, manifest: StoredManifest, files: map<string, seq<Cell>>)

  /** A manifest as the current code writes it: every column present. */
  function Save(rows: seq<ManifestRow>): (m: StoredManifest)
    ensures m.hasKind && m.hasCol && |m.rows| == |rows|
  {
    StoredManifest(true, true,
      seq(|rows|, i requires 0 <= i < |rows| =>
        StoredRow(rows[i].allele, rows[i].kind, rows[i].col, rows[i].path)))
  }

  function UpgradeRow(m: StoredManifest, r: StoredRow): ManifestRow {
    var kind := if m.hasKind then r.kind else "affinity";
    var col := if m.hasCol then r.col else ColumnName(r.allele, kind);
    ManifestRow(r.allele, kind, col, r.path)
  }

  /** The old-style adjustments: a manifest without `kind` is all affinity, and one
      without `col` gets `allele + " " + kind`. */
  function Upgrade(m: StoredManifest): (rows: seq<ManifestRow>)
    ensures |rows| == |m.rows|
    ensures forall i :: 0 <= i < |rows| ==> rows[i] == UpgradeRow(m, m.rows[i])
  {
    seq(|m.rows|, i requires 0 <= i < |m.rows| => UpgradeRow(m, m.rows[i]))
  }

  /** A manifest written by the current code reads back unchanged. */
  lemma UpgradeSaved(rows: seq<ManifestRow>)
    ensures Upgrade(Save(rows)) == rows
  {
  }

  /** An old-style manifest (no `kind`, no `col`) reads back as the rows the current code
      would build for kind `affinity`, at the paths it lists. */
  lemma UpgradeOldStyle(m: StoredManifest, i: nat)
    requires !m.hasKind && !m.hasCol && i < |m.rows|
    ensures Upgrade(m)[i] == Row(m.rows[i].allele, "affinity").(path := m.rows[i].path)
  {
  }

  /** A manifest missing only one of the two columns: without `col` each row gets the
      id and keeps the stored path; without `kind` each row is an affinity row that keeps
      its stored id and path. */
  lemma UpgradeOneMissing(m: StoredManifest, i: nat)
    requires i < |m.rows|
    ensures m.hasKind && !m.hasCol ==>
              Upgrade(m)[i] == Row(m.rows[i].allele, m.rows[i].kind).(path := m.rows[i].path)
    ensures !m.hasKind && m.hasCol ==>
              Upgrade(m)[i].kind == "affinity" && Upgrade(m)[i].col == m.rows[i].col
              && Upgrade(m)[i].allele == m.rows[i].allele && Upgrade(m)[i].path == m.rows[i].path
  {
  }

  function Cols(rows: seq<ManifestRow>): (cs: seq<string>)
    ensures |cs| == |rows|
    ensures forall i :: 0 <= i < |rows| ==> cs[i] == rows[i].col
  {
    seq(|rows|, i requires 0 <= i < |rows| => rows[i].col)
  }

  function Paths(rows: seq<ManifestRow>): (ps: seq<string>)
    ensures |ps| == |rows|
    ensures forall i :: 0 <= i < |rows| ==> ps[i] == rows[i].path
  {
    seq(|rows|, i requires 0 <= i < |rows| => rows[i].path)
  }

  /** The last manifest row naming column `c`: the one whose file ends up in `c`. */
  function RowFor(rows: seq<ManifestRow>, c: string): (r: ManifestRow)
    requires c in Cols(rows)
    ensures r in rows && r.col == c
  {
    rows[LastIndexOf(Cols(rows), c)]
  }

  lemma RowForSnoc(rows: seq<ManifestRow>, row: ManifestRow, c: string)
    requires c in Cols(rows + [row])
    ensures c == row.col ==> RowFor(rows + [row], c) == row
    ensures c != row.col ==> c in Cols(rows) && RowFor(rows + [row], c) == RowFor(rows, c)
  {
    assert Cols(rows + [row]) == Cols(rows) + [row.col];
  }

  /** Which row supplies a column, seen from the last row of a non-empty list. */
  lemma RowForLast(rows: seq<ManifestRow>, c: string)
    requires rows != []
    ensures c in Cols(rows) <==> c == rows[|rows| - 1].col || c in Cols(rows[..|rows| - 1])
    ensures c in Cols(rows) && c == rows[|rows| - 1].col ==> RowFor(rows, c) == rows[|rows| - 1]
    ensures c in Cols(rows) && c != rows[|rows| - 1].col ==> RowFor(rows, c) == RowFor(rows[..|rows| - 1], c)
  {
    var n := |rows| - 1;
    assert rows == rows[..n] + [rows[n]];
    assert Cols(rows) == Cols(rows[..n]) + [rows[n].col];
    if c in Cols(rows) {
      RowForSnoc(rows[..n], rows[n], c);
    }
  }

  /** A file that exists and holds one value per peptide of the directory. */
  predicate Readable(files: map<string, seq<Cell>>, path: string, n: nat) {
    path in files && |files[path]| == n
  }

  function Count(keep: seq<bool>): (n: nat)
    ensures n <= |keep|
  {
    if keep == [] then 0 else Count(keep[..|keep| - 1]) + (if keep[|keep| - 1] then 1 else 0)
  }

  /** Boolean indexing `s[keep]`: the elements at the positions `keep` marks, in order. */
  function Mask<T>(s: seq<T>, keep: seq<bool>): (r: seq<T>)
    requires |s| == |keep|
    ensures |r| == Count(keep)
    ensures forall x :: x in r ==> x in s
  {
    if s == [] then []
    else
      var n := |s| - 1;
      Mask(s[..n], keep[..n]) + (if keep[n] then [s[n]] else [])
  }

  /** `peptides.isin(index)`. */
  function InTarget(peptides: seq<string>, index: seq<string>): (keep: seq<bool>)
    ensures |keep| == |peptides|
    ensures forall i :: 0 <= i < |peptides| ==> (keep[i] <==> peptides[i] in index)
  {
    seq(|peptides|, i requires 0 <= i < |peptides| => peptides[i] in index)
  }

  /** Masking by membership keeps a peptide exactly when it is in the target. */
  lemma {:induction false} MaskMember(peptides: seq<string>, keep: seq<bool>, index: seq<string>, p: string)
    requires |keep| == |peptides|
    requires forall i :: 0 <= i < |peptides| ==> (keep[i] <==> peptides[i] in index)
    ensures p in Mask(peptides, keep) <==> p in peptides && p in index
  {
    if peptides != [] {
      var n := |peptides| - 1;
      MaskMember(peptides[..n], keep[..n], index, p);
      assert peptides == peptides[..n] + [peptides[n]];
    }
  }

  /** When a peptide's last occurrence is kept, the value masked alongside its last
      kept occurrence is the value at its last occurrence. */
  lemma {:induction false} MaskLastKept<V>(peptides: seq<string>, keep: seq<bool>, values: seq<V>, p: string)
    requires |keep| == |peptides| == |values|
    requires p in peptides && keep[LastIndexOf(peptides, p)]
    ensures p in Mask(peptides, keep)
    ensures Mask(values, keep)[LastIndexOf(Mask(peptides, keep), p)] == values[LastIndexOf(peptides, p)]
  {
    var n := |peptides| - 1;
    var front := Mask(peptides[..n], keep[..n]);
    var vfront := Mask(values[..n], keep[..n]);
    assert peptides == peptides[..n] + [peptides[n]];
    LastIndexOfSnoc(peptides[..n], peptides[n], p);
    if p == peptides[n] {
      assert Mask(peptides, keep) == front + [p];
      assert Mask(values, keep) == vfront + [values[n]];
      LastIndexOfSnoc(front, p, p);
    } else {
      MaskLastKept(peptides[..n], keep[..n], values[..n], p);
      if keep[n] {
        assert Mask(peptides, keep) == front + [peptides[n]];
        assert Mask(values, keep) == vfront + [values[n]];
        LastIndexOfSnoc(front, peptides[n], p);
      } else {
        assert Mask(peptides, keep) == front;
        assert Mask(values, keep) == vfront;
      }
    }
  }

  /** The value masked alongside a kept peptide's last occurrence is the value at its
      last occurrence. */
  lemma MaskLast<V>(peptides: seq<string>, keep: seq<bool>, index: seq<string>, values: seq<V>, p: string)
    requires |keep| == |peptides| == |values|
    requires forall i :: 0 <= i < |peptides| ==> (keep[i] <==> peptides[i] in index)
    requires p in peptides && p in index
    ensures p in Mask(peptides, keep)
    ensures Mask(values, keep)[LastIndexOf(Mask(peptides, keep), p)] == values[LastIndexOf(peptides, p)]
  {
    MaskLastKept(peptides, keep, values, p);
  }

  /** The value array of a manifest row after the optional row mask. */
  function Masked(v: seq<Cell>, keep: Option<seq<bool>>): (r: seq<Cell>)
    requires keep.Some? ==> |v| == |keep.value|
    ensures keep.None? ==> r == v
    ensures keep.Some? ==> r == Mask(v, keep.value)
  {
    match keep
    case None => v
    case Some(k) => Mask(v, k)
  }

  /** The loop over manifest rows in `load_results`: open each row's file, mask it, and
      assign it to that row's column at the peptides being transferred. It fails as soon
      as a file is missing or does not hold one value per stored peptide; otherwise the
      table keeps its shape (what lands in each cell is `LoadRowsContent`). */
  function LoadRows(f: Frame, rows: seq<ManifestRow>, files: map<string, seq<Cell>>,
                    peptides: seq<string>, keep: Option<seq<bool>>, labels: seq<string>): (r: Result<Frame>)
    requires keep.Some? ==> |keep.value| == |peptides| && labels == Mask(peptides, keep.value)
    requires keep.None? ==> labels == peptides
    requires forall p :: p in labels ==> p in f.index
    requires forall row :: row in rows ==> row.col in f.columns
    ensures r.Ok? <==> forall row :: row in rows ==> Readable(files, row.path, |peptides|)
    ensures r.Ok? ==> r.value.index == f.index && r.value.columns == f.columns
    decreases |rows|
  {
    if rows == [] then Ok(f)
    else
      var n := |rows| - 1;
      var row := rows[n];
      assert rows == rows[..n] + [row];
      var g :- LoadRows(f, rows[..n], files, peptides, keep, labels);
      if row.path !in files then Err(MissingFile(row.path))
      else if |files[row.path]| != |peptides| then Err(LengthMismatch)
      else Assign(g, labels, row.col, Masked(files[row.path], keep))
  }

  /** One turn of the loop, seen at one cell: a successful run over `rows` is the run
      over all but the last row, followed by the assignment of that row's masked file. */
  lemma LoadRowsStep(f: Frame, rows: seq<ManifestRow>, files: map<string, seq<Cell>>,
                     peptides: seq<string>, keep: Option<seq<bool>>, labels: seq<string>,
                     p: string, c: string)
    requires keep.Some? ==> |keep.value| == |peptides| && labels == Mask(peptides, keep.value)
    requires keep.None? ==> labels == peptides
    requires forall p :: p in labels ==> p in f.index
    requires forall row :: row in rows ==> row.col in f.columns
    requires rows != [] && LoadRows(f, rows, files, peptides, keep, labels).Ok?
    ensures forall row :: row in rows[..|rows| - 1] ==> row.col in f.columns
    ensures LoadRows(f, rows[..|rows| - 1], files, peptides, keep, labels).Ok?
    ensures Readable(files, rows[|rows| - 1].path, |peptides|)
    ensures |Masked(files[rows[|rows| - 1].path], keep)| == |labels|
    ensures LoadRows(f, rows, files, peptides, keep, labels).value.Get(p, c)
         == if c == rows[|rows| - 1].col && p in labels
            then Masked(files[rows[|rows| - 1].path], keep)[LastIndexOf(labels, p)]
            else LoadRows(f, rows[..|rows| - 1], files, peptides, keep, labels).value.Get(p, c)
  {
    assert rows == rows[..|rows| - 1] + [rows[|rows| - 1]];
  }

  /** After the loop each transferred peptide of each listed column holds the value the
      last row naming that column gives it, and every other cell is as before. */
  lemma {:induction false} LoadRowsContent(f: Frame, rows: seq<ManifestRow>, files: map<string, seq<Cell>>,
                                           peptides: seq<string>, keep: Option<seq<bool>>, labels: seq<string>,
                                           p: string, c: string)
    requires keep.Some? ==> |keep.value| == |peptides| && labels == Mask(peptides, keep.value)
    requires keep.None? ==> labels == peptides
    requires forall p :: p in labels ==> p in f.index
    requires forall row :: row in rows ==> row.col in f.columns
    requires LoadRows(f, rows, files, peptides, keep, labels).Ok?
    ensures c in Cols(rows) ==> RowFor(rows, c).path in files
    ensures LoadRows(f, rows, files, peptides, keep, labels).value.Get(p, c) ==
              if c in Cols(rows) && p in labels
              then Masked(files[RowFor(rows, c).path], keep)[LastIndexOf(labels, p)]
              else f.Get(p, c)
  {
    if rows != [] {
      var n := |rows| - 1;
      var row := rows[n];
      LoadRowsStep(f, rows, files, peptides, keep, labels, p, c);
      LoadRowsContent(f, rows[..n], files, peptides, keep, labels, p, c);
      RowForLast(rows, c);
    }
  }

  /** Columns of the stored manifest that the target also has (`col.isin(columns)`). */
  function KeepCols(rows: seq<ManifestRow>, cols: seq<string>): (r: seq<ManifestRow>)
    ensures forall row :: row in r <==> row in rows && row.col in cols
  {
    if rows == [] then []
    else
      var n := |rows| - 1;
      assert rows == rows[..n] + [rows[n]];
      KeepCols(rows[..n], cols) + (if rows[n].col in cols then [rows[n]] else [])
  }

  /** Dropping columns the target lacks does not change which row supplies a column it
      has. */
  lemma {:induction false} KeepColsRowFor(rows: seq<ManifestRow>, cols: seq<string>, c: string)
    requires c in cols
    ensures c in Cols(KeepCols(rows, cols)) <==> c in Cols(rows)
    ensures c in Cols(rows) ==> RowFor(KeepCols(rows, cols), c) == RowFor(rows, c)
  {
    if rows != [] {
      var n := |rows| - 1;
      var row := rows[n];
      var front := KeepCols(rows[..n], cols);
      KeepColsRowFor(rows[..n], cols, c);
      RowForLast(rows, c);
      if row.col in cols {
        var kept := front + [row];
        assert KeepCols(rows, cols) == kept;
        assert kept[..|kept| - 1] == front;
        RowForLast(kept, c);
      } else {
        assert KeepCols(rows, cols) == front;
      }
    }
  }

  /** `load_results(dirname)` with no target: a table over the stored peptides and
      columns, failing exactly when a listed file is missing or has the wrong length. */
  function LoadFresh(d: Dir): (r: Result<Frame>)
    ensures r.Ok? <==> forall row :: row in Upgrade(d.manifest) ==> Readable(d.files, row.path, |d.peptides|)
    ensures r.Ok? ==> r.value.index == d.peptides && r.value.columns == Cols(Upgrade(d.manifest))
  {
    var rows := Upgrade(d.manifest);
    ColsMember(rows);
    LoadRows(Empty(d.peptides, Cols(rows)), rows, d.files, d.peptides, None, d.peptides)
  }

  lemma ColsMember(rows: seq<ManifestRow>)
    ensures forall row :: row in rows ==> row.col in Cols(rows)
  {
  }

  /** A freshly loaded table holds exactly what the files hold, NaN elsewhere. */
  lemma LoadFreshContent(d: Dir, p: string, c: string)
    requires LoadFresh(d).Ok?
    ensures LoadFresh(d).value.Get(p, c) ==
              if c in Cols(Upgrade(d.manifest)) && p in d.peptides
              then d.files[RowFor(Upgrade(d.manifest), c).path][LastIndexOf(d.peptides, p)]
              else None
  {
    var rows := Upgrade(d.manifest);
    ColsMember(rows);
    LoadRowsContent(Empty(d.peptides, Cols(rows)), rows, d.files, d.peptides, None, d.peptides, p, c);
  }

  /** Whether loading `d` into `t` transfers cell `(p, c)`: the column is in both
      manifests and the peptide in both peptide lists. */
  predicate Covers(d: Dir, t: Frame, p: string, c: string) {
    c in t.columns && c in Cols(Upgrade(d.manifest)) && p in d.peptides && p in t.index
  }

  /** `load_results(dirname, result_df)`: merging a stored result set into the target by
      peptide and column identity. The target keeps its shape; a covered cell takes the
      stored value at the peptide's (last) stored position from the last row naming
      that column; every other cell is untouched. Only files of columns the target
      has are read. */
  function LoadInto(d: Dir, t: Frame): (r: Result<Frame>)
    ensures r.Ok? <==> forall row :: row in Upgrade(d.manifest) && row.col in t.columns ==>
                         Readable(d.files, row.path, |d.peptides|)
    ensures r.Ok? ==> r.value.index == t.index && r.value.columns == t.columns
    ensures r.Ok? ==> forall p, c :: r.value.Get(p, c) ==
                        if Covers(d, t, p, c)
                        then d.files[RowFor(Upgrade(d.manifest), c).path][LastIndexOf(d.peptides, p)]
                        else t.Get(p, c)
  {
    var rows := Upgrade(d.manifest);
    var used := KeepCols(rows, t.columns);
    var keep := InTarget(d.peptides, t.index);
    var labels := Mask(d.peptides, keep);
    assert forall p :: p in labels ==> p in t.index by {
      forall p | p in labels
        ensures p in t.index
      {
        MaskMember(d.peptides, keep, t.index, p);
      }
    }
    var r := LoadRows(t, used, d.files, d.peptides, Some(keep), labels);
    if r.Ok? then
      forall p, c
        ensures r.value.Get(p, c) ==
                if Covers(d, t, p, c)
                then d.files[RowFor(rows, c).path][LastIndexOf(d.peptides, p)]
                else t.Get(p, c)
      {
        LoadRowsContent(t, used, d.files, d.peptides, Some(keep), labels, p, c);
        if c in t.columns {
          KeepColsRowFor(rows, t.columns, c);
          MaskMember(d.peptides, keep, t.index, p);
          if c in Cols(rows) && p in d.peptides && p in t.index {
            var v := d.files[RowFor(rows, c).path];
            assert RowFor(rows, c) in used;
            MaskLast(d.peptides, keep, t.index, v, p);
          }
        }
      }
      r
    else
      r
  }

  /** One entry of the reuse list: an empty string or a missing directory is skipped. */
  datatype ReuseSource = Blank | Absent | Present(dir: Dir)

  /** Every file `load_results` would read from `d` for a table with these columns
      exists and holds one value per stored peptide. */
  predicate Loadable(d: Dir, columns: seq<string>) {
    forall row :: row in Upgrade(d.manifest) && row.col in columns ==> Readable(d.files, row.path, |d.peptides|)
  }

  /** The reuse directories loaded into the result table one after another. The
      sequence fails exactly when some present directory lacks a file it would read,
      or holds one of the wrong length; the table keeps its shape. */
  function ApplyReuse(t: Frame, srcs: seq<ReuseSource>): (r: Result<Frame>)
    ensures r.Ok? <==> forall k :: 0 <= k < |srcs| && srcs[k].Present? ==> Loadable(srcs[k].dir, t.columns)
    ensures r.Ok? ==> r.value.index == t.index && r.value.columns == t.columns
    decreases |srcs|
  {
    if srcs == [] then Ok(t)
    else
      var n := |srcs| - 1;
      var g :- ApplyReuse(t, srcs[..n]);
      match srcs[n]
      case Present(d) => LoadInto(d, g)
      case _ => Ok(g)
  }

  /** The last directory loaded wins on every cell it covers, whatever came before. */
  lemma LaterSourceWins(t: Frame, srcs: seq<ReuseSource>, d: Dir, p: string, c: string)
    requires ApplyReuse(t, srcs + [Present(d)]).Ok?
    requires Covers(d, t, p, c)
    ensures ApplyReuse(t, srcs + [Present(d)]).value.Get(p, c)
         == d.files[RowFor(Upgrade(d.manifest), c).path][LastIndexOf(d.peptides, p)]
  {
    assert (srcs + [Present(d)])[..|srcs|] == srcs;
  }

  /** The last entry, seen at one cell: a present directory covering the cell decides
      it, and otherwise the cell is as the earlier entries left it. */
  lemma ReuseLastCell(t: Frame, srcs: seq<ReuseSource>, p: string, c: string)
    requires srcs != [] && ApplyReuse(t, srcs).Ok?
    ensures ApplyReuse(t, srcs[..|srcs| - 1]).Ok?
    ensures ApplyReuse(t, srcs).value.Get(p, c)
         == if srcs[|srcs| - 1].Present? && Covers(srcs[|srcs| - 1].dir, t, p, c)
            then srcs[|srcs| - 1].dir.files[RowFor(Upgrade(srcs[|srcs| - 1].dir.manifest), c).path]
                                           [LastIndexOf(srcs[|srcs| - 1].dir.peptides, p)]
            else ApplyReuse(t, srcs[..|srcs| - 1]).value.Get(p, c)
  {
  }

  /** Entries after the first `k` that do not cover a cell leave it as the first `k`
      left it. */
  lemma {:induction false} LaterUncoveringKeep(t: Frame, srcs: seq<ReuseSource>, k: nat, p: string, c: string)
    requires k <= |srcs| && ApplyReuse(t, srcs).Ok?
    requires forall j :: k <= j < |srcs| && srcs[j].Present? ==> !Covers(srcs[j].dir, t, p, c)
    ensures ApplyReuse(t, srcs[..k]).Ok?
    ensures ApplyReuse(t, srcs).value.Get(p, c) == ApplyReuse(t, srcs[..k]).value.Get(p, c)
    decreases |srcs|
  {
    if k < |srcs| {
      var n := |srcs| - 1;
      ReuseLastCell(t, srcs, p, c);
      assert srcs[..n][..k] == srcs[..k];
      LaterUncoveringKeep(t, srcs[..n], k, p, c);
    } else {
      assert srcs[..k] == srcs;
    }
  }

  /** The last present directory covering a cell decides it, whatever the entries
      before and after it hold. */
  lemma LastCoveringDecides(t: Frame, srcs: seq<ReuseSource>, k: nat, p: string, c: string)
    requires k < |srcs| && srcs[k].Present? && Covers(srcs[k].dir, t, p, c)
    requires forall j :: k < j < |srcs| && srcs[j].Present? ==> !Covers(srcs[j].dir, t, p, c)
    requires ApplyReuse(t, srcs).Ok?
    ensures ApplyReuse(t, srcs).value.Get(p, c)
         == srcs[k].dir.files[RowFor(Upgrade(srcs[k].dir.manifest), c).path][LastIndexOf(srcs[k].dir.peptides, p)]
  {
    LaterUncoveringKeep(t, srcs, k + 1, p, c);
    assert srcs[..k + 1][k] == srcs[k];
    ReuseLastCell(t, srcs[..k + 1], p, c);
  }

  /** A cell that no loaded directory covers keeps its value; in particular blank and
      absent entries change nothing. */
  lemma {:induction false} UncoveredUnchanged(t: Frame, srcs: seq<ReuseSource>, p: string, c: string)
    requires ApplyReuse(t, srcs).Ok?
    requires forall k :: 0 <= k < |srcs| && srcs[k].Present? ==> !Covers(srcs[k].dir, t, p, c)
    ensures ApplyReuse(t, srcs).value.Get(p, c) == t.Get(p, c)
  {
    if srcs != [] {
      var n := |srcs| - 1;
      UncoveredUnchanged(t, srcs[..n], p, c);
    }
  }

  /** The final flush: each column of the table written to the manifest's path for it
      (`col_to_filename[col]`, a `KeyError` for a column the manifest lacks). A later
      column whose path coincides overwrites the earlier file. */
  function WriteColumns(f: Frame, manifest: seq<ManifestRow>, cols: seq<string>): (r: Result<map<string, seq<Cell>>>)
    ensures r.Ok? <==> forall c :: c in cols ==> c in Cols(manifest)
    ensures r.Ok? ==> forall c :: c in cols ==> RowFor(manifest, c).path in r.value
    decreases |cols|
  {
    if cols == [] then Ok(map[])
    else
      var n := |cols| - 1;
      assert cols == cols[..n] + [cols[n]];
      var files :- WriteColumns(f, manifest, cols[..n]);
      if cols[n] !in Cols(manifest) then Err(UnknownColumn(cols[n]))
      else Ok(files[RowFor(manifest, cols[n]).path := Column(f, cols[n])])
  }

  /** Only the paths of written columns exist in the output. */
  lemma {:induction false} WriteColumnsPaths(f: Frame, manifest: seq<ManifestRow>, cols: seq<string>, path: string)
    requires WriteColumns(f, manifest, cols).Ok? && path in WriteColumns(f, manifest, cols).value
    ensures exists c :: c in cols && c in Cols(manifest) && RowFor(manifest, c).path == path
  {
    var n := |cols| - 1;
    var last := cols[n];
    assert cols == cols[..n] + [last];
    var files := WriteColumns(f, manifest, cols[..n]);
    assert files.Ok?;
    if path != RowFor(manifest, last).path {
      WriteColumnsPaths(f, manifest, cols[..n], path);
    }
  }

  /** Distinct paths give distinct columns distinct files. */
  lemma DistinctPaths(manifest: seq<ManifestRow>, c1: string, c2: string)
    requires Distinct(Paths(manifest)) && c1 in Cols(manifest) && c2 in Cols(manifest) && c1 != c2
    ensures RowFor(manifest, c1).path != RowFor(manifest, c2).path
  {
  }

  /** With distinct paths each written file holds exactly its column. */
  lemma {:induction false} WriteColumnsContent(f: Frame, manifest: seq<ManifestRow>, cols: seq<string>, c: string)
    requires WriteColumns(f, manifest, cols).Ok?
    requires Distinct(Paths(manifest)) && c in cols
    ensures WriteColumns(f, manifest, cols).value[RowFor(manifest, c).path] == Column(f, c)
  {
    var n := |cols| - 1;
    var last := cols[n];
    assert cols == cols[..n] + [last];
    var files := WriteColumns(f, manifest, cols[..n]);
    assert files.Ok?;
    assert WriteColumns(f, manifest, cols) == Ok(files.value[RowFor(manifest, last).path := Column(f, last)]);
    if c != last {
      assert c in cols[..n];
      WriteColumnsContent(f, manifest, cols[..n], c);
      DistinctPaths(manifest, c, last);
    }
  }

  /** The output directory after the final flush: the peptide list and manifest written
      at start-up and every column's file. */
  function Persist(f: Frame, manifest: seq<ManifestRow>): (r: Result<Dir>)
    ensures r.Ok? <==> forall c :: c in f.columns ==> c in Cols(manifest)
    ensures r.Ok? ==> r.value.peptides == f.index && Upgrade(r.value.manifest) == manifest
  {
    var files :- WriteColumns(f, manifest, f.columns);
    UpgradeSaved(manifest);
    Ok(Dir(f.index, Save(manifest), files))
  }

  /** With distinct column ids every row is the row for its column. */
  lemma RowIsRowFor(manifest: seq<ManifestRow>, row: ManifestRow)
    requires Distinct(Cols(manifest)) && row in manifest
    ensures row.col in Cols(manifest) && RowFor(manifest, row.col) == row
  {
    var i :| 0 <= i < |manifest| && manifest[i] == row;
    assert Cols(manifest)[i] == row.col;
    LastIndexOfDistinct(Cols(manifest), i);
  }

  /** Writing a table and loading it back gives the same table, NaN cells included,
      when its peptides are distinct, its columns are the manifest's, and the manifest's
      column ids and paths are distinct. */
  lemma RoundTrip(f: Frame, manifest: seq<ManifestRow>)
    requires f.Valid() && Distinct(f.index)
    requires f.columns == Cols(manifest) && Distinct(Cols(manifest)) && Distinct(Paths(manifest))
    ensures Persist(f, manifest).Ok?
    ensures LoadFresh(Persist(f, manifest).value) == Ok(f)
  {
    var d := Persist(f, manifest).value;
    var r := LoadFresh(d);
    UpgradeSaved(manifest);
    forall row | row in manifest
      ensures Readable(d.files, row.path, |d.peptides|)
    {
      RowIsRowFor(manifest, row);
      WriteColumnsContent(f, manifest, f.columns, row.col);
    }
    assert r.Ok?;
    forall p, c
      ensures r.value.Get(p, c) == f.Get(p, c)
    {
      LoadFreshContent(d, p, c);
      if c in f.columns && p in f.index {
        WriteColumnsContent(f, manifest, f.columns, c);
        LastIndexOfDistinct(f.index, LastIndexOf(f.index, p));
      }
    }
    FrameExt(r.value, f);
  }

  /** The output directory read back as a reuse entry, as a re-run pointed at its own
      partial output does: `peptides.csv` and `alleles.csv` are the ones this run has
      just written (lines 209-224, before the reuse loop at 233-241), while the column
      files are whatever an earlier run flushed there. */
  function InPlace(peptides: seq<string>, manifest: seq<ManifestRow>, files: map<string, seq<Cell>>): (d: Dir)
    ensures d.peptides == peptides && Upgrade(d.manifest) == manifest && d.files == files
  {
    UpgradeSaved(manifest);
    Dir(peptides, Save(manifest), files)
  }

  /** Reading in place fails when a column of this run has no file of the right length
      there: a new allele's file is missing, or the peptide count has changed. */
  lemma InPlaceStale(peptides: seq<string>, manifest: seq<ManifestRow>, files: map<string, seq<Cell>>,
                     t: Frame, row: ManifestRow)
    requires row in manifest && row.col in t.columns && !Readable(files, row.path, |peptides|)
    ensures LoadInto(InPlace(peptides, manifest, files), t).Err?
  {
  }

  /** Each column file the earlier flush wrote holds one value per earlier peptide. */
  lemma FlushedFile(prev: Frame, manifest: seq<ManifestRow>, row: ManifestRow)
    requires prev.columns == Cols(manifest) && Distinct(Cols(manifest)) && Distinct(Paths(manifest))
    requires row in manifest
    ensures Persist(prev, manifest).Ok?
    ensures row.path in Persist(prev, manifest).value.files
    ensures Persist(prev, manifest).value.files[row.path] == Column(prev, row.col)
  {
    RowIsRowFor(manifest, row);
    WriteColumnsContent(prev, manifest, prev.columns, row.col);
  }

  /** With as many peptides as the earlier run, every file this run reads in place is
      there and of the right length. */
  lemma InPlaceLoads(prev: Frame, manifest: seq<ManifestRow>, t: Frame)
    requires prev.columns == Cols(manifest) && Distinct(Cols(manifest)) && Distinct(Paths(manifest))
    requires |t.index| == |prev.index|
    ensures Persist(prev, manifest).Ok?
    ensures LoadInto(InPlace(t.index, manifest, Persist(prev, manifest).value.files), t).Ok?
  {
    var files := Persist(prev, manifest).value.files;
    forall row | row in manifest
      ensures Readable(files, row.path, |t.index|)
    {
      FlushedFile(prev, manifest, row);
    }
  }

  /** A re-run with a different number of peptides over the same manifest fails to read
      its own output directory. */
  lemma InPlaceCountChanged(prev: Frame, manifest: seq<ManifestRow>, t: Frame)
    requires prev.columns == Cols(manifest) && Distinct(Cols(manifest)) && Distinct(Paths(manifest))
    requires t.columns == prev.columns && |t.index| != |prev.index| && manifest != []
    ensures Persist(prev, manifest).Ok?
    ensures LoadInto(InPlace(t.index, manifest, Persist(prev, manifest).value.files), t).Err?
  {
    var row := manifest[0];
    FlushedFile(prev, manifest, row);
    assert row.col in Cols(manifest);
    InPlaceStale(t.index, manifest, Persist(prev, manifest).value.files, t, row);
  }

  /** Reading in place transfers values by position, not by peptide: with as many
      peptides as the earlier run, peptide `i` of this run takes the value the earlier
      run held for its own peptide `i`, whatever that peptide was. */
  lemma InPlaceByPosition(prev: Frame, manifest: seq<ManifestRow>, t: Frame, i: nat, c: string)
    requires prev.columns == Cols(manifest) && Distinct(Cols(manifest)) && Distinct(Paths(manifest))
    requires t.columns == prev.columns && Distinct(t.index) && |t.index| == |prev.index|
    requires i < |t.index| && c in t.columns
    ensures Persist(prev, manifest).Ok?
    ensures LoadInto(InPlace(t.index, manifest, Persist(prev, manifest).value.files), t).Ok?
    ensures LoadInto(InPlace(t.index, manifest, Persist(prev, manifest).value.files), t).value.Get(t.index[i], c)
         == prev.Get(prev.index[i], c)
  {
    var files := Persist(prev, manifest).value.files;
    var d := InPlace(t.index, manifest, files);
    InPlaceLoads(prev, manifest, t);
    var r := LoadInto(d, t);
    var rc := RowFor(manifest, c);
    FlushedFile(prev, manifest, rc);
    LastIndexOfDistinct(t.index, i);
    assert r.value.Get(t.index[i], c) == files[rc.path][i];
  }

  /** Resuming in place with unchanged inputs restores the earlier table exactly. */
  lemma InPlaceResumes(prev: Frame, manifest: seq<ManifestRow>, t: Frame)
    requires prev.Valid() && Distinct(prev.index)
    requires prev.columns == Cols(manifest) && Distinct(Cols(manifest)) && Distinct(Paths(manifest))
    requires t.Valid() && t.index == prev.index && t.columns == prev.columns
    ensures Persist(prev, manifest).Ok?
    ensures LoadInto(InPlace(t.index, manifest, Persist(prev, manifest).value.files), t) == Ok(prev)
  {
    var files := Persist(prev, manifest).value.files;
    var r := LoadInto(InPlace(t.index, manifest, files), t);
    InPlaceLoads(prev, manifest, t);
    forall p, c
      ensures r.value.Get(p, c) == prev.Get(p, c)
    {
      if c in t.columns && p in t.index {
        var i := LastIndexOf(t.index, p);
        InPlaceByPosition(prev, manifest, t, i, c);
      } else {
        assert (p, c) !in t.cells && (p, c) !in prev.cells;
      }
    }
    FrameExt(r.value, prev);
  }
}
