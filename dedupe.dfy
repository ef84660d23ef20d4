/**
  `dedupe_csv` of dedupe.py once both files are loaded: check the two key columns, collect
  the master file's stripped LinkedIn URLs, rewrite the input's LinkedIn Profile column
  stripped, and keep the input rows whose profile is non-empty and not in the master set.
 */
module Dedupe {
  import opened Common
  import opened Text
  import opened Masks

  /** A loaded CSV file: its header and its rows of cells, a missing cell being `None`. */
  datatype Table = Table(columns: seq<string>, rows: seq<seq<Cell>>)

  /** Every row has one cell per column. */
  predicate WellFormed(t: Table) {
    forall i :: 0 <= i < |t.rows| ==> |t.rows[i]| == |t.columns|
  }

  const MasterKeyColumn: string := "LinkedIn URL"
  const InputKeyColumn: string := "LinkedIn Profile"

  /** The early `return None`: which required column a file lacks. */
  datatype DedupeError = MissingColumn(column: string)

  /** The result: the table written out, and the counts reported beside it. */
  datatype Deduped = Deduped(unique: Table, totalRows: nat, uniqueRows: nat, duplicateRows: nat)

  /** The position of the first column called `name`. */
  function IndexOf(columns: seq<string>, name: string): (r: Option<nat>)
    ensures r.None? <==> name !in columns
    ensures r.Some? ==> r.value < |columns| && columns[r.value] == name
    ensures r.Some? ==> forall j :: 0 <= j < r.value ==> columns[j] != name
  {
    if columns == [] then None
    else if columns[0] == name then Some(0)
    else match IndexOf(columns[1..], name)
      case None => None
      case Some(j) => Some(j + 1)
  }

  /** Every row has a cell in column `col`. */
  predicate HasColumn(rows: seq<seq<Cell>>, col: nat) {
    forall i :: 0 <= i < |rows| ==> col < |rows[i]|
  }

  /** `set(master_df['LinkedIn URL'].dropna().str.strip())`: the stripped present values. */
  function MasterKeys(rows: seq<seq<Cell>>, col: nat): (keys: set<string>)
    requires HasColumn(rows, col)
    ensures forall k :: k in keys ==> Trimmed(k)
  {
    set i | 0 <= i < |rows| && rows[i][col].Some? :: Strip(rows[i][col].value)
  }

  /** `fillna('').str.strip()` on one cell. */
  function NormalizedKey(c: Cell): (key: string)
    ensures Trimmed(key)
  {
    match c
    case None => ""
    case Some(s) => Strip(s)
  }

  /** The input rows once the key column has been rewritten. */
  function Normalized(rows: seq<seq<Cell>>, col: nat): (r: seq<seq<Cell>>)
    requires HasColumn(rows, col)
    ensures |r| == |rows| && HasColumn(r, col)
  {
    seq(|rows|, k requires 0 <= k < |rows| => rows[k][col := Some(NormalizedKey(rows[k][col]))])
  }

  /**
    One entry of `unique_mask` on the rewritten column: the profile is not in the master set
    and is not empty. After `fillna('')` the column holds no missing cell.
   */
  predicate Fresh(cell: Cell, keys: set<string>) {
    cell.Some? && cell.value !in keys && cell.value != ""
  }

  function KeepMask(rows: seq<seq<Cell>>, col: nat, keys: set<string>): (mask: seq<bool>)
    requires HasColumn(rows, col)
    ensures |mask| == |rows|
  {
    seq(|rows|, k requires 0 <= k < |rows| => Fresh(rows[k][col], keys))
  }

  /** The rows of `unique_df`: the rewritten rows the mask keeps, in order. */
  function UniqueRows(rows: seq<seq<Cell>>, col: nat, keys: set<string>): (unique: seq<seq<Cell>>)
    requires HasColumn(rows, col)
  {
    var n := Normalized(rows, col);
    Select(n, KeepMask(n, col, keys))
  }

  /**
    `dedupe_csv` after both reads succeeded. The master file's column is checked first; a
    missing column ends the call before any filtering. Otherwise the input's key column is
    rewritten in place, the mask is applied, and the counts are taken before and after.
   */
  method DedupeCsv(master: Table, input: Table) returns (r: Result<Deduped, DedupeError>)
    requires WellFormed(master) && WellFormed(input)
    ensures MasterKeyColumn !in master.columns ==> r == Err(MissingColumn(MasterKeyColumn))
    ensures MasterKeyColumn in master.columns && InputKeyColumn !in input.columns ==>
      r == Err(MissingColumn(InputKeyColumn))
    ensures r.Ok? <==> MasterKeyColumn in master.columns && InputKeyColumn in input.columns
    ensures r.Ok? ==>
      var mc, ic := IndexOf(master.columns, MasterKeyColumn).value, IndexOf(input.columns, InputKeyColumn).value;
      && HasColumn(master.rows, mc) && HasColumn(input.rows, ic)
      && r.value.unique == Table(input.columns, UniqueRows(input.rows, ic, MasterKeys(master.rows, mc)))
      && r.value.totalRows == |input.rows|
      && r.value.uniqueRows == |r.value.unique.rows|
      && r.value.duplicateRows == r.value.totalRows - r.value.uniqueRows
  {
    var mcol := IndexOf(master.columns, MasterKeyColumn);
    if mcol.None? {
      return Err(MissingColumn(MasterKeyColumn));
    }
    var icol := IndexOf(input.columns, InputKeyColumn);
    if icol.None? {
      return Err(MissingColumn(InputKeyColumn));
    }
    var mc, ic := mcol.value, icol.value;
    var masterUrls := MasterKeys(master.rows, mc);
    var totalRows := |input.rows|;

    var df := input.rows;
    var i := 0;
    while i < |df|
      invariant 0 <= i <= |df| == |input.rows|
      invariant df[..i] == Normalized(input.rows[..i], ic)
      invariant df[i..] == input.rows[i..]
    {
      assert df[i] == input.rows[i] by { assert df[i..][0] == input.rows[i..][0]; }
      ghost var before := df;
      df := df[i := df[i][ic := Some(NormalizedKey(df[i][ic]))]];
      NormalizedSnoc(input.rows, ic, i);
      assert df[..i + 1] == before[..i] + [df[i]];
      assert df[i + 1..] == before[i + 1..];
      i := i + 1;
    }
    assert df == Normalized(input.rows, ic) by {
      assert df[..i] == df && input.rows[..i] == input.rows;
    }

    var uniqueMask := KeepMask(df, ic, masterUrls);
    var unique := FilterRows(df, uniqueMask);
    var uniqueRows := |unique|;
    var duplicateRows := totalRows - uniqueRows;
    return Ok(Deduped(Table(input.columns, unique), totalRows, uniqueRows, duplicateRows));
  }

  /** `input_df[unique_mask]`: the rows the mask keeps, in their original order. */
  method FilterRows(rows: seq<seq<Cell>>, mask: seq<bool>) returns (kept: seq<seq<Cell>>)
    requires |rows| == |mask|
    ensures kept == Select(rows, mask)
    ensures |kept| == CountTrue(mask)
  {
    kept := [];
    var i := 0;
    while i < |rows|
      invariant 0 <= i <= |rows|
      invariant kept == Select(rows[..i], mask[..i])
    {
      SelectSnoc(rows, mask, i);
      if mask[i] {
        kept := kept + [rows[i]];
      }
      i := i + 1;
    }
    assert rows[..i] == rows && mask[..i] == mask;
    SelectAtTrueIndices(rows, mask);
  }

  lemma NormalizedSnoc(rows: seq<seq<Cell>>, col: nat, i: nat)
    requires HasColumn(rows, col) && i < |rows|
    ensures HasColumn(rows[..i], col) && HasColumn(rows[..i + 1], col)
    ensures Normalized(rows[..i + 1], col)
      == Normalized(rows[..i], col) + [rows[i][col := Some(NormalizedKey(rows[i][col]))]]
  {
    var p, q := rows[..i], rows[..i + 1];
    assert forall k :: 0 <= k < i ==> p[k] == q[k] == rows[k];
    assert q[i] == rows[i];
  }

  // ---------------------------------------------------------------------------
  // What dedupe_csv promises
  // ---------------------------------------------------------------------------

  /** The rewritten row: its key cell stripped (a missing one becomes ""), all other cells kept. */
  lemma NormalizedAt(rows: seq<seq<Cell>>, col: nat, i: nat)
    requires HasColumn(rows, col) && i < |rows|
    ensures Normalized(rows, col)[i][col] == Some(NormalizedKey(rows[i][col]))
    ensures |Normalized(rows, col)[i]| == |rows[i]|
    ensures forall j :: 0 <= j < |rows[i]| && j != col ==> Normalized(rows, col)[i][j] == rows[i][j]
  {
  }

  /** A row is kept exactly when its stripped profile is non-empty and not a master URL. */
  lemma KeepIff(rows: seq<seq<Cell>>, col: nat, keys: set<string>, i: nat)
    requires HasColumn(rows, col) && i < |rows|
    ensures var n := Normalized(rows, col);
      KeepMask(n, col, keys)[i] <==> NormalizedKey(rows[i][col]) != "" && NormalizedKey(rows[i][col]) !in keys
  {
    NormalizedAt(rows, col, i);
  }

  /**
    The unique rows are the rewritten input rows whose profile is fresh, each once, in input
    order; every input row with a fresh profile is among them.
   */
  lemma UniqueRowsAre(rows: seq<seq<Cell>>, col: nat, keys: set<string>)
    requires HasColumn(rows, col)
    ensures var n, u := Normalized(rows, col), UniqueRows(rows, col, keys);
      var idx := TrueIndices(KeepMask(n, col, keys));
      && |u| == |idx|
      && (forall k :: 0 <= k < |idx| ==> idx[k] < |rows| && u[k] == n[idx[k]])
      && (forall k :: 0 <= k < |idx| ==>
            NormalizedKey(rows[idx[k]][col]) != "" && NormalizedKey(rows[idx[k]][col]) !in keys)
      && (forall k, l :: 0 <= k < l < |idx| ==> idx[k] < idx[l])
      && (forall i :: 0 <= i < |rows| && NormalizedKey(rows[i][col]) != "" && NormalizedKey(rows[i][col]) !in keys
            ==> i in idx)
  {
    var n := Normalized(rows, col);
    var mask := KeepMask(n, col, keys);
    SelectAtTrueIndices(n, mask);
    var idx := TrueIndices(mask);
    forall k | 0 <= k < |idx|
      ensures NormalizedKey(rows[idx[k]][col]) != "" && NormalizedKey(rows[idx[k]][col]) !in keys
    {
      KeepIff(rows, col, keys, idx[k]);
    }
    forall i | 0 <= i < |rows| && NormalizedKey(rows[i][col]) != "" && NormalizedKey(rows[i][col]) !in keys
      ensures i in idx
    {
      KeepIff(rows, col, keys, i);
    }
  }

  /**
    Deduplication is only against the master: two input rows with the same fresh profile
    both reach the output, at two positions in their input order.
   */
  lemma InputDuplicatesKept(rows: seq<seq<Cell>>, col: nat, keys: set<string>, i: nat, j: nat)
    requires HasColumn(rows, col) && i < j < |rows|
    requires NormalizedKey(rows[i][col]) == NormalizedKey(rows[j][col])
    requires NormalizedKey(rows[i][col]) != "" && NormalizedKey(rows[i][col]) !in keys
    ensures var n, u := Normalized(rows, col), UniqueRows(rows, col, keys);
      exists p, q :: 0 <= p < q < |u| && u[p] == n[i] && u[q] == n[j]
  {
    UniqueRowsAre(rows, col, keys);
    var n, u := Normalized(rows, col), UniqueRows(rows, col, keys);
    var idx := TrueIndices(KeepMask(n, col, keys));
    assert i in idx && j in idx;
    var p :| 0 <= p < |idx| && idx[p] == i;
    var q :| 0 <= q < |idx| && idx[q] == j;
    assert u[p] == n[i] && u[q] == n[j];
  }

  /** The cells a column holds, as a set: order and repeats forgotten. */
  function ColumnValues(rows: seq<seq<Cell>>, col: nat): (values: set<Cell>)
    requires HasColumn(rows, col)
  {
    set i | 0 <= i < |rows| :: rows[i][col]
  }

  lemma MasterKeysSubset(a: seq<seq<Cell>>, ca: nat, b: seq<seq<Cell>>, cb: nat)
    requires HasColumn(a, ca) && HasColumn(b, cb)
    requires ColumnValues(a, ca) <= ColumnValues(b, cb)
    ensures MasterKeys(a, ca) <= MasterKeys(b, cb)
  {
    forall k | k in MasterKeys(a, ca) ensures k in MasterKeys(b, cb) {
      var i :| 0 <= i < |a| && a[i][ca].Some? && Strip(a[i][ca].value) == k;
      assert a[i][ca] in ColumnValues(a, ca);
      var j :| 0 <= j < |b| && b[j][cb] == a[i][ca];
      assert b[j][cb].Some? && Strip(b[j][cb].value) == k;
    }
  }

  /** The master set depends only on which values the column holds, not on order or repeats. */
  lemma MasterKeysOfSameValues(a: seq<seq<Cell>>, ca: nat, b: seq<seq<Cell>>, cb: nat)
    requires HasColumn(a, ca) && HasColumn(b, cb)
    requires ColumnValues(a, ca) == ColumnValues(b, cb)
    ensures MasterKeys(a, ca) == MasterKeys(b, cb)
  {
    MasterKeysSubset(a, ca, b, cb);
    MasterKeysSubset(b, cb, a, ca);
  }

  /** Running the filter again on its own output, against the same master, changes nothing. */
  lemma DedupeIdempotent(rows: seq<seq<Cell>>, col: nat, keys: set<string>)
    requires HasColumn(rows, col)
    ensures HasColumn(UniqueRows(rows, col, keys), col)
    ensures UniqueRows(UniqueRows(rows, col, keys), col, keys) == UniqueRows(rows, col, keys)
  {
    UniqueRowsAre(rows, col, keys);
    var n := Normalized(rows, col);
    var u := UniqueRows(rows, col, keys);
    var idx := TrueIndices(KeepMask(n, col, keys));
    forall k | 0 <= k < |u| ensures u[k][col] == Some(NormalizedKey(rows[idx[k]][col])) && col < |u[k]| {
      NormalizedAt(rows, col, idx[k]);
    }
    var n2 := Normalized(u, col);
    forall k | 0 <= k < |u| ensures n2[k] == u[k] {
      var key := NormalizedKey(rows[idx[k]][col]);
      StripTrimmed(key);
      assert u[k][col] == Some(key);
      assert u[k][col := Some(key)] == u[k];
    }
    assert n2 == u;
    var mask := KeepMask(n2, col, keys);
    forall k | 0 <= k < |mask| ensures mask[k] {
      KeepIff(u, col, keys, k);
      StripTrimmed(NormalizedKey(rows[idx[k]][col]));
    }
    SelectAll(n2, mask);
  }

  /** The rows of a one-column input: known profiles `a` and ` b ` (padded), a new one `c`, a blank. */
  function ExampleRows(a: string, b: string, c: string): (rows: seq<seq<Cell>>) {
    [[Some(a)], [Some(" " + b + " ")], [Some(c)], [None]]
  }

  lemma ExampleNormalized(a: string, b: string, c: string)
    requires Trimmed(a) && Trimmed(b) && Trimmed(c)
    ensures HasColumn(ExampleRows(a, b, c), 0)
    ensures Normalized(ExampleRows(a, b, c), 0) == [[Some(a)], [Some(b)], [Some(c)], [Some("")]]
  {
    var rows := ExampleRows(a, b, c);
    var n := Normalized(rows, 0);
    StripTrimmed(a);
    StripPadded(" ", b, " ");
    StripTrimmed(c);
    NormalizedAt(rows, 0, 0);
    NormalizedAt(rows, 0, 1);
    NormalizedAt(rows, 0, 2);
    NormalizedAt(rows, 0, 3);
    assert n[0] == [n[0][0]] && n[1] == [n[1][0]] && n[2] == [n[2][0]] && n[3] == [n[3][0]];
  }

  lemma ExampleSelect(n: seq<seq<Cell>>, mask: seq<bool>)
    requires |n| == |mask| == 4 && mask == [false, false, true, false]
    ensures Select(n, mask) == [n[2]]
  {
    SelectSnoc(n, mask, 0);
    SelectSnoc(n, mask, 1);
    SelectSnoc(n, mask, 2);
    SelectSnoc(n, mask, 3);
    assert n[..0] == [] && mask[..0] == [];
    assert n[..4] == n && mask[..4] == mask;
  }

  /**
    Against a master holding `a` and `b`, an input whose profiles are `a`, `b` padded with
    spaces, a new `c` and a missing one keeps only the row of `c`.
   */
  lemma OnlyNewProfileKept(a: string, b: string, c: string)
    requires Trimmed(a) && Trimmed(b) && Trimmed(c)
    requires a != "" && b != "" && c != "" && c != a && c != b
    ensures HasColumn(ExampleRows(a, b, c), 0)
    ensures UniqueRows(ExampleRows(a, b, c), 0, {a, b}) == [[Some(c)]]
  {
    ExampleNormalized(a, b, c);
    var n := Normalized(ExampleRows(a, b, c), 0);
    var mask := KeepMask(n, 0, {a, b});
    assert mask == [false, false, true, false];
    ExampleSelect(n, mask);
  }

  /** The same with master {"u1", "u2"} and profiles "u1", " u2 ", "u3" and a missing one. */
  lemma WorkedExample()
    ensures HasColumn(ExampleRows("u1", "u2", "u3"), 0)
    ensures UniqueRows(ExampleRows("u1", "u2", "u3"), 0, {"u1", "u2"}) == [[Some("u3")]]
  {
    OnlyNewProfileKept("u1", "u2", "u3");
  }
}
