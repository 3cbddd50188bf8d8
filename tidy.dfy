/** `tidy_one_sheet` (absence.py:119-181): one raw sheet grid reshaped into
    long form, one row per (data row, date column) that holds a number. */
module Tidy {
  import opened Wrappers
  import opened Text
  import opened Dates
  import opened HeaderDates
  import opened Sheets
  import opened Cells
  import opened Columns

  /** The exceptions the pipeline can raise: `df.iloc[0]` on a sheet with
      no header row; a column looked up that is not there (`melt`'s
      value_vars, `df_all["FteDate"]`, sorting on "Modified"); and a
      window start before year 1. */
  datatype Failure = IndexError | KeyError | ValueError

  datatype Outcome<T> = Done(value: T) | Raised(failure: Failure)

  // ---------------------------------------------------------------------
  // The raw grid (read_excel with header=None)
  // ---------------------------------------------------------------------

  /** The longest of the first n rows: the number of columns pandas gives
      the sheet. */
  function WidthOf(g: Grid, n: nat): (w: nat)
    requires n <= |g|
    ensures forall i :: 0 <= i < n ==> |g[i]| <= w
    ensures w == 0 || exists i :: 0 <= i < n && |g[i]| == w
  {
    if n == 0 then 0
    else
      var w := WidthOf(g, n - 1);
      if |g[n - 1]| > w then |g[n - 1]| else w
  }

  function Width(g: Grid): nat
  {
    WidthOf(g, |g|)
  }

  /** DataFrame.empty of the raw sheet: no rows or no columns. */
  predicate RawEmpty(g: Grid)
  {
    |g| == 0 || Width(g) == 0
  }

  /** A ragged row filled out with missing values to width w. */
  function Pad(row: seq<Cell>, w: nat): (r: seq<Cell>)
    requires |row| <= w
    ensures |r| == w && r[..|row|] == row
    ensures forall j :: |row| <= j < w ==> r[j] == Empty
  {
    row + seq(w - |row|, _ => Empty)
  }

  /** Steps 1-2: skip three rows, promote the fourth to labels with
      astype(str), keep the rest as data rows. */
  function Promote(g: Grid): (f: Frame)
    requires |g| >= 4
    ensures WellShaped(f) && |f.columns| == Width(g) && |f.rows| == |g| - 4
    ensures forall j :: 0 <= j < |f.columns| ==> f.columns[j] == Label(Pad(g[3], Width(g))[j])
    ensures forall i :: 0 <= i < |f.rows| ==> f.rows[i] == Pad(g[i + 4], Width(g))
  {
    var w := Width(g);
    var header := Pad(g[3], w);
    Frame(seq(w, j requires 0 <= j < w => Label(header[j])),
          seq(|g| - 4, i requires 0 <= i < |g| - 4 => Pad(g[i + 4], w)))
  }

  // ---------------------------------------------------------------------
  // dropna(axis=1, how="all")
  // ---------------------------------------------------------------------

  /** Column j holds at least one value. */
  predicate HasValue(f: Frame, j: nat)
    requires WellShaped(f) && j < |f.columns|
  {
    exists i :: 0 <= i < |f.rows| && f.rows[i][j] != Empty
  }

  /** The positions below n of the columns that hold a value, in order. */
  function ValuedColumns(f: Frame, n: nat): (js: seq<nat>)
    requires WellShaped(f) && n <= |f.columns|
    ensures forall k :: 0 <= k < |js| ==> js[k] < n && HasValue(f, js[k])
    ensures forall j :: 0 <= j < n && HasValue(f, j) ==> j in js
    ensures forall k, l :: 0 <= k < l < |js| ==> js[k] < js[l]
  {
    if n == 0 then []
    else ValuedColumns(f, n - 1) + (if HasValue(f, n - 1) then [n - 1] else [])
  }

  /** The columns at positions js, in that order. */
  function Project(f: Frame, js: seq<nat>): (r: Frame)
    requires WellShaped(f) && forall k :: 0 <= k < |js| ==> js[k] < |f.columns|
    ensures WellShaped(r) && |r.columns| == |js| && |r.rows| == |f.rows|
    ensures forall k :: 0 <= k < |js| ==> r.columns[k] == f.columns[js[k]]
    ensures forall i, k :: 0 <= i < |f.rows| && 0 <= k < |js| ==> r.rows[i][k] == f.rows[i][js[k]]
  {
    Frame(seq(|js|, k requires 0 <= k < |js| => f.columns[js[k]]),
          seq(|f.rows|, i requires 0 <= i < |f.rows| =>
            seq(|js|, k requires 0 <= k < |js| => f.rows[i][js[k]])))
  }

  /** Step 3: drop the columns that are missing in every data row. */
  function DropEmptyColumns(f: Frame): (r: Frame)
    requires WellShaped(f)
    ensures WellShaped(r) && |r.rows| == |f.rows| && |r.columns| <= |f.columns|
  {
    var js := ValuedColumns(f, |f.columns|);
    KeptPositions(js, |f.columns|);
    Project(f, js)
  }

  /** Increasing positions below n are at most n in number. */
  lemma {:induction false} KeptPositions(js: seq<nat>, n: nat)
    requires forall k :: 0 <= k < |js| ==> js[k] < n
    requires forall k, l :: 0 <= k < l < |js| ==> js[k] < js[l]
    ensures |js| <= n
    decreases n
  {
    if js != [] {
      var last := js[|js| - 1];
      var front := js[..|js| - 1];
      assert forall k :: 0 <= k < |front| ==> front[k] < last;
      KeptPositions(front, last);
    }
  }

  /** The columns that survive are exactly those holding a value, each
      with all of its cells, in their original order. */
  lemma DropEmptyColumnsKeeps(f: Frame)
    requires WellShaped(f)
    ensures var r := DropEmptyColumns(f);
      && (forall k :: 0 <= k < |r.columns| ==> HasValue(r, k))
      && (forall j :: 0 <= j < |f.columns| && HasValue(f, j) ==>
            exists k :: 0 <= k < |r.columns| && r.columns[k] == f.columns[j]
                         && forall i :: 0 <= i < |f.rows| ==> r.rows[i][k] == f.rows[i][j])
  {
    var js := ValuedColumns(f, |f.columns|);
    var r := DropEmptyColumns(f);
    forall k | 0 <= k < |r.columns| ensures HasValue(r, k) {
      assert HasValue(f, js[k]);
      var i :| 0 <= i < |f.rows| && f.rows[i][js[k]] != Empty;
      assert r.rows[i][k] != Empty;
    }
    forall j | 0 <= j < |f.columns| && HasValue(f, j)
      ensures exists k :: 0 <= k < |r.columns| && r.columns[k] == f.columns[j]
                          && forall i :: 0 <= i < |f.rows| ==> r.rows[i][k] == f.rows[i][j]
    {
      var k :| 0 <= k < |js| && js[k] == j;
      assert r.columns[k] == f.columns[j];
    }
  }

  /** Steps 1-4 on a sheet with a header row: promoted, emptied columns
      dropped, labels made unique. */
  function Cleaned(g: Grid): (f: Frame)
    requires |g| >= 4
    ensures WellShaped(f) && |f.rows| == |g| - 4
  {
    var d := DropEmptyColumns(Promote(g));
    Frame(MakeUnique(d.columns), d.rows)
  }

  // ---------------------------------------------------------------------
  // Identity columns
  // ---------------------------------------------------------------------

  /** The identity columns a template asks for, in order. */
  function Needed(t: Employment): (names: seq<string>)
    ensures |names| >= 2 && names[0] == "Agency" && names[1] == "Manager"
  {
    match t
    case Interim => ["Agency", "Manager"]
    case Permanent => ["Agency", "Manager", "ContractType"]
    case Absence => ["Agency", "Manager", "ReasonCode"]
  }

  /** The labels that resolve to a date, in column order. */
  function DateColumns(cols: seq<string>, co: Coercions): (r: seq<string>)
    ensures |r| <= |cols|
    ensures forall c :: c in r <==> c in cols && HeaderDate(c, co).Some?
  {
    if cols == [] then []
    else (if HeaderDate(cols[0], co).Some? then [cols[0]] else []) + DateColumns(cols[1..], co)
  }

  /** The labels not among `dates`, in column order. */
  function NonDateColumns(cols: seq<string>, dates: seq<string>): (r: seq<string>)
    ensures forall c :: c in r <==> c in cols && c !in dates
  {
    if cols == [] then []
    else (if cols[0] in dates then [] else [cols[0]]) + NonDateColumns(cols[1..], dates)
  }

  /** ren_map after the first n steps of its loop: step i maps the i-th
      non-date label to the i-th needed name, when there is one. */
  function RenameMap(needed: seq<string>, nonDate: seq<string>, n: nat): map<string, string>
    requires n <= |needed|
  {
    if n == 0 then map[]
    else
      var m := RenameMap(needed, nonDate, n - 1);
      if n - 1 < |nonDate| then m[nonDate[n - 1] := needed[n - 1]] else m
  }

  /** The loop that builds ren_map (absence.py:146-149). */
  method BuildRenameMap(needed: seq<string>, nonDate: seq<string>) returns (renames: map<string, string>)
    ensures renames == RenameMap(needed, nonDate, |needed|)
  {
    renames := map[];
    for i := 0 to |needed|
      invariant renames == RenameMap(needed, nonDate, i)
    {
      if i < |nonDate| {
        renames := renames[nonDate[i] := needed[i]];
      }
    }
  }

  /** The keys of ren_map are the first min(|needed|, |nonDate|) non-date
      labels, and each is mapped to the needed name of its LAST position
      among them: a later assignment overwrites an earlier one. */
  lemma {:induction false} RenameMapEntries(needed: seq<string>, nonDate: seq<string>, n: nat, k: string)
    requires n <= |needed|
    ensures k in RenameMap(needed, nonDate, n) <==> exists i :: 0 <= i < n && i < |nonDate| && nonDate[i] == k
    ensures forall i :: 0 <= i < n && i < |nonDate| && nonDate[i] == k
                        && (forall j :: i < j < n && j < |nonDate| ==> nonDate[j] != k)
                        ==> RenameMap(needed, nonDate, n)[k] == needed[i]
  {
    if n > 0 {
      RenameMapEntries(needed, nonDate, n - 1, k);
    }
  }

  /** With distinct non-date labels, the i-th of them is renamed to the
      i-th needed name, for every i below min(|needed|, |nonDate|). */
  lemma RenameIsPositional(needed: seq<string>, nonDate: seq<string>, i: nat)
    requires i < |needed| && i < |nonDate|
    requires forall a, b :: 0 <= a < b < |nonDate| ==> nonDate[a] != nonDate[b]
    ensures nonDate[i] in RenameMap(needed, nonDate, |needed|)
    ensures RenameMap(needed, nonDate, |needed|)[nonDate[i]] == needed[i]
  {
    RenameMapEntries(needed, nonDate, |needed|, nonDate[i]);
  }

  /** df.rename(columns=m): every label that is a key is replaced. */
  function Rename(cols: seq<string>, m: map<string, string>): (r: seq<string>)
    ensures |r| == |cols|
    ensures forall i :: 0 <= i < |cols| ==> r[i] == if cols[i] in m then m[cols[i]] else cols[i]
  {
    seq(|cols|, i requires 0 <= i < |cols| => if cols[i] in m then m[cols[i]] else cols[i])
  }

  /** Step 8, the cross-template salvage of a mislabelled third column. */
  function Salvage(cols: seq<string>, t: Employment): seq<string>
  {
    if t == Absence && "ReasonCode" !in cols && "ContractType" in cols then
      Rename(cols, map["ContractType" := "ReasonCode"])
    else if t == Permanent && "ContractType" !in cols && "ReasonCode" in cols then
      Rename(cols, map["ReasonCode" := "ContractType"])
    else cols
  }

  /** An ABSENCE sheet with a ContractType column and no ReasonCode column
      ends up with ReasonCode in its place; a PERMANENT sheet the other
      way round; every other label, and every other sheet, is untouched. */
  lemma SalvageRenames(cols: seq<string>, t: Employment)
    ensures var r := Salvage(cols, t);
      && |r| == |cols|
      && (t == Absence && "ReasonCode" !in cols && "ContractType" in cols ==>
            "ReasonCode" in r && "ContractType" !in r
            && forall i :: 0 <= i < |cols| ==> r[i] == if cols[i] == "ContractType" then "ReasonCode" else cols[i])
      && (t == Permanent && "ContractType" !in cols && "ReasonCode" in cols ==>
            "ContractType" in r && "ReasonCode" !in r
            && forall i :: 0 <= i < |cols| ==> r[i] == if cols[i] == "ReasonCode" then "ContractType" else cols[i])
      && (t == Interim ==> r == cols)
  {
    var r := Salvage(cols, t);
    if t == Absence && "ReasonCode" !in cols && "ContractType" in cols {
      var i :| 0 <= i < |cols| && cols[i] == "ContractType";
      assert r[i] == "ReasonCode";
    } else if t == Permanent && "ContractType" !in cols && "ReasonCode" in cols {
      var i :| 0 <= i < |cols| && cols[i] == "ReasonCode";
      assert r[i] == "ContractType";
    }
  }

  /** A needed name of the template survives the salvage. */
  lemma SalvageKeepsNeeded(cols: seq<string>, t: Employment, c: string)
    requires c in Needed(t) && c in cols
    ensures c in Salvage(cols, t)
  {
    var i :| 0 <= i < |cols| && cols[i] == c;
    assert Salvage(cols, t)[i] == c;
  }

  /** The needed names that are columns, in template order. */
  function IdVars(needed: seq<string>, cols: seq<string>): (r: seq<string>)
    ensures |r| <= |needed|
    ensures forall c :: c in r <==> c in needed && c in cols
  {
    if needed == [] then []
    else (if needed[0] in cols then [needed[0]] else []) + IdVars(needed[1..], cols)
  }

  // ---------------------------------------------------------------------
  // The labels after renaming
  // ---------------------------------------------------------------------

  /** Steps 6-8 on the cleaned sheet: the non-date labels renamed to the
      template's names by position, made unique again, then salvaged. */
  function Relabelled(f: Frame, t: Employment, co: Coercions): (cols: seq<string>)
    ensures |cols| == |f.columns|
  {
    var needed := Needed(t);
    var dates := DateColumns(f.columns, co);
    var nonDate := NonDateColumns(f.columns, dates);
    var m := RenameMap(needed, nonDate, |needed|);
    SalvageRenames(MakeUnique(Rename(f.columns, m)), t);
    Salvage(MakeUnique(Rename(f.columns, m)), t)
  }

  /** Whenever a non-date column exists, an identity column survives:
      the first non-date column is renamed to a needed name, make_unique
      keeps the first occurrence of it, and the salvage never removes a
      name the template needs. */
  lemma IdentitySurvives(f: Frame, t: Employment, co: Coercions)
    requires NonDateColumns(f.columns, DateColumns(f.columns, co)) != []
    ensures IdVars(Needed(t), Relabelled(f, t, co)) != []
  {
    var needed := Needed(t);
    var nonDate := NonDateColumns(f.columns, DateColumns(f.columns, co));
    var renamed := Rename(f.columns, RenameMap(needed, nonDate, |needed|));
    var p := FirstRenamed(f.columns, needed, nonDate);
    var name := renamed[p];
    NeededIsClean(t, name);
    NameSurvives(renamed, p, t);
  }

  /** Some column is renamed to a needed name: the first non-date one. */
  lemma FirstRenamed(cols: seq<string>, needed: seq<string>, nonDate: seq<string>) returns (p: nat)
    requires needed != [] && nonDate != [] && nonDate[0] in cols
    ensures p < |cols| && Rename(cols, RenameMap(needed, nonDate, |needed|))[p] in needed
  {
    var k := nonDate[0];
    RenameMapEntries(needed, nonDate, |needed|, k);
    var i := LastPosition(nonDate, |needed|, k);
    p :| 0 <= p < |cols| && cols[p] == k;
  }

  /** A needed name among the renamed labels is still a column after
      make_unique and the salvage. */
  lemma NameSurvives(renamed: seq<string>, p: nat, t: Employment)
    requires p < |renamed| && renamed[p] in Needed(t) && Clean(renamed[p])
    ensures renamed[p] in Salvage(MakeUnique(renamed), t)
  {
    BaseOfClean(renamed[p], p);
    BasesSurvive(renamed, p);
    SalvageKeepsNeeded(MakeUnique(renamed), t, renamed[p]);
  }

  /** The last position below min(n, |s|) holding x, given one exists. */
  function LastPosition(s: seq<string>, n: nat, x: string): (i: nat)
    requires exists i :: 0 <= i < n && i < |s| && s[i] == x
    ensures i < n && i < |s| && s[i] == x
    ensures forall j :: i < j < n && j < |s| ==> s[j] != x
  {
    if n - 1 < |s| && s[n - 1] == x then n - 1 else LastPosition(s, n - 1, x)
  }

  /** The template names are plain words: strip() leaves them alone and
      none reads "nan". */
  lemma NeededIsClean(t: Employment, name: string)
    requires name in Needed(t)
    ensures Clean(name)
  {
    StripUnchanged(name);
  }

  lemma BaseOfClean(n: string, i: nat)
    requires Clean(n)
    ensures Base(n, i) == n
  {
  }

  // ---------------------------------------------------------------------
  // melt and the two filters
  // ---------------------------------------------------------------------

  /** One row of the melted table: the identity cells, the DateHeader
      label and the raw FTE cell. */
  datatype Reading = Reading(ids: seq<Cell>, header: string, fte: Cell)

  /** The identity cells of data row i. */
  function IdCells(f: Frame, ids: seq<string>, i: nat): (cells: seq<Cell>)
    requires i < |f.rows|
    ensures |cells| == |ids|
    ensures forall j :: 0 <= j < |ids| ==> cells[j] == CellOf(f.columns, f.rows[i], ids[j])
  {
    seq(|ids|, j requires 0 <= j < |ids| => CellOf(f.columns, f.rows[i], ids[j]))
  }

  /** The melted row of value column v and data row i. */
  function ReadingAt(f: Frame, ids: seq<string>, v: string, i: nat): Reading
    requires i < |f.rows|
  {
    Reading(IdCells(f, ids, i), v, CellOf(f.columns, f.rows[i], v))
  }

  /** The melted rows of one value column, one per data row. */
  function MeltColumn(f: Frame, ids: seq<string>, v: string): (rs: seq<Reading>)
    ensures |rs| == |f.rows|
    ensures forall i :: 0 <= i < |rs| ==> rs[i].header == v && |rs[i].ids| == |ids|
    ensures forall r :: r in rs <==> exists i :: 0 <= i < |f.rows| && r == ReadingAt(f, ids, v, i)
  {
    var rs := seq(|f.rows|, i requires 0 <= i < |f.rows| => ReadingAt(f, ids, v, i));
    assert forall i :: 0 <= i < |f.rows| ==> rs[i] == ReadingAt(f, ids, v, i) && rs[i] in rs;
    rs
  }

  /** melt(id_vars, value_vars): the value columns one after another,
      each contributing one row per data row; a melted row is exactly the
      reading of some value column and some data row. */
  function MeltAll(f: Frame, ids: seq<string>, vs: seq<string>): (rs: seq<Reading>)
    ensures |rs| == |vs| * |f.rows|
    ensures forall i :: 0 <= i < |rs| ==> rs[i].header in vs && |rs[i].ids| == |ids|
    ensures forall r :: r in rs <==> exists v, i :: v in vs && 0 <= i < |f.rows| && r == ReadingAt(f, ids, v, i)
  {
    if vs == [] then []
    else
      var rest := MeltAll(f, ids, vs[1..]);
      assert |vs| * |f.rows| == |f.rows| + |vs[1..]| * |f.rows|;
      assert forall v :: v in vs <==> v == vs[0] || v in vs[1..];
      MeltColumn(f, ids, vs[0]) + rest
  }

  /** A melted row with its FteDate resolved. */
  datatype Dated = Dated(ids: seq<Cell>, fte: Cell, date: CivilDate)

  /** A melted row with its DateHeader resolved, or None when it does not
      resolve to a date. */
  function Dating(r: Reading, co: Coercions): Option<Dated>
  {
    match HeaderDate(r.header, co)
    case Some(d) => Some(Dated(r.ids, r.fte, d))
    case None => None
  }

  /** FteDate := parse_header_to_date(DateHeader), DateHeader dropped,
      rows with a null FteDate dropped: a row is kept exactly when its
      header resolves, and carries that date. */
  function WithDates(rs: seq<Reading>, co: Coercions): (ds: seq<Dated>)
    ensures |ds| <= |rs|
    ensures forall x :: x in ds <==> exists r :: r in rs && Dating(r, co) == Some(x)
  {
    if rs == [] then []
    else
      var rest := WithDates(rs[1..], co);
      assert forall r :: r in rs <==> r == rs[0] || r in rs[1..];
      Kept(Dating(rs[0], co)) + rest
  }

  /** The row an optional result keeps: one or none. */
  function Kept<T(!new)>(o: Option<T>): (s: seq<T>)
    ensures forall x :: x in s <==> o == Some(x)
  {
    match o
    case Some(x) => [x]
    case None => []
  }

  /** The date filter keeps the order of the rows: filtering a
      concatenation filters each part. */
  lemma {:induction false} WithDatesAppend(a: seq<Reading>, b: seq<Reading>, co: Coercions)
    ensures WithDates(a + b, co) == WithDates(a, co) + WithDates(b, co)
  {
    if a != [] {
      var head := Kept(Dating(a[0], co));
      assert (a + b)[0] == a[0];
      assert (a + b)[1..] == a[1..] + b;
      calc {
        WithDates(a + b, co);
        head + WithDates(a[1..] + b, co);
        { WithDatesAppend(a[1..], b, co); }
        head + (WithDates(a[1..], co) + WithDates(b, co));
      }
    } else {
      assert a + b == b;
    }
  }

  /** No row is dropped when every header resolves. */
  lemma {:induction false} WithDatesKeepsAll(rs: seq<Reading>, co: Coercions)
    requires forall i :: 0 <= i < |rs| ==> HeaderDate(rs[i].header, co).Some?
    ensures |WithDates(rs, co)| == |rs|
  {
    if rs != [] {
      WithDatesKeepsAll(rs[1..], co);
    }
  }

  /** A row whose FTE coerced to a number. */
  datatype Measured = Measured(ids: seq<Cell>, amount: real, date: CivilDate)

  /** A dated row with its FTE coerced, or None when it is not a number. */
  function Measuring(d: Dated, co: Coercions): Option<Measured>
  {
    match ToNumeric(d.fte, co)
    case Some(x) => Some(Measured(d.ids, x, d.date))
    case None => None
  }

  /** FTE := to_numeric(FTE, errors="coerce"), rows with a null FTE
      dropped: a row is kept exactly when its FTE coerces, and carries
      that number. */
  function WithNumbers(ds: seq<Dated>, co: Coercions): (ms: seq<Measured>)
    ensures |ms| <= |ds|
    ensures forall m :: m in ms <==> exists d :: d in ds && Measuring(d, co) == Some(m)
  {
    if ds == [] then []
    else
      var rest := WithNumbers(ds[1..], co);
      assert forall d :: d in ds <==> d == ds[0] || d in ds[1..];
      Kept(Measuring(ds[0], co)) + rest
  }

  /** The number filter keeps the order of the rows. */
  lemma {:induction false} WithNumbersAppend(a: seq<Dated>, b: seq<Dated>, co: Coercions)
    ensures WithNumbers(a + b, co) == WithNumbers(a, co) + WithNumbers(b, co)
  {
    if a != [] {
      var head := Kept(Measuring(a[0], co));
      assert (a + b)[0] == a[0];
      assert (a + b)[1..] == a[1..] + b;
      calc {
        WithNumbers(a + b, co);
        head + WithNumbers(a[1..] + b, co);
        { WithNumbersAppend(a[1..], b, co); }
        head + (WithNumbers(a[1..], co) + WithNumbers(b, co));
      }
    } else {
      assert a + b == b;
    }
  }

  // ---------------------------------------------------------------------
  // Provenance and the output table
  // ---------------------------------------------------------------------

  /** The provenance stamped on every row: employment, function, sheet
      name, source file name and the file's time stamp. */
  datatype Stamp = Stamp(employment: string, area: string, sheet: string, source: string, modified: Instant)

  /** The provenance labels, in the order the columns are added. */
  const StampLabels: seq<string> := ["FTE", "FteDate", "Employment", "Function", "Sheet", "SourceFile", "Modified"]

  /** The identity columns the output always has (absence.py:177-179). */
  const FilledLabels: seq<string> := ["Manager", "ContractType", "ReasonCode"]

  /** The labels of FilledLabels that are not among ids, in that order. */
  function Missing(ids: seq<string>): (r: seq<string>)
    ensures forall c :: c in r <==> c in FilledLabels && c !in ids
    ensures |r| <= 3
  {
    (if "Manager" in ids then [] else ["Manager"])
    + (if "ContractType" in ids then [] else ["ContractType"])
    + (if "ReasonCode" in ids then [] else ["ReasonCode"])
  }

  /** The output labels: the identity columns, the stamped ones, then the
      null-filled identity columns. */
  function TidyColumns(ids: seq<string>): seq<string>
  {
    ids + StampLabels + Missing(ids)
  }

  /** One output row. */
  function StampRow(m: Measured, st: Stamp, missing: nat): seq<Cell>
  {
    m.ids + [Num(m.amount), DateVal(m.date), Text(st.employment), Text(st.area),
             Text(st.sheet), Text(st.source), Moment(st.modified)]
    + seq(missing, _ => Empty)
  }

  // ---------------------------------------------------------------------
  // tidy_one_sheet
  // ---------------------------------------------------------------------

  /** The provenance of a sheet. */
  function SheetStamp(sheetName: string, sourceFile: string, mtime: Instant): Stamp
  {
    var p := CategorizeSheet(sheetName);
    Stamp(EmploymentName(p.employment), AreaName(p.area), sheetName, sourceFile, mtime)
  }

  /** Steps 9-14 once the labels are final: melt the date columns, resolve
      and filter, coerce and filter, stamp, null-fill. */
  function Reshape(f: Frame, ids: seq<string>, dates: seq<string>, st: Stamp, co: Coercions): (r: Frame)
    ensures |r.rows| <= |dates| * |f.rows|
  {
    Stamped(ids, WithNumbers(WithDates(MeltAll(f, ids, dates), co), co), st)
  }

  /** Steps 12-14: the stamp added to every measured row and the missing
      identity columns filled with nulls. */
  function Stamped(ids: seq<string>, ms: seq<Measured>, st: Stamp): (r: Frame)
    ensures |r.rows| == |ms|
    ensures forall row :: row in r.rows <==> exists m :: m in ms && row == StampRow(m, st, |Missing(ids)|)
  {
    var missing := |Missing(ids)|;
    var rows := seq(|ms|, k requires 0 <= k < |ms| => StampRow(ms[k], st, missing));
    assert forall k :: 0 <= k < |ms| ==> rows[k] == StampRow(ms[k], st, missing) && rows[k] in rows;
    Frame(TidyColumns(ids), rows)
  }

  /** tidy_one_sheet(grid, sheet_name, source_filename, file_mtime). */
  function TidyOneSheet(g: Grid, sheetName: string, sourceFile: string, mtime: Instant, co: Coercions): (r: Outcome<Frame>)
    ensures RawEmpty(g) ==> r == Done(EmptyFrame)
    ensures r == Raised(IndexError) <==> !RawEmpty(g) && |g| < 4
    ensures r.Raised? && r.failure == KeyError ==> !RawEmpty(g) && |g| >= 4
    ensures r.Done? && r.value != EmptyFrame ==>
      && |g| >= 4
      && WellShaped(r.value)
      && (forall c :: c in StampLabels || c in FilledLabels ==> c in r.value.columns)
      && (forall i :: 0 <= i < |r.value.rows| ==>
            StampedRow(r.value.columns, r.value.rows[i], SheetStamp(sheetName, sourceFile, mtime)))
      && |r.value.rows| <= (|g| - 4) * |DateColumns(Cleaned(g).columns, co)|
  {
    if RawEmpty(g) then Done(EmptyFrame)
    else if |g| < 4 then Raised(IndexError)
    else
      var f1 := Cleaned(g);
      var t := CategorizeSheet(sheetName).template;
      var dates := DateColumns(f1.columns, co);
      if dates == [] then Done(EmptyFrame)
      else
        var f2 := Frame(Relabelled(f1, t, co), f1.rows);
        var ids := IdVars(Needed(t), f2.columns);
        if ids == [] then Done(EmptyFrame)
        else if exists v :: v in dates && v !in f2.columns then Raised(KeyError)
        else
          NeededAreIdentity(t, f2.columns);
          ReshapeRows(f2, ids, dates, SheetStamp(sheetName, sourceFile, mtime), co);
          assert |dates| * |f2.rows| == (|g| - 4) * |dates|;
          Done(Reshape(f2, ids, dates, SheetStamp(sheetName, sourceFile, mtime), co))
  }

  // ---------------------------------------------------------------------
  // Properties of the output
  // ---------------------------------------------------------------------

  /** tidy_one_sheet answers with an empty table exactly when the grid is
      empty, no header resolves to a date, or no identity column survives;
      and the last never happens while some column is not a date. */
  lemma TidyEmptyExactly(g: Grid, sheetName: string, sourceFile: string, mtime: Instant, co: Coercions)
    requires !RawEmpty(g) && |g| >= 4
    ensures var f1 := Cleaned(g);
      var t := CategorizeSheet(sheetName).template;
      var dates := DateColumns(f1.columns, co);
      && ((TidyOneSheet(g, sheetName, sourceFile, mtime, co) == Done(EmptyFrame))
            <==> (dates == [] || IdVars(Needed(t), Relabelled(f1, t, co)) == []))
      && (dates != [] && NonDateColumns(f1.columns, dates) != [] ==>
            TidyOneSheet(g, sheetName, sourceFile, mtime, co) != Done(EmptyFrame))
  {
    var f1 := Cleaned(g);
    var t := CategorizeSheet(sheetName).template;
    var dates := DateColumns(f1.columns, co);
    if dates != [] && NonDateColumns(f1.columns, dates) != [] {
      IdentitySurvives(f1, t, co);
    }
  }

  /** The output row that value column v and data row i yield, read off
      the grid directly: None when the header does not resolve to a date
      or the cell does not coerce to a number. */
  function SheetRow(f: Frame, ids: seq<string>, v: string, i: nat, st: Stamp, co: Coercions): Option<seq<Cell>>
    requires i < |f.rows|
  {
    match HeaderDate(v, co)
    case None => None
    case Some(d) =>
      match ToNumeric(CellOf(f.columns, f.rows[i], v), co)
      case None => None
      case Some(x) => Some(StampRow(Measured(IdCells(f, ids, i), x, d), st, |Missing(ids)|))
  }

  /** The reshaped table has the tidy labels, and its rows are exactly the
      rows some date column and some data row yield: every reading whose
      header is a date and whose FTE is a number is kept, with row i's
      identity cells, that number and that date, and nothing else is. */
  lemma ReshapeContents(f: Frame, ids: seq<string>, dates: seq<string>, st: Stamp, co: Coercions, row: seq<Cell>)
    ensures Reshape(f, ids, dates, st, co).columns == TidyColumns(ids)
    ensures row in Reshape(f, ids, dates, st, co).rows <==>
      exists v, i :: v in dates && 0 <= i < |f.rows| && SheetRow(f, ids, v, i, st, co) == Some(row)
  {
    if row in Reshape(f, ids, dates, st, co).rows {
      var v, i := ReshapeRowSource(f, ids, dates, st, co, row);
    }
    if exists v, i :: v in dates && 0 <= i < |f.rows| && SheetRow(f, ids, v, i, st, co) == Some(row) {
      var v, i :| v in dates && 0 <= i < |f.rows| && SheetRow(f, ids, v, i, st, co) == Some(row);
      ReshapeRowKept(f, ids, dates, st, co, v, i);
    }
  }

  /** Every reshaped row comes from some date column and data row. */
  lemma ReshapeRowSource(f: Frame, ids: seq<string>, dates: seq<string>, st: Stamp, co: Coercions, row: seq<Cell>)
      returns (v: string, i: nat)
    requires row in Reshape(f, ids, dates, st, co).rows
    ensures v in dates && i < |f.rows| && SheetRow(f, ids, v, i, st, co) == Some(row)
  {
    var rs := MeltAll(f, ids, dates);
    var ds := WithDates(rs, co);
    var m := StampedSource(ids, WithNumbers(ds, co), st, row);
    var d := MeasuredSource(ds, co, m);
    var r := DatedSource(rs, co, d);
    v, i := ReadingSource(f, ids, dates, r);
    assert HeaderDate(v, co) == Some(d.date);
    assert ToNumeric(CellOf(f.columns, f.rows[i], v), co) == Some(m.amount);
  }

  lemma StampedSource(ids: seq<string>, ms: seq<Measured>, st: Stamp, row: seq<Cell>) returns (m: Measured)
    requires row in Stamped(ids, ms, st).rows
    ensures m in ms && row == StampRow(m, st, |Missing(ids)|)
  {
    m :| m in ms && row == StampRow(m, st, |Missing(ids)|);
  }

  lemma MeasuredSource(ds: seq<Dated>, co: Coercions, m: Measured) returns (d: Dated)
    requires m in WithNumbers(ds, co)
    ensures d in ds && d.ids == m.ids && d.date == m.date && ToNumeric(d.fte, co) == Some(m.amount)
  {
    d :| d in ds && Measuring(d, co) == Some(m);
  }

  lemma DatedSource(rs: seq<Reading>, co: Coercions, d: Dated) returns (r: Reading)
    requires d in WithDates(rs, co)
    ensures r in rs && r.ids == d.ids && r.fte == d.fte && HeaderDate(r.header, co) == Some(d.date)
  {
    r :| r in rs && Dating(r, co) == Some(d);
  }

  lemma ReadingSource(f: Frame, ids: seq<string>, dates: seq<string>, r: Reading) returns (v: string, i: nat)
    requires r in MeltAll(f, ids, dates)
    ensures v in dates && i < |f.rows| && r == ReadingAt(f, ids, v, i)
  {
    v, i :| v in dates && 0 <= i < |f.rows| && r == ReadingAt(f, ids, v, i);
  }

  /** Every date column and data row that yield a row contribute it. */
  lemma ReshapeRowKept(f: Frame, ids: seq<string>, dates: seq<string>, st: Stamp, co: Coercions, v: string, i: nat)
    requires v in dates && i < |f.rows| && SheetRow(f, ids, v, i, st, co).Some?
    ensures SheetRow(f, ids, v, i, st, co).value in Reshape(f, ids, dates, st, co).rows
  {
    var rs := MeltAll(f, ids, dates);
    var r := ReadingAt(f, ids, v, i);
    assert r in rs;
    var d := Dating(r, co).value;
    assert d in WithDates(rs, co);
    var m := Measuring(d, co).value;
    assert m in WithNumbers(WithDates(rs, co), co);
    assert SheetRow(f, ids, v, i, st, co).value == StampRow(m, st, |Missing(ids)|);
  }

  /** Melting the date columns a then b gives a's readings, then b's. */
  lemma {:induction false} MeltAllAppend(f: Frame, ids: seq<string>, a: seq<string>, b: seq<string>)
    ensures MeltAll(f, ids, a + b) == MeltAll(f, ids, a) + MeltAll(f, ids, b)
  {
    if a != [] {
      assert (a + b)[0] == a[0];
      assert (a + b)[1..] == a[1..] + b;
      MeltAllAppend(f, ids, a[1..], b);
    } else {
      assert a + b == b;
    }
  }

  /** Stamping keeps the order of the measured rows. */
  lemma StampedAppend(ids: seq<string>, a: seq<Measured>, b: seq<Measured>, st: Stamp)
    ensures Stamped(ids, a + b, st).rows == Stamped(ids, a, st).rows + Stamped(ids, b, st).rows
  {
    var r := Stamped(ids, a + b, st).rows;
    var s := Stamped(ids, a, st).rows + Stamped(ids, b, st).rows;
    assert |r| == |s|;
    forall k | 0 <= k < |r|
      ensures r[k] == s[k]
    {
      if k < |a| {
        assert (a + b)[k] == a[k];
      } else {
        assert (a + b)[k] == b[k - |a|];
      }
    }
  }

  /** The output is ordered by date column: the rows the date columns a
      then b yield are a's rows followed by b's. */
  lemma ReshapeAppend(f: Frame, ids: seq<string>, a: seq<string>, b: seq<string>, st: Stamp, co: Coercions)
    ensures Reshape(f, ids, a + b, st, co).rows == Reshape(f, ids, a, st, co).rows + Reshape(f, ids, b, st, co).rows
  {
    var ra := MeltAll(f, ids, a);
    var rb := MeltAll(f, ids, b);
    MeltAllAppend(f, ids, a, b);
    WithDatesAppend(ra, rb, co);
    WithNumbersAppend(WithDates(ra, co), WithDates(rb, co), co);
    StampedAppend(ids, WithNumbers(WithDates(ra, co), co), WithNumbers(WithDates(rb, co), co), st);
  }

  /** A non-empty answer of tidy_one_sheet is the reshape of the cleaned,
      relabelled sheet over its date columns. */
  lemma TidyOneSheetIsReshape(g: Grid, sheetName: string, sourceFile: string, mtime: Instant, co: Coercions)
    ensures var r := TidyOneSheet(g, sheetName, sourceFile, mtime, co);
      r.Done? && r.value != EmptyFrame ==>
        var f1 := Cleaned(g);
        var t := CategorizeSheet(sheetName).template;
        var f2 := Frame(Relabelled(f1, t, co), f1.rows);
        r.value == Reshape(f2, IdVars(Needed(t), f2.columns), DateColumns(f1.columns, co),
                           SheetStamp(sheetName, sourceFile, mtime), co)
  {
  }

  /** Each row of a non-empty answer of tidy_one_sheet comes from one date
      column and one data row of the cleaned, relabelled sheet, and each
      such pair whose header is a date and whose FTE is a number gives a
      row. */
  lemma TidyOneSheetRows(g: Grid, sheetName: string, sourceFile: string, mtime: Instant, co: Coercions, row: seq<Cell>)
    ensures var r := TidyOneSheet(g, sheetName, sourceFile, mtime, co);
      r.Done? && r.value != EmptyFrame ==>
        var f1 := Cleaned(g);
        var t := CategorizeSheet(sheetName).template;
        var dates := DateColumns(f1.columns, co);
        var f2 := Frame(Relabelled(f1, t, co), f1.rows);
        var ids := IdVars(Needed(t), f2.columns);
        && r.value.columns == TidyColumns(ids)
        && (row in r.value.rows <==>
              exists v, i :: v in dates && 0 <= i < |f2.rows|
                && SheetRow(f2, ids, v, i, SheetStamp(sheetName, sourceFile, mtime), co) == Some(row))
  {
    var r := TidyOneSheet(g, sheetName, sourceFile, mtime, co);
    if r.Done? && r.value != EmptyFrame {
      var f1 := Cleaned(g);
      var t := CategorizeSheet(sheetName).template;
      var dates := DateColumns(f1.columns, co);
      var f2 := Frame(Relabelled(f1, t, co), f1.rows);
      var ids := IdVars(Needed(t), f2.columns);
      TidyOneSheetIsReshape(g, sheetName, sourceFile, mtime, co);
      ReshapeContents(f2, ids, dates, SheetStamp(sheetName, sourceFile, mtime), co, row);
    }
  }

  /** c is not among the first labels: the lookup moves past them. */
  lemma {:induction false} IndexOfAppend(a: seq<string>, b: seq<string>, c: string)
    requires c !in a
    ensures IndexOf(a + b, c) == |a| + IndexOf(b, c)
  {
    if a != [] {
      assert (a + b)[0] == a[0] != c;
      assert (a + b)[1..] == a[1..] + b;
      IndexOfAppend(a[1..], b, c);
    } else {
      assert a + b == b;
    }
  }

  /** The first position holding c. */
  lemma FirstAt(s: seq<string>, i: nat, c: string)
    requires i < |s| && s[i] == c
    requires forall j :: 0 <= j < i ==> s[j] != c
    ensures IndexOf(s, c) == i
  {
  }

  /** Each stamped label is found at its own position after the identity
      columns. */
  lemma StampPositions(rest: seq<string>, k: nat)
    requires k < |StampLabels|
    ensures IndexOf(StampLabels + rest, StampLabels[k]) == k
  {
    var s := StampLabels + rest;
    assert forall j, k :: 0 <= j < k < |StampLabels| ==> StampLabels[j] != StampLabels[k];
    FirstAt(s, k, StampLabels[k]);
  }

  /** The labels a template can ask for. */
  predicate IdentityLabel(c: string)
  {
    c == "Agency" || c == "Manager" || c == "ContractType" || c == "ReasonCode"
  }

  /** Each row of a reshaped table, looked up by label: FTE is a number,
      FteDate a date, and the five provenance columns hold the stamp. */
  predicate StampedRow(cols: seq<string>, row: seq<Cell>, st: Stamp)
  {
    && CellOf(cols, row, "FTE").Num?
    && CellOf(cols, row, "FteDate").DateVal?
    && CellOf(cols, row, "Employment") == Text(st.employment)
    && CellOf(cols, row, "Function") == Text(st.area)
    && CellOf(cols, row, "Sheet") == Text(st.sheet)
    && CellOf(cols, row, "SourceFile") == Text(st.source)
    && CellOf(cols, row, "Modified") == Moment(st.modified)
  }

  lemma {:induction false} WithDatesIds(rs: seq<Reading>, co: Coercions, n: nat)
    requires forall i :: 0 <= i < |rs| ==> |rs[i].ids| == n
    ensures forall k :: 0 <= k < |WithDates(rs, co)| ==> |WithDates(rs, co)[k].ids| == n
  {
    if rs != [] {
      WithDatesIds(rs[1..], co, n);
    }
  }

  lemma {:induction false} WithNumbersIds(ds: seq<Dated>, co: Coercions, n: nat)
    requires forall i :: 0 <= i < |ds| ==> |ds[i].ids| == n
    ensures forall k :: 0 <= k < |WithNumbers(ds, co)| ==> |WithNumbers(ds, co)[k].ids| == n
  {
    if ds != [] {
      WithNumbersIds(ds[1..], co, n);
    }
  }

  /** A reshaped table is well shaped, has every stamped and every
      null-filled label, and every row carries the stamp. */
  lemma ReshapeRows(f: Frame, ids: seq<string>, dates: seq<string>, st: Stamp, co: Coercions)
    requires forall c :: c in ids ==> IdentityLabel(c)
    ensures var r := Reshape(f, ids, dates, st, co);
      && WellShaped(r)
      && (forall c :: c in StampLabels || c in FilledLabels ==> c in r.columns)
      && (forall i :: 0 <= i < |r.rows| ==> StampedRow(r.columns, r.rows[i], st))
  {
    var rs := MeltAll(f, ids, dates);
    WithDatesIds(rs, co, |ids|);
    WithNumbersIds(WithDates(rs, co), co, |ids|);
    StampedRows(ids, WithNumbers(WithDates(rs, co), co), st);
  }

  /** Stamping measured rows gives a well-shaped table with every stamped
      and null-filled label, each row carrying the stamp. */
  lemma StampedRows(ids: seq<string>, ms: seq<Measured>, st: Stamp)
    requires forall c :: c in ids ==> IdentityLabel(c)
    requires forall k :: 0 <= k < |ms| ==> |ms[k].ids| == |ids|
    ensures var r := Stamped(ids, ms, st);
      && WellShaped(r)
      && (forall c :: c in StampLabels || c in FilledLabels ==> c in r.columns)
      && (forall i :: 0 <= i < |r.rows| ==> StampedRow(r.columns, r.rows[i], st))
  {
    var r := Stamped(ids, ms, st);
    var rest := StampLabels + Missing(ids);
    assert r.columns == ids + rest;
    forall c | c in StampLabels ensures c !in ids {
      StampNotIdentity(c);
    }
    forall i | 0 <= i < |r.rows|
      ensures StampedRow(r.columns, r.rows[i], st) && |r.rows[i]| == |r.columns|
    {
      StampRowCells(ms[i], st, |Missing(ids)|, |ids|);
      StampedAt(ids, rest, r.rows[i], st);
    }
    forall c | c in FilledLabels ensures c in r.columns {
      if c !in ids {
        assert c in Missing(ids);
      }
    }
  }

  lemma StampNotIdentity(c: string)
    requires c in StampLabels
    ensures !IdentityLabel(c)
  {
  }

  /** The cells of a stamped row, by position. */
  lemma StampRowCells(m: Measured, st: Stamp, missing: nat, n: nat)
    requires |m.ids| == n
    ensures var row := StampRow(m, st, missing);
      && |row| == n + 7 + missing
      && row[n] == Num(m.amount) && row[n + 1] == DateVal(m.date)
      && row[n + 2] == Text(st.employment) && row[n + 3] == Text(st.area)
      && row[n + 4] == Text(st.sheet) && row[n + 5] == Text(st.source)
      && row[n + 6] == Moment(st.modified)
  {
  }

  /** The stamped cells sit right after the identity cells. */
  lemma StampedAt(ids: seq<string>, rest: seq<string>, row: seq<Cell>, st: Stamp)
    requires forall c :: c in StampLabels ==> c !in ids
    requires rest == StampLabels + Missing(ids)
    requires |row| == |ids| + |rest|
    requires row[|ids|].Num? && row[|ids| + 1].DateVal?
    requires row[|ids| + 2] == Text(st.employment) && row[|ids| + 3] == Text(st.area)
    requires row[|ids| + 4] == Text(st.sheet) && row[|ids| + 5] == Text(st.source)
    requires row[|ids| + 6] == Moment(st.modified)
    ensures StampedRow(ids + rest, row, st)
  {
    forall k | 0 <= k < |StampLabels|
      ensures IndexOf(ids + rest, StampLabels[k]) == |ids| + k
    {
      IndexOfAppend(ids, rest, StampLabels[k]);
      StampPositions(Missing(ids), k);
    }
    assert StampLabels[0] == "FTE" && StampLabels[1] == "FteDate" && StampLabels[2] == "Employment";
    assert StampLabels[3] == "Function" && StampLabels[4] == "Sheet" && StampLabels[5] == "SourceFile";
    assert StampLabels[6] == "Modified";
  }

  /** Every header of the melted rows is a date column's label, so the
      FteDate filter keeps every melted row. */
  lemma NoUndatedRows(f: Frame, ids: seq<string>, dates: seq<string>, co: Coercions)
    requires forall v :: v in dates ==> HeaderDate(v, co).Some?
    ensures |WithDates(MeltAll(f, ids, dates), co)| == |dates| * |f.rows|
  {
    WithDatesKeepsAll(MeltAll(f, ids, dates), co);
  }

  lemma NeededAreIdentity(t: Employment, cols: seq<string>)
    ensures forall c :: c in IdVars(Needed(t), cols) ==> IdentityLabel(c)
  {
  }
}
