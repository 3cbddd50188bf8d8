/** One uploaded workbook turned into a consolidated table
    (process_uploaded_xlsx, absence.py:184-245), and the merge of the
    tables of several workbooks (absence.py:266-284). */
module Consolidate {
  import opened Wrappers
  import opened Text
  import opened Dates
  import opened Sheets
  import opened Cells
  import opened Columns
  import opened Tidy
  import opened Dedup

  /** A workbook as the reader hands it over: sheet name to cell grid. */
  type Workbook = map<string, Grid>

  predicate Distinct(s: seq<string>)
  {
    forall i, j :: 0 <= i < j < |s| ==> s[i] != s[j]
  }

  /** The names of `names` found in `have`, in the order of `names`. */
  function Present(names: seq<string>, have: set<string>): (r: seq<string>)
    ensures forall c :: c in r <==> c in names && c in have
    ensures Distinct(names) ==> Distinct(r)
  {
    if names == [] then []
    else
      var rest := Present(names[1..], have);
      assert forall c :: c in names <==> c == names[0] || c in names[1..] by {
        assert names == [names[0]] + names[1..];
      }
      if names[0] in have then
        assert forall j :: 0 < j < |names| ==> names[j] == names[1..][j - 1];
        [names[0]] + rest
      else rest
  }

  // ---------------------------------------------------------------------
  // The loop over the sheets (absence.py:207-210)
  // ---------------------------------------------------------------------

  /** The loop over the first n sheet outcomes: an exception ends it, an
      empty table is skipped, any other table is appended. */
  function Gather(outs: seq<Outcome<Frame>>, n: nat): (r: Outcome<seq<Frame>>)
    requires n <= |outs|
    ensures r.Done? ==> |r.value| <= n
  {
    if n == 0 then Done([])
    else
      match Gather(outs, n - 1)
      case Raised(e) => Raised(e)
      case Done(ts) =>
        match outs[n - 1]
        case Raised(e) => Raised(e)
        case Done(t) => Done(ts + (if IsEmpty(t) then [] else [t]))
  }

  /** The loop runs to the end exactly when no sheet raises. */
  lemma {:induction false} GatherDone(outs: seq<Outcome<Frame>>, n: nat)
    requires n <= |outs|
    ensures Gather(outs, n).Done? <==> forall j :: 0 <= j < n ==> outs[j].Done?
  {
    if n > 0 {
      GatherDone(outs, n - 1);
    }
  }

  /** The loop raises e exactly when the first sheet that raises raises e. */
  lemma {:induction false} GatherRaises(outs: seq<Outcome<Frame>>, n: nat, e: Failure)
    requires n <= |outs|
    ensures Gather(outs, n) == Raised(e) <==>
      exists i :: 0 <= i < n && outs[i] == Raised(e) && forall j :: 0 <= j < i ==> outs[j].Done?
  {
    if n > 0 {
      GatherRaises(outs, n - 1, e);
      GatherDone(outs, n - 1);
      if Gather(outs, n - 1).Raised? {
        var e' := Gather(outs, n - 1).failure;
        GatherRaises(outs, n - 1, e');
        var i' :| 0 <= i' < n - 1 && outs[i'] == Raised(e') && forall j :: 0 <= j < i' ==> outs[j].Done?;
        if exists i :: 0 <= i < n && outs[i] == Raised(e) && forall j :: 0 <= j < i ==> outs[j].Done? {
          var i :| 0 <= i < n && outs[i] == Raised(e) && forall j :: 0 <= j < i ==> outs[j].Done?;
          assert !(i < i') && !(i' < i);
        }
      }
    }
  }

  /** One more turn of the loop. */
  lemma GatherStep(outs: seq<Outcome<Frame>>, n: nat)
    requires n < |outs| && Gather(outs, n).Done?
    ensures outs[n].Raised? ==> Gather(outs, n + 1) == Raised(outs[n].failure)
    ensures outs[n].Done? ==>
      Gather(outs, n + 1) == Done(Gather(outs, n).value + (if IsEmpty(outs[n].value) then [] else [outs[n].value]))
  {
  }

  /** When every sheet gives an empty table the loop collects nothing. */
  lemma {:induction false} GatherNothing(outs: seq<Outcome<Frame>>, n: nat)
    requires n <= |outs| && forall i :: 0 <= i < n ==> outs[i].Done? && IsEmpty(outs[i].value)
    ensures Gather(outs, n) == Done([])
  {
    if n > 0 {
      GatherNothing(outs, n - 1);
      assert Gather(outs, n - 1).value + [] == [];
    }
  }

  /** Once the loop has raised, later sheets change nothing. */
  lemma {:induction false} GatherRaisedStays(outs: seq<Outcome<Frame>>, i: nat, n: nat)
    requires i <= n <= |outs| && Gather(outs, i).Raised?
    ensures Gather(outs, n) == Gather(outs, i)
    decreases n
  {
    if n > i {
      GatherRaisedStays(outs, i, n - 1);
    }
  }

  /** The tables collected are exactly the non-empty tables the sheets
      produced. */
  lemma {:induction false} GatherKeeps(outs: seq<Outcome<Frame>>, n: nat)
    requires n <= |outs| && Gather(outs, n).Done?
    ensures forall t :: t in Gather(outs, n).value ==>
      !IsEmpty(t) && exists i :: 0 <= i < n && outs[i] == Done(t)
    ensures forall i :: 0 <= i < n && outs[i].Done? && !IsEmpty(outs[i].value) ==>
      outs[i].value in Gather(outs, n).value
  {
    if n > 0 {
      GatherKeeps(outs, n - 1);
      var ts := Gather(outs, n - 1).value;
      var t := outs[n - 1].value;
      assert Gather(outs, n).value == ts + (if IsEmpty(t) then [] else [t]);
    }
  }

  /** What tidy_one_sheet gives for each listed sheet. */
  function SheetOutcomes(wb: Workbook, sheets: seq<string>, source: string, mtime: Instant, co: Coercions): (outs: seq<Outcome<Frame>>)
    requires forall s :: s in sheets ==> s in wb
    ensures |outs| == |sheets|
  {
    seq(|sheets|, i requires 0 <= i < |sheets| => TidyOneSheet(wb[sheets[i]], sheets[i], source, mtime, co))
  }

  /** One turn of the loop: tidy sheet i, then append its table unless
      it is empty. `outs` stands for the outcomes of all the sheets. */
  method CollectOne(wb: Workbook, sheets: seq<string>, i: nat, source: string, mtime: Instant, co: Coercions,
                    ghost outs: seq<Outcome<Frame>>, allRows: seq<Frame>)
    returns (r: Outcome<seq<Frame>>)
    requires i < |sheets| == |outs| && sheets[i] in wb
    requires outs[i] == TidyOneSheet(wb[sheets[i]], sheets[i], source, mtime, co)
    requires Gather(outs, i) == Done(allRows)
    ensures r == Gather(outs, i + 1)
  {
    var tidy := TidyOneSheet(wb[sheets[i]], sheets[i], source, mtime, co);
    assert tidy == outs[i];
    GatherStep(outs, i);
    if tidy.Raised? {
      r := Raised(tidy.failure);
    } else if IsEmpty(tidy.value) {
      assert allRows + [] == allRows;
      r := Done(allRows);
    } else {
      r := Done(allRows + [tidy.value]);
    }
  }

  /** The loop of absence.py:207-210, appending to `allRows`; an
      exception from a sheet ends it. */
  method CollectSheets(wb: Workbook, sheets: seq<string>, source: string, mtime: Instant, co: Coercions)
    returns (r: Outcome<seq<Frame>>)
    requires forall s :: s in sheets ==> s in wb
    ensures r == Gather(SheetOutcomes(wb, sheets, source, mtime, co), |sheets|)
  {
    ghost var outs := SheetOutcomes(wb, sheets, source, mtime, co);
    var allRows: seq<Frame> := [];
    for i := 0 to |sheets|
      invariant Gather(outs, i) == Done(allRows)
    {
      var step := CollectOne(wb, sheets, i, source, mtime, co, outs, allRows);
      if step.Raised? {
        GatherRaisedStays(outs, i + 1, |sheets|);
        return step;
      }
      allRows := step.value;
    }
    return Done(allRows);
  }

  // ---------------------------------------------------------------------
  // pd.concat (absence.py:215)
  // ---------------------------------------------------------------------

  /** acc followed by the labels of cols it lacks, in order of appearance. */
  function AddLabels(acc: seq<string>, cols: seq<string>): (r: seq<string>)
    ensures forall c :: c in r <==> c in acc || c in cols
    ensures |acc| <= |r| && r[..|acc|] == acc
    ensures Distinct(acc) ==> Distinct(r)
    decreases |cols|
  {
    if cols == [] then acc
    else
      assert forall c :: c in cols <==> c == cols[0] || c in cols[1..] by {
        assert cols == [cols[0]] + cols[1..];
      }
      var next := if cols[0] in acc then acc else acc + [cols[0]];
      assert next[..|acc|] == acc;
      var r := AddLabels(next, cols[1..]);
      assert r[..|acc|] == r[..|next|][..|acc|];
      r
  }

  /** The column labels of the first n tables, each once, in order of
      appearance. */
  function UnionLabels(fs: seq<Frame>, n: nat): (r: seq<string>)
    requires n <= |fs|
    ensures Distinct(r)
    ensures forall k, c :: 0 <= k < n && c in fs[k].columns ==> c in r
  {
    if n == 0 then [] else AddLabels(UnionLabels(fs, n - 1), fs[n - 1].columns)
  }

  /** A row laid out under the labels `cols`: each label takes the row's
      cell under that label, Empty where the row has none. */
  function Realign(cols: seq<string>, from: seq<string>, row: Row): (r: Row)
    ensures |r| == |cols|
  {
    seq(|cols|, j requires 0 <= j < |cols| => CellOf(from, row, cols[j]))
  }

  /** Realigning keeps every cell a label finds. */
  lemma RealignLookup(cols: seq<string>, from: seq<string>, row: Row, c: string)
    requires c in cols
    ensures CellOf(cols, Realign(cols, from, row), c) == CellOf(from, row, c)
  {
    var j := IndexOf(cols, c);
    assert Realign(cols, from, row)[j] == CellOf(from, row, cols[j]);
  }

  /** The rows of the first n tables, realigned under cols. */
  function AlignRows(cols: seq<string>, fs: seq<Frame>, n: nat): (rows: seq<Row>)
    requires n <= |fs|
    ensures forall i :: 0 <= i < |rows| ==> |rows[i]| == |cols|
  {
    if n == 0 then []
    else
      var f := fs[n - 1];
      AlignRows(cols, fs, n - 1) + seq(|f.rows|, i requires 0 <= i < |f.rows| => Realign(cols, f.columns, f.rows[i]))
  }

  /** pd.concat(ignore_index=True): the union of the labels, and the rows
      of every table in turn, missing cells Empty. */
  function ConcatFrames(fs: seq<Frame>): (r: Frame)
    ensures WellShaped(r) && Distinct(r.columns)
    ensures forall k, c :: 0 <= k < |fs| && c in fs[k].columns ==> c in r.columns
  {
    var cols := UnionLabels(fs, |fs|);
    Frame(cols, AlignRows(cols, fs, |fs|))
  }

  /** Every row of every table is in the concatenation, and the
      concatenation has no other rows. */
  lemma {:induction false} AlignRowsOrigin(cols: seq<string>, fs: seq<Frame>, n: nat)
    requires n <= |fs|
    ensures forall k, i :: 0 <= k < n && 0 <= i < |fs[k].rows| ==>
      Realign(cols, fs[k].columns, fs[k].rows[i]) in AlignRows(cols, fs, n)
    ensures forall row :: row in AlignRows(cols, fs, n) ==>
      exists k, i :: 0 <= k < n && 0 <= i < |fs[k].rows| && row == Realign(cols, fs[k].columns, fs[k].rows[i])
  {
    if n > 0 {
      AlignRowsOrigin(cols, fs, n - 1);
      var f := fs[n - 1];
      var front := AlignRows(cols, fs, n - 1);
      var back := seq(|f.rows|, i requires 0 <= i < |f.rows| => Realign(cols, f.columns, f.rows[i]));
      assert AlignRows(cols, fs, n) == front + back;
      forall i | 0 <= i < |f.rows| ensures Realign(cols, f.columns, f.rows[i]) in front + back {
        assert back[i] == Realign(cols, f.columns, f.rows[i]);
      }
    }
  }

  /** Every cell of an input row is found under its label in the
      concatenation. */
  lemma ConcatKeepsCells(fs: seq<Frame>, k: nat, i: nat, c: string)
    requires k < |fs| && i < |fs[k].rows| && c in fs[k].columns
    ensures var r := ConcatFrames(fs);
      && Realign(r.columns, fs[k].columns, fs[k].rows[i]) in r.rows
      && CellOf(r.columns, Realign(r.columns, fs[k].columns, fs[k].rows[i]), c) == CellOf(fs[k].columns, fs[k].rows[i], c)
  {
    var r := ConcatFrames(fs);
    AlignRowsOrigin(r.columns, fs, |fs|);
    RealignLookup(r.columns, fs[k].columns, fs[k].rows[i], c);
  }

  // ---------------------------------------------------------------------
  // The date window (absence.py:185-187, 222-223)
  // ---------------------------------------------------------------------

  /** January 1 of the year before `today`. */
  function WindowStart(today: CivilDate): Date
  {
    Date(today.year - 1, 1, 1)
  }

  predicate Within(d: Date, start: Date, end: Date)
  {
    AtMost(start, d) && AtMost(d, end)
  }

  /** The row's date under `name` is known and inside [start, end]; a
      missing date compares false on both sides. */
  predicate InWindow(cols: seq<string>, row: Row, name: string, start: Date, end: Date, co: Coercions)
  {
    match ToDate(CellOf(cols, row, name), co)
    case Some(d) => Within(d, start, end)
    case None => false
  }

  /** The boolean mask of absence.py:223. */
  function KeepInWindow(cols: seq<string>, rows: seq<Row>, name: string, start: Date, end: Date, co: Coercions): (r: seq<Row>)
    ensures forall row :: row in r <==> row in rows && InWindow(cols, row, name, start, end, co)
  {
    if rows == [] then []
    else
      assert forall row :: row in rows <==> row == rows[0] || row in rows[1..] by {
        assert rows == [rows[0]] + rows[1..];
      }
      (if InWindow(cols, rows[0], name, start, end, co) then [rows[0]] else [])
      + KeepInWindow(cols, rows[1..], name, start, end, co)
  }

  // ---------------------------------------------------------------------
  // The consolidation steps (absence.py:218-243)
  // ---------------------------------------------------------------------

  /** make_unique on the labels, then the FteDate and FTE collapses
      (absence.py:218-220). */
  function Prepared(f: Frame, co: Coercions): (r: Frame)
    requires WellShaped(f)
    ensures WellShaped(r)
  {
    var f1 := Frame(MakeUnique(f.columns), f.rows);
    var f2 := CollapseSimilar(f1, "FteDate", DatetimeConversion, co);
    CollapseSimilar(f2, "FTE", NumericConversion, co)
  }

  /** The rows of a prepared table dated inside [January 1 of last
      year, today]; reading the FteDate column raises KeyError when there
      is none. */
  function Windowed(p: Frame, today: CivilDate, co: Coercions): (r: Outcome<Frame>)
    requires WellShaped(p)
    ensures r.Done? ==> WellShaped(r.value)
  {
    if "FteDate" !in p.columns then Raised(KeyError)
    else
      var kept := KeepInWindow(p.columns, p.rows, "FteDate", WindowStart(today), today, co);
      assert forall i :: 0 <= i < |kept| ==> kept[i] in p.rows;
      Done(Frame(p.columns, kept))
  }

  /** The business key: those of its labels the table has. */
  const KeyLabels: seq<string> := ["Agency", "Manager", "ContractType", "ReasonCode", "Employment", "Function", "Sheet", "FteDate"]

  function KeyColumns(cols: seq<string>): seq<string>
  {
    Present(KeyLabels, set c | c in cols)
  }

  /** The table after absence.py:230: newest first, one row per key;
      sorting on a missing Modified column raises KeyError. */
  function Deduped(f: Frame, today: CivilDate, co: Coercions): (r: Outcome<Frame>)
    requires WellShaped(f)
    ensures r.Done? ==> WellShaped(r.value)
  {
    match Windowed(Prepared(f, co), today, co)
    case Raised(e) => Raised(e)
    case Done(w) =>
      if "Modified" !in w.columns then Raised(KeyError)
      else
        DeduplicateFromInput(w.columns, KeyColumns(w.columns), w.rows);
        Done(Frame(w.columns, Deduplicate(w.columns, KeyColumns(w.columns), w.rows)))
  }

  /** strftime("%Y-%m-%d") of to_datetime(v, errors="coerce"). */
  function IsoCell(c: Cell, co: Coercions): Cell
  {
    match ToDate(c, co)
    case Some(d) => Text(IsoText(d))
    case None => Empty
  }

  /** The row with its `name` cell rewritten as an ISO date. */
  function FormatRow(cols: seq<string>, row: Row, name: string, co: Coercions): (r: Row)
    requires |row| == |cols|
    ensures |r| == |row|
    ensures CellOf(cols, r, name) == IsoCell(CellOf(cols, row, name), co)
    ensures forall c :: c != name ==> CellOf(cols, r, c) == CellOf(cols, row, c)
  {
    var j := IndexOf(cols, name);
    if j < |cols| && j < |row| then row[j := IsoCell(row[j], co)] else row
  }

  /** The leading labels of the output, in this order. */
  const OrderLabels: seq<string> := ["Agency", "Manager", "ContractType", "ReasonCode", "Employment", "Function", "Sheet", "FteDate", "FTE", "SourceFile", "Modified"]

  /** cols without the labels of `front`, in order. */
  function Others(cols: seq<string>, front: seq<string>): (r: seq<string>)
    ensures forall c :: c in r <==> c in cols && c !in front
    ensures Distinct(cols) ==> Distinct(r)
  {
    if cols == [] then []
    else
      var rest := Others(cols[1..], front);
      assert forall c :: c in cols <==> c == cols[0] || c in cols[1..] by {
        assert cols == [cols[0]] + cols[1..];
      }
      if cols[0] in front then rest
      else
        assert forall j :: 0 < j < |cols| ==> cols[j] == cols[1..][j - 1];
        [cols[0]] + rest
  }

  lemma DistinctJoin(a: seq<string>, b: seq<string>)
    requires forall c :: c in b ==> c !in a
    ensures Distinct(a) && Distinct(b) ==> Distinct(a + b)
  {
    if Distinct(a) && Distinct(b) {
      forall i, j | 0 <= i < j < |a + b| ensures (a + b)[i] != (a + b)[j] {
        if j >= |a| {
          assert (a + b)[j] == b[j - |a|];
          if i >= |a| {
            assert (a + b)[i] == b[i - |a|];
          } else {
            assert (a + b)[i] == a[i] && a[i] in a;
            assert b[j - |a|] in b;
          }
        } else {
          assert (a + b)[i] == a[i] && (a + b)[j] == a[j];
        }
      }
    }
  }

  /** The output order: the listed labels present, then every other
      label in its place (absence.py:236-243). */
  function Ordering(cols: seq<string>): (r: seq<string>)
    ensures forall c :: c in r <==> c in cols
    ensures |Present(OrderLabels, set c | c in cols)| <= |r|
    ensures r[..|Present(OrderLabels, set c | c in cols)|] == Present(OrderLabels, set c | c in cols)
    ensures Distinct(cols) ==> Distinct(r)
  {
    var front := Present(OrderLabels, set c | c in cols);
    var back := Others(cols, front);
    assert (front + back)[..|front|] == front;
    assert Distinct(OrderLabels);
    DistinctJoin(front, back);
    front + back
  }

  /** FteDate as text, then the columns in output order (absence.py:234-243). */
  function Finish(f: Frame, co: Coercions): (r: Frame)
    requires WellShaped(f)
    ensures WellShaped(r) && |r.rows| == |f.rows|
    ensures forall c :: c in r.columns <==> c in f.columns
  {
    var cols := Ordering(f.columns);
    Frame(cols, seq(|f.rows|, i requires 0 <= i < |f.rows| =>
      Realign(cols, f.columns, FormatRow(f.columns, f.rows[i], "FteDate", co))))
  }

  /** The steps after the concatenation. */
  function Consolidated(f: Frame, today: CivilDate, co: Coercions): (r: Outcome<Frame>)
    requires WellShaped(f)
  {
    match Deduped(f, today, co)
    case Raised(e) => Raised(e)
    case Done(d) => Done(Finish(d, co))
  }

  /** process_uploaded_xlsx on a workbook already read; `today` and
      `mtime` are the clock readings of absence.py:185 and 190. */
  function ProcessFile(wb: Workbook, source: string, mtime: Instant, today: CivilDate, co: Coercions): (r: Outcome<Frame>)
  {
    if today.year == MinYear then Raised(ValueError)
    else
      var sheets := Present(RawSheets, wb.Keys);
      if sheets == [] then Done(EmptyFrame)
      else FileResult(Gather(SheetOutcomes(wb, sheets, source, mtime, co), |sheets|), today, co)
  }

  /** What a file gives once its sheet loop has ended: the loop's exception,
      the empty table when no sheet gave rows, or the consolidated rows. */
  function FileResult(g: Outcome<seq<Frame>>, today: CivilDate, co: Coercions): Outcome<Frame>
  {
    match g
    case Raised(e) => Raised(e)
    case Done(ts) =>
      if ts == [] then Done(EmptyFrame) else Consolidated(ConcatFrames(ts), today, co)
  }

  /** Once every collected table carries the stamp columns, the stages after
      the loop raise nothing of their own. */
  lemma FileResultRaises(g: Outcome<seq<Frame>>, today: CivilDate, co: Coercions, e: Failure)
    requires g.Done? ==> forall t :: t in g.value ==> "FteDate" in t.columns && "Modified" in t.columns
    ensures FileResult(g, today, co) == Raised(e) <==> g == Raised(e)
  {
    if g.Done? && g.value != [] {
      ConsolidatedDone(g.value, today, co);
    }
  }

  /** The same, with the sheet loop run as a loop. */
  method ProcessWorkbook(wb: Workbook, source: string, mtime: Instant, today: CivilDate, co: Coercions)
    returns (r: Outcome<Frame>)
    ensures r == ProcessFile(wb, source, mtime, today, co)
  {
    if today.year == MinYear {
      return Raised(ValueError);
    }
    var sheets := Present(RawSheets, wb.Keys);
    if sheets == [] {
      return Done(EmptyFrame);
    }
    var collected := CollectSheets(wb, sheets, source, mtime, co);
    match collected
    case Raised(e) =>
      r := Raised(e);
    case Done(allRows) =>
      if allRows == [] {
        r := Done(EmptyFrame);
      } else {
        r := Consolidated(ConcatFrames(allRows), today, co);
      }
  }

  // ---------------------------------------------------------------------
  // What the consolidation promises
  // ---------------------------------------------------------------------

  /** The finished table keeps every cell of the deduplicated one under
      its label; FteDate alone is rewritten as ISO text. */
  lemma FinishRow(f: Frame, co: Coercions, i: nat, c: string, fteDate: string)
    requires WellShaped(f) && i < |f.rows| && c in f.columns && fteDate == "FteDate"
    ensures var r := Finish(f, co);
      CellOf(r.columns, r.rows[i], c)
        == if c == fteDate then IsoCell(CellOf(f.columns, f.rows[i], c), co) else CellOf(f.columns, f.rows[i], c)
  {
    var r := Finish(f, co);
    var row := FormatRow(f.columns, f.rows[i], fteDate, co);
    assert r.rows[i] == Realign(r.columns, f.columns, row);
    RealignLookup(r.columns, f.columns, row, c);
  }

  /** Every row a file yields is dated inside [January 1 of last year,
      today], its FteDate written YYYY-MM-DD. */
  lemma ConsolidatedWindow(f: Frame, today: CivilDate, co: Coercions, k: nat, fteDate: string)
    requires WellShaped(f) && fteDate == "FteDate"
    requires Consolidated(f, today, co).Done? && k < |Consolidated(f, today, co).value.rows|
    ensures var r := Consolidated(f, today, co).value;
      exists d: CivilDate :: Within(d, WindowStart(today), today) && CellOf(r.columns, r.rows[k], fteDate) == Text(IsoText(d))
  {
    var p := Prepared(f, co);
    var w := Windowed(p, today, co).value;
    var dd := Deduped(f, today, co).value;
    assert dd == Frame(w.columns, Deduplicate(w.columns, KeyColumns(w.columns), w.rows));
    DeduplicateFromInput(w.columns, KeyColumns(w.columns), w.rows);
    assert dd.rows[k] in w.rows;
    assert InWindow(w.columns, dd.rows[k], fteDate, WindowStart(today), today, co);
    FinishRow(dd, co, k, fteDate, fteDate);
    var d := ToDate(CellOf(dd.columns, dd.rows[k], fteDate), co).value;
    assert CellOf(Finish(dd, co).columns, Finish(dd, co).rows[k], fteDate) == Text(IsoText(d));
  }

  /** After the per-file dedup no two rows share a business key. */
  lemma DedupedDistinct(f: Frame, today: CivilDate, co: Coercions)
    requires WellShaped(f) && Deduped(f, today, co).Done?
    ensures var d := Deduped(f, today, co).value;
      forall a, b :: 0 <= a < b < |d.rows| ==>
        KeyOf(d.columns, KeyColumns(d.columns), d.rows[a]) != KeyOf(d.columns, KeyColumns(d.columns), d.rows[b])
  {
    var w := Windowed(Prepared(f, co), today, co).value;
    DeduplicateDistinct(w.columns, KeyColumns(w.columns), w.rows);
  }

  /** Every business key inside the window keeps a row, and that row has
      the newest Modified of its key. */
  lemma DedupedNewest(f: Frame, today: CivilDate, co: Coercions, x: Row)
    requires WellShaped(f) && Deduped(f, today, co).Done?
    requires Windowed(Prepared(f, co), today, co).Done? && x in Windowed(Prepared(f, co), today, co).value.rows
    ensures var d := Deduped(f, today, co).value;
      exists k :: 0 <= k < |d.rows|
        && KeyOf(d.columns, KeyColumns(d.columns), d.rows[k]) == KeyOf(d.columns, KeyColumns(d.columns), x)
        && NotOlder(StampOf(d.columns, d.rows[k]), StampOf(d.columns, x))
  {
    var w := Windowed(Prepared(f, co), today, co).value;
    var d := Deduped(f, today, co).value;
    var keys := KeyColumns(w.columns);
    DeduplicateCovers(w.columns, keys, w.rows, x);
    var k :| 0 <= k < |d.rows| && KeyOf(w.columns, keys, d.rows[k]) == KeyOf(w.columns, keys, x);
    DeduplicateKeepsNewest(w.columns, keys, w.rows, k, x);
  }

  /** A label that is clean and not gathered by either collapse survives
      the preparation. */
  lemma PreparedKeeps(f: Frame, co: Coercions, c: string, fteDate: string, fte: string)
    requires WellShaped(f) && c in f.columns && Clean(c)
    requires fteDate == "FteDate" && fte == "FTE"
    requires !Dropped(c, fteDate) && !Dropped(c, fte)
    ensures c in Prepared(f, co).columns
  {
    var i :| 0 <= i < |f.columns| && f.columns[i] == c;
    BasesSurvive(f.columns, i);
    BaseOfClean(c, i);
    var f1 := Frame(MakeUnique(f.columns), f.rows);
    var f2 := CollapseSimilar(f1, fteDate, DatetimeConversion, co);
    assert c in f2.columns;
  }

  /** The labels the stamping gives every sheet table are clean, and
      neither collapse gathers FteDate (other than itself) or Modified. */
  lemma StampLabelsSurvive(fteDate: string, fte: string, modified: string)
    requires fteDate == "FteDate" && fte == "FTE" && modified == "Modified"
    ensures Clean(fteDate) && Clean(modified)
    ensures !Dropped(fteDate, fteDate) && !Dropped(fteDate, fte)
    ensures !Dropped(modified, fteDate) && !Dropped(modified, fte)
  {
    assert fteDate[..4][1] != (fte + ".")[1];
    assert modified[..4][0] != (fte + ".")[0];
    assert modified[..8][0] != (fteDate + ".")[0];
    assert fteDate[0] != ' ' && fteDate[|fteDate| - 1] != ' ';
    assert modified[0] != ' ' && modified[|modified| - 1] != ' ';
    StripUnchanged(fteDate);
    StripUnchanged(modified);
  }

  /** Concatenated sheet tables always have FteDate and Modified, so the
      steps after the concatenation never raise. */
  lemma ConsolidatedDone(ts: seq<Frame>, today: CivilDate, co: Coercions)
    requires ts != []
    requires forall t :: t in ts ==> "FteDate" in t.columns && "Modified" in t.columns
    ensures Consolidated(ConcatFrames(ts), today, co).Done?
  {
    var f := ConcatFrames(ts);
    var fteDate, fte, modified := "FteDate", "FTE", "Modified";
    assert ts[0] in ts;
    assert fteDate in f.columns && modified in f.columns;
    StampLabelsSurvive(fteDate, fte, modified);
    PreparedKeeps(f, co, fteDate, fteDate, fte);
    PreparedKeeps(f, co, modified, fteDate, fte);
  }

  /** A table collected from the sheets carries the stamp labels. */
  lemma CollectedStamped(outs: seq<Outcome<Frame>>, wb: Workbook, sheets: seq<string>, source: string, mtime: Instant,
                         co: Coercions, t: Frame)
    requires forall s :: s in sheets ==> s in wb
    requires outs == SheetOutcomes(wb, sheets, source, mtime, co)
    requires Gather(outs, |outs|).Done? && t in Gather(outs, |outs|).value
    ensures "FteDate" in t.columns && "Modified" in t.columns
  {
    GatherKeeps(outs, |outs|);
    var i :| 0 <= i < |outs| && outs[i] == Done(t);
    TidiedStamped(wb[sheets[i]], sheets[i], source, mtime, co, t);
  }

  /** A non-empty table from one sheet carries the stamp columns. */
  lemma TidiedStamped(g: Grid, sheetName: string, source: string, mtime: Instant, co: Coercions, t: Frame)
    requires TidyOneSheet(g, sheetName, source, mtime, co) == Done(t) && !IsEmpty(t)
    ensures "FteDate" in t.columns && "Modified" in t.columns
  {
    assert t != EmptyFrame;
    assert "FteDate" in StampLabels && "Modified" in StampLabels;
  }

  /** A file raises exactly when the window start falls before year 1
      (ValueError), or else when one of its target sheets raises, the
      first such sheet deciding the exception. */
  lemma ProcessFileRaises(wb: Workbook, source: string, mtime: Instant, today: CivilDate, co: Coercions, e: Failure)
    ensures var sheets := Present(RawSheets, wb.Keys);
      var outs := SheetOutcomes(wb, sheets, source, mtime, co);
      ProcessFile(wb, source, mtime, today, co) == Raised(e) <==>
        if today.year == MinYear then e == ValueError
        else exists i :: 0 <= i < |outs| && outs[i] == Raised(e) && forall j :: 0 <= j < i ==> outs[j].Done?
  {
    var sheets := Present(RawSheets, wb.Keys);
    var outs := SheetOutcomes(wb, sheets, source, mtime, co);
    if today.year != MinYear && sheets != [] {
      var g := Gather(outs, |outs|);
      GatherRaises(outs, |outs|, e);
      if g.Done? {
        forall t | t in g.value ensures "FteDate" in t.columns && "Modified" in t.columns {
          CollectedStamped(outs, wb, sheets, source, mtime, co, t);
        }
      }
      FileResultRaises(g, today, co, e);
      if ProcessFile(wb, source, mtime, today, co) == Raised(e) {
        assert g == Raised(e);
      } else {
        assert g != Raised(e);
      }
    }
  }

  /** A file whose target sheets all give empty tables, or that has none
      of them, yields the empty table. */
  lemma ProcessFileNoRows(wb: Workbook, source: string, mtime: Instant, today: CivilDate, co: Coercions)
    requires today.year != MinYear
    requires var sheets := Present(RawSheets, wb.Keys);
      forall s :: s in sheets ==>
        TidyOneSheet(wb[s], s, source, mtime, co).Done? && IsEmpty(TidyOneSheet(wb[s], s, source, mtime, co).value)
    ensures ProcessFile(wb, source, mtime, today, co) == Done(EmptyFrame)
  {
    var sheets := Present(RawSheets, wb.Keys);
    var outs := SheetOutcomes(wb, sheets, source, mtime, co);
    if sheets != [] {
      assert forall i :: 0 <= i < |outs| ==> outs[i].Done? && IsEmpty(outs[i].value) by {
        forall i | 0 <= i < |outs| ensures outs[i].Done? && IsEmpty(outs[i].value) {
          assert sheets[i] in sheets;
        }
      }
      GatherNothing(outs, |outs|);
    }
  }

  /** Every row a file yields is dated inside [January 1 of last year,
      today], its FteDate written YYYY-MM-DD. */
  lemma ProcessFileWindow(wb: Workbook, source: string, mtime: Instant, today: CivilDate, co: Coercions, k: nat)
    requires ProcessFile(wb, source, mtime, today, co).Done?
    requires k < |ProcessFile(wb, source, mtime, today, co).value.rows|
    ensures var r := ProcessFile(wb, source, mtime, today, co).value;
      exists d: CivilDate :: Within(d, WindowStart(today), today) && CellOf(r.columns, r.rows[k], "FteDate") == Text(IsoText(d))
  {
    var sheets := Present(RawSheets, wb.Keys);
    var g := Gather(SheetOutcomes(wb, sheets, source, mtime, co), |sheets|);
    if today.year != MinYear && sheets != [] && g.Done? && g.value != [] {
      ConsolidatedWindow(ConcatFrames(g.value), today, co, k, "FteDate");
    }
  }

  // ---------------------------------------------------------------------
  // The merge of several files (absence.py:266-284)
  // ---------------------------------------------------------------------

  /** The files' tables that have rows (absence.py:266-267). */
  function NonEmpty(fs: seq<Frame>): (r: seq<Frame>)
    ensures forall t :: t in r <==> t in fs && !IsEmpty(t)
  {
    if fs == [] then []
    else
      assert forall t :: t in fs <==> t == fs[0] || t in fs[1..] by {
        assert fs == [fs[0]] + fs[1..];
      }
      (if IsEmpty(fs[0]) then [] else [fs[0]]) + NonEmpty(fs[1..])
  }

  /** The merge: None when no file yields a row (the error message of
      absence.py:269-270); otherwise the files' rows together, newest
      first and one row per business key when there is a Modified column. */
  function MergeFiles(frames: seq<Frame>): (r: Option<Frame>)
    ensures r.None? <==> forall i :: 0 <= i < |frames| ==> IsEmpty(frames[i])
    ensures r.Some? ==> WellShaped(r.value)
    ensures r.Some? ==> forall i, c :: 0 <= i < |frames| && !IsEmpty(frames[i]) && c in frames[i].columns ==> c in r.value.columns
  {
    var kept := NonEmpty(frames);
    assert forall i :: 0 <= i < |frames| && !IsEmpty(frames[i]) ==> frames[i] in kept;
    if kept == [] then None
    else
      assert kept[0] in kept;
      var all := ConcatFrames(kept);
      assert forall i, c :: 0 <= i < |frames| && !IsEmpty(frames[i]) && c in frames[i].columns ==> c in all.columns by {
        forall i, c | 0 <= i < |frames| && !IsEmpty(frames[i]) && c in frames[i].columns ensures c in all.columns {
          var k :| 0 <= k < |kept| && kept[k] == frames[i];
        }
      }
      if "Modified" in all.columns then
        DeduplicateFromInput(all.columns, KeyColumns(all.columns), all.rows);
        Some(Frame(all.columns, Deduplicate(all.columns, KeyColumns(all.columns), all.rows)))
      else Some(all)
  }

  /** After a merge with a Modified column no two rows share a business key. */
  lemma MergeDistinct(frames: seq<Frame>)
    requires MergeFiles(frames).Some? && "Modified" in MergeFiles(frames).value.columns
    ensures var m := MergeFiles(frames).value;
      forall a, b :: 0 <= a < b < |m.rows| ==>
        KeyOf(m.columns, KeyColumns(m.columns), m.rows[a]) != KeyOf(m.columns, KeyColumns(m.columns), m.rows[b])
  {
    var all := ConcatFrames(NonEmpty(frames));
    DeduplicateDistinct(all.columns, KeyColumns(all.columns), all.rows);
  }

  /** After a merge with a Modified column, every business key of every
      file keeps a row, and that row has the newest Modified of its key
      across all the files. */
  lemma MergeNewest(frames: seq<Frame>, x: Row)
    requires MergeFiles(frames).Some? && "Modified" in MergeFiles(frames).value.columns
    requires x in ConcatFrames(NonEmpty(frames)).rows
    ensures var m := MergeFiles(frames).value;
      exists k :: 0 <= k < |m.rows|
        && KeyOf(m.columns, KeyColumns(m.columns), m.rows[k]) == KeyOf(m.columns, KeyColumns(m.columns), x)
        && NotOlder(StampOf(m.columns, m.rows[k]), StampOf(m.columns, x))
  {
    var all := ConcatFrames(NonEmpty(frames));
    var m := MergeFiles(frames).value;
    var keys := KeyColumns(all.columns);
    DeduplicateCovers(all.columns, keys, all.rows, x);
    var k :| 0 <= k < |m.rows| && KeyOf(all.columns, keys, m.rows[k]) == KeyOf(all.columns, keys, x);
    DeduplicateKeepsNewest(all.columns, keys, all.rows, k, x);
  }
}
