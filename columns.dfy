/** Column relabelling: `make_unique` (absence.py:71-83) and
    `collapse_similar` (absence.py:85-99). */
module Columns {
  import opened Wrappers
  import opened Text
  import opened Cells

  // ---------------------------------------------------------------------
  // make_unique
  // ---------------------------------------------------------------------

  /** base.lower() == "nan" */
  predicate IsNanWord(b: string)
  {
    |b| == 3 && (b[0] == 'n' || b[0] == 'N') && (b[1] == 'a' || b[1] == 'A') && (b[2] == 'n' || b[2] == 'N')
  }

  /** The placeholder for a blank or "nan" label at position i. */
  function Placeholder(i: nat): string
  {
    "Col" + NatText(i + 1)
  }

  /** The base of label n at position i: the stripped label, or the
      placeholder when that is blank or "nan". */
  function Base(n: string, i: nat): (b: string)
    ensures b != []
    ensures Strip(n) != [] && !IsNanWord(Strip(n)) ==> b == Strip(n)
    ensures Strip(n) == [] || IsNanWord(Strip(n)) ==> b == Placeholder(i)
  {
    var b := Strip(n);
    if b == "" || IsNanWord(b) then Placeholder(i) else b
  }

  function Bases(names: seq<string>): (bs: seq<string>)
    ensures |bs| == |names|
    ensures forall i :: 0 <= i < |names| ==> bs[i] == Base(names[i], i)
  {
    seq(|names|, i requires 0 <= i < |names| => Base(names[i], i))
  }

  /** Number of positions j < n with s[j] == x. */
  function CountBefore(s: seq<string>, n: nat, x: string): (k: nat)
    requires n <= |s|
    ensures k <= n
  {
    if n == 0 then 0
    else CountBefore(s, n - 1, x) + (if s[n - 1] == x then 1 else 0)
  }

  lemma {:induction false} CountBeforePositive(s: seq<string>, n: nat, x: string)
    requires n <= |s|
    ensures CountBefore(s, n, x) > 0 <==> exists j :: 0 <= j < n && s[j] == x
  {
    if n > 0 {
      CountBeforePositive(s, n - 1, x);
    }
  }

  /** The label for a base seen k times before. */
  function Suffixed(b: string, k: nat): string
  {
    if k == 0 then b else b + "_" + NatText(k)
  }

  /** The suffixing step over a list of bases: position i keeps its base,
      suffixed with the number of earlier positions that have the same
      base. */
  function Relabel(bs: seq<string>): (out: seq<string>)
    ensures |out| == |bs|
  {
    seq(|bs|, i requires 0 <= i < |bs| => Suffixed(bs[i], CountBefore(bs, i, bs[i])))
  }

  /** What make_unique returns, stated without its dictionary. */
  function MakeUnique(names: seq<string>): (out: seq<string>)
    ensures |out| == |names|
  {
    Relabel(Bases(names))
  }

  /** The dictionary make_unique holds after its first n steps: every base
      seen so far, mapped to its number of repeats. */
  ghost function SeenAfter(bs: seq<string>, n: nat): map<string, nat>
    requires n <= |bs|
  {
    if n == 0 then map[]
    else
      var m := SeenAfter(bs, n - 1);
      var b := bs[n - 1];
      if b in m then m[b := m[b] + 1] else m[b := 0]
  }

  lemma {:induction false} SeenAfterCounts(bs: seq<string>, n: nat)
    requires n <= |bs|
    ensures forall b :: b in SeenAfter(bs, n) <==> CountBefore(bs, n, b) > 0
    ensures forall b :: b in SeenAfter(bs, n) ==> SeenAfter(bs, n)[b] + 1 == CountBefore(bs, n, b)
  {
    if n > 0 {
      SeenAfterCounts(bs, n - 1);
    }
  }

  /** One step of make_unique's loop: from the dictionary after i steps,
      the label at position i and the dictionary after i + 1 steps. */
  lemma LoopStep(bs: seq<string>, i: nat, seen: map<string, nat>, out: seq<string>)
    requires i < |bs| && seen == SeenAfter(bs, i) && out == Relabel(bs)[..i]
    ensures bs[i] in seen ==>
      && SeenAfter(bs, i + 1) == seen[bs[i] := seen[bs[i]] + 1]
      && out + [bs[i] + "_" + NatText(seen[bs[i]] + 1)] == Relabel(bs)[..i + 1]
    ensures bs[i] !in seen ==>
      && SeenAfter(bs, i + 1) == seen[bs[i] := 0]
      && out + [bs[i]] == Relabel(bs)[..i + 1]
  {
    SeenAfterCounts(bs, i);
    assert Relabel(bs)[..i + 1] == Relabel(bs)[..i] + [Relabel(bs)[i]];
  }

  /** make_unique(names): one pass that keeps, per base, the number of
      repeats seen so far in a dictionary. */
  method MakeUniqueLoop(names: seq<string>) returns (out: seq<string>)
    ensures out == MakeUnique(names)
  {
    out := [];
    var seen: map<string, nat> := map[];
    ghost var bs := Bases(names);
    for i := 0 to |names|
      invariant out == Relabel(bs)[..i]
      invariant seen == SeenAfter(bs, i)
    {
      var base := Base(names[i], i);
      assert base == bs[i];
      LoopStep(bs, i, seen, out);
      ghost var s0 := seen;
      var unique;
      if base in seen {
        seen := seen[base := seen[base] + 1];
        unique := base + "_" + NatText(seen[base]);
        assert seen == s0[bs[i] := s0[bs[i]] + 1];
        assert unique == bs[i] + "_" + NatText(s0[bs[i]] + 1);
      } else {
        seen := seen[base := 0];
        unique := base;
      }
      out := out + [unique];
    }
    assert Relabel(bs)[..|names|] == Relabel(bs);
  }

  /** The first position with a given base keeps the base verbatim. */
  lemma FirstKept(bs: seq<string>, i: nat)
    requires i < |bs|
    requires forall j :: 0 <= j < i ==> bs[j] != bs[i]
    ensures Relabel(bs)[i] == bs[i]
  {
    CountBeforePositive(bs, i, bs[i]);
  }

  /** A repeated base is suffixed with "_k", k >= 1 counting the earlier
      positions with the same base. */
  lemma RepeatSuffixed(bs: seq<string>, i: nat)
    requires i < |bs|
    requires exists j :: 0 <= j < i && bs[j] == bs[i]
    ensures CountBefore(bs, i, bs[i]) >= 1
    ensures Relabel(bs)[i] == bs[i] + "_" + NatText(CountBefore(bs, i, bs[i]))
  {
    CountBeforePositive(bs, i, bs[i]);
  }

  /** The first position with a given base keeps its base in make_unique. */
  lemma FirstOccurrenceKept(names: seq<string>, i: nat)
    requires i < |names|
    requires forall j :: 0 <= j < i ==> Base(names[j], j) != Base(names[i], i)
    ensures MakeUnique(names)[i] == Base(names[i], i)
  {
    FirstKept(Bases(names), i);
  }

  /** A repeated base gets "_k" in make_unique. */
  lemma RepeatOccurrenceSuffixed(names: seq<string>, i: nat, j: nat)
    requires j < i < |names| && Base(names[j], j) == Base(names[i], i)
    ensures CountBefore(Bases(names), i, Base(names[i], i)) >= 1
    ensures MakeUnique(names)[i] == Base(names[i], i) + "_" + NatText(CountBefore(Bases(names), i, Base(names[i], i)))
  {
    RepeatSuffixed(Bases(names), i);
  }

  /** A label that is blank or "nan" (in any case) after stripping gets
      the placeholder Col{i+1} as its base. */
  lemma BlankGetsPlaceholder(names: seq<string>, i: nat)
    requires i < |names| && (Strip(names[i]) == [] || IsNanWord(Strip(names[i])))
    ensures Bases(names)[i] == Placeholder(i)
    ensures (forall j :: 0 <= j < i ==> Base(names[j], j) != Placeholder(i))
            ==> MakeUnique(names)[i] == Placeholder(i)
  {
    if forall j :: 0 <= j < i ==> Base(names[j], j) != Placeholder(i) {
      FirstOccurrenceKept(names, i);
    }
  }

  /** A label that strip() leaves alone and that is neither blank nor
      "nan" is its own base. */
  predicate Clean(n: string)
  {
    Strip(n) == n && n != [] && !IsNanWord(n)
  }

  lemma BasesOfClean(names: seq<string>)
    requires forall i :: 0 <= i < |names| ==> Clean(names[i])
    ensures Bases(names) == names
  {
  }

  /** Pairwise-distinct bases are left alone. */
  lemma {:induction false} RelabelOfDistinct(bs: seq<string>)
    requires forall i, j :: 0 <= i < j < |bs| ==> bs[i] != bs[j]
    ensures Relabel(bs) == bs
  {
    forall i | 0 <= i < |bs| ensures Relabel(bs)[i] == bs[i] {
      FirstKept(bs, i);
    }
  }

  /** Pairwise-distinct clean labels come back unchanged. */
  lemma MakeUniqueOfDistinct(names: seq<string>)
    requires forall i :: 0 <= i < |names| ==> Clean(names[i])
    requires forall i, j :: 0 <= i < j < |names| ==> names[i] != names[j]
    ensures MakeUnique(names) == names
  {
    BasesOfClean(names);
    RelabelOfDistinct(names);
  }

  /** Every base survives: its first position carries it unchanged. */
  lemma BasesSurvive(names: seq<string>, i: nat)
    requires i < |names|
    ensures Base(names[i], i) in MakeUnique(names)
  {
    var bs := Bases(names);
    var j := FirstIndex(bs, bs[i]);
    FirstKept(bs, j);
  }

  function FirstIndex(s: seq<string>, x: string): (j: nat)
    requires x in s
    ensures j < |s| && s[j] == x
    ensures forall k :: 0 <= k < j ==> s[k] != x
  {
    if s[0] == x then 0 else 1 + FirstIndex(s[1..], x)
  }

  /** A base that already carries the suffix its repeat would get. */
  lemma SuffixClash(a: string, a1: string)
    requires a1 == a + "_1"
    ensures Relabel([a, a, a1]) == [a, a1, a1]
  {
    var bs := [a, a, a1];
    var r := Relabel(bs);
    assert a != a1 by { assert |a1| == |a| + 2; }
    FirstKept(bs, 0);
    RepeatSuffixed(bs, 1);
    assert CountBefore(bs, 1, a) == 1;
    assert NatText(1) == "1";
    assert r[1] == a1;
    FirstKept(bs, 2);
    assert r == [a, a1, a1];
  }

  /** The output need not be pairwise distinct: ["a", "a", "a_1"] gives
      ["a", "a_1", "a_1"]. */
  lemma NotAlwaysDistinct(a: string, a1: string)
    requires a == "a" && a1 == "a_1"
    ensures MakeUnique([a, a, a1]) == [a, a1, a1]
  {
    StripUnchanged(a);
    StripUnchanged(a1);
    BasesOfClean([a, a, a1]);
    SuffixClash(a, a1);
  }

  // ---------------------------------------------------------------------
  // collapse_similar
  // ---------------------------------------------------------------------

  predicate StartsWith(s: string, p: string)
  {
    |p| <= |s| && s[..|p|] == p
  }

  /** A column collapse_similar gathers under `base`. */
  predicate Similar(c: string, base: string)
  {
    c == base || StartsWith(c, base + ".")
  }

  /** A gathered column other than `base` itself: it is dropped. */
  predicate Dropped(c: string, base: string)
  {
    Similar(c, base) && c != base
  }

  /** The labels of the gathered columns, in column order. */
  function SimilarLabels(cols: seq<string>, base: string): (s: seq<string>)
    ensures forall c :: c in s <==> c in cols && Similar(c, base)
  {
    if cols == [] then []
    else (if Similar(cols[0], base) then [cols[0]] else []) + SimilarLabels(cols[1..], base)
  }

  /** The cells of the gathered columns of one row, in column order. */
  function SimilarCells(cols: seq<string>, row: seq<Cell>, base: string): (s: seq<Cell>)
    requires |row| == |cols|
  {
    if cols == [] then []
    else (if Similar(cols[0], base) then [row[0]] else []) + SimilarCells(cols[1..], row[1..], base)
  }

  /** bfill(axis=1).iloc[:, 0]: the first value that is not missing. */
  function FirstPresent(cells: seq<Cell>): (c: Cell)
    ensures c == Empty <==> forall i :: 0 <= i < |cells| ==> cells[i] == Empty
    ensures c != Empty ==> exists i :: 0 <= i < |cells| && cells[i] == c
                                       && forall j :: 0 <= j < i ==> cells[j] == Empty
  {
    if cells == [] then Empty
    else if cells[0] != Empty then cells[0]
    else
      var c := FirstPresent(cells[1..]);
      assert forall i :: 1 <= i < |cells| ==> cells[i] == cells[1..][i - 1];
      c
  }

  /** The conversion applied to the merged values. */
  datatype Conversion = DatetimeConversion | NumericConversion | NoConversion

  function Convert(c: Cell, conv: Conversion, co: Coercions): (r: Cell)
    ensures conv == DatetimeConversion ==> r == (match ToDate(c, co) case Some(d) => DateVal(d) case None => Empty)
    ensures conv == NumericConversion ==> r == (match ToNumeric(c, co) case Some(x) => Num(x) case None => Empty)
    ensures conv == NoConversion ==> r == c
  {
    match conv
    case DatetimeConversion => (match ToDate(c, co) case Some(d) => DateVal(d) case None => Empty)
    case NumericConversion => (match ToNumeric(c, co) case Some(x) => Num(x) case None => Empty)
    case NoConversion => c
  }

  /** The labels that stay: every column but the dropped ones. */
  function KeptLabels(cols: seq<string>, base: string): (s: seq<string>)
    ensures forall c :: c in s <==> c in cols && !Dropped(c, base)
  {
    if cols == [] then []
    else (if Dropped(cols[0], base) then [] else [cols[0]]) + KeptLabels(cols[1..], base)
  }

  /** One row with the dropped columns removed and every `base` column
      replaced by the merged value m. */
  function KeptCells(cols: seq<string>, row: seq<Cell>, base: string, m: Cell): (s: seq<Cell>)
    requires |row| == |cols|
    ensures |s| == |KeptLabels(cols, base)|
  {
    if cols == [] then []
    else
      (if Dropped(cols[0], base) then [] else [if cols[0] == base then m else row[0]])
      + KeptCells(cols[1..], row[1..], base, m)
  }

  /** The merged value of one row. */
  function MergedCell(cols: seq<string>, row: seq<Cell>, base: string, conv: Conversion, co: Coercions): Cell
    requires |row| == |cols|
  {
    Convert(FirstPresent(SimilarCells(cols, row, base)), conv, co)
  }

  /** A collapse changes nothing when no column is gathered or when the
      only one gathered is `base` itself. */
  predicate CollapseIsNoOp(cols: seq<string>, base: string)
  {
    SimilarLabels(cols, base) == [] || SimilarLabels(cols, base) == [base]
  }

  /** collapse_similar(df, base, conv) */
  function CollapseSimilar(f: Frame, base: string, conv: Conversion, co: Coercions): (r: Frame)
    requires WellShaped(f)
    ensures WellShaped(r)
    ensures CollapseIsNoOp(f.columns, base) ==> r == f
    ensures !CollapseIsNoOp(f.columns, base) ==> |r.rows| == |f.rows|
    ensures !CollapseIsNoOp(f.columns, base) ==>
      r.columns == KeptLabels(f.columns, base) + (if base in f.columns then [] else [base])
  {
    if CollapseIsNoOp(f.columns, base) then f
    else
      var extra := if base in f.columns then [] else [base];
      Frame(KeptLabels(f.columns, base) + extra,
            seq(|f.rows|, i requires 0 <= i < |f.rows| =>
              var m := MergedCell(f.columns, f.rows[i], base, conv, co);
              KeptCells(f.columns, f.rows[i], base, m) + (if base in f.columns then [] else [m])))
  }

  lemma {:induction false} CellOfCons(cols: seq<string>, row: seq<Cell>, c: string)
    requires cols != [] && |row| == |cols|
    ensures CellOf(cols, row, c) == if cols[0] == c then row[0] else CellOf(cols[1..], row[1..], c)
  {
  }

  /** Looking up a label in a kept row: `base` finds the merged value
      (when a `base` column exists), any other kept label its old cell. */
  lemma {:induction false} KeptLookup(cols: seq<string>, row: seq<Cell>, base: string, m: Cell, c: string)
    requires |row| == |cols| && !Dropped(c, base)
    ensures CellOf(KeptLabels(cols, base), KeptCells(cols, row, base, m), c)
      == if c == base && base in cols then m
         else if c == base then Empty
         else CellOf(cols, row, c)
  {
    if cols != [] {
      var c0 := cols[0];
      KeptLookup(cols[1..], row[1..], base, m, c);
      assert base in cols <==> c0 == base || base in cols[1..] by {
        assert cols == [c0] + cols[1..];
      }
      CellOfCons(cols, row, c);
      var ks, kc := KeptLabels(cols, base), KeptCells(cols, row, base, m);
      if Dropped(c0, base) {
        assert ks == KeptLabels(cols[1..], base);
        assert kc == KeptCells(cols[1..], row[1..], base, m);
      } else {
        assert ks == [c0] + KeptLabels(cols[1..], base);
        assert kc == [if c0 == base then m else row[0]] + KeptCells(cols[1..], row[1..], base, m);
        CellOfCons(ks, kc, c);
        assert ks[1..] == KeptLabels(cols[1..], base);
        assert kc[1..] == KeptCells(cols[1..], row[1..], base, m);
      }
    }
  }

  /** A lookup in a row extended by one trailing column. */
  lemma {:induction false} LookupAppended(cols: seq<string>, row: seq<Cell>, tail: string, v: Cell, c: string)
    requires |row| == |cols|
    ensures CellOf(cols + [tail], row + [v], c)
      == if c in cols then CellOf(cols, row, c) else if c == tail then v else Empty
  {
    if cols != [] {
      CellOfCons(cols + [tail], row + [v], c);
      assert (cols + [tail])[1..] == cols[1..] + [tail];
      assert (row + [v])[1..] == row[1..] + [v];
      LookupAppended(cols[1..], row[1..], tail, v, c);
    } else {
      CellOfCons([tail], [v], c);
    }
  }

  /** Row i of a collapse: the kept cells, then the merged value when
      no `base` column existed. */
  lemma CollapsedRow(f: Frame, base: string, conv: Conversion, co: Coercions, i: nat)
    requires WellShaped(f) && !CollapseIsNoOp(f.columns, base) && i < |f.rows|
    ensures var m := MergedCell(f.columns, f.rows[i], base, conv, co);
      CollapseSimilar(f, base, conv, co).rows[i]
        == KeptCells(f.columns, f.rows[i], base, m) + (if base in f.columns then [] else [m])
  {
  }

  /** What a collapse does to each row: `base` holds the first value
      present among the gathered columns, converted; the gathered
      columns other than `base` are gone; every other column keeps its
      cells. */
  lemma CollapseRows(f: Frame, base: string, conv: Conversion, co: Coercions, i: nat)
    requires WellShaped(f) && !CollapseIsNoOp(f.columns, base) && i < |f.rows|
    ensures var r := CollapseSimilar(f, base, conv, co);
      && base in r.columns
      && (forall c :: c in r.columns ==> !Dropped(c, base))
      && CellOf(r.columns, r.rows[i], base) == MergedCell(f.columns, f.rows[i], base, conv, co)
      && (forall c :: !Similar(c, base) ==> CellOf(r.columns, r.rows[i], c) == CellOf(f.columns, f.rows[i], c))
  {
    var r := CollapseSimilar(f, base, conv, co);
    var m := MergedCell(f.columns, f.rows[i], base, conv, co);
    var ks, kc := KeptLabels(f.columns, base), KeptCells(f.columns, f.rows[i], base, m);
    CollapsedRow(f, base, conv, co, i);
    if base in f.columns {
      assert r.columns == ks && r.rows[i] == kc;
      KeptLookup(f.columns, f.rows[i], base, m, base);
      forall c | !Similar(c, base)
        ensures CellOf(r.columns, r.rows[i], c) == CellOf(f.columns, f.rows[i], c)
      {
        KeptLookup(f.columns, f.rows[i], base, m, c);
      }
    } else {
      assert r.columns == ks + [base] && r.rows[i] == kc + [m];
      assert base !in ks;
      LookupAppended(ks, kc, base, m, base);
      forall c | !Similar(c, base)
        ensures CellOf(r.columns, r.rows[i], c) == CellOf(f.columns, f.rows[i], c)
      {
        KeptLookup(f.columns, f.rows[i], base, m, c);
        LookupAppended(ks, kc, base, m, c);
      }
    }
  }
}
