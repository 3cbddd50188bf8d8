/** `sort_values("Modified", ascending=False).drop_duplicates(subset=key_cols,
    keep="first")` (absence.py:230, 284): keep, per business key, a row with
    the newest `Modified`. */
module Dedup {
  import opened Wrappers
  import opened Cells

  type Row = seq<Cell>

  /** The Modified stamp of a row; None for a missing (NaT) value. */
  function StampOf(cols: seq<string>, row: Row): Option<int>
  {
    match CellOf(cols, row, "Modified")
    case Moment(t) => Some(t)
    case _ => None
  }

  /** a may come before b in a descending sort that puts missing values last. */
  predicate NotOlder(a: Option<int>, b: Option<int>)
  {
    b.None? || (a.Some? && a.value >= b.value)
  }

  predicate Descending(cols: seq<string>, s: seq<Row>)
  {
    forall i, j :: 0 <= i < j < |s| ==> NotOlder(StampOf(cols, s[i]), StampOf(cols, s[j]))
  }

  /** Inserting x after every row at least as new as x keeps the order of
      equal stamps: the sort is stable. */
  function Insert(cols: seq<string>, x: Row, s: seq<Row>): (r: seq<Row>)
    ensures |r| == |s| + 1
    ensures multiset(r) == multiset(s) + multiset{x}
  {
    if s == [] then [x]
    else if NotOlder(StampOf(cols, s[0]), StampOf(cols, x)) then
      var rest := Insert(cols, x, s[1..]);
      assert s == [s[0]] + s[1..];
      [s[0]] + rest
    else [x] + s
  }

  /** sort_values("Modified", ascending=False, na_position="last"), stably. */
  function SortByStamp(cols: seq<string>, rows: seq<Row>): (r: seq<Row>)
    ensures |r| == |rows|
    ensures multiset(r) == multiset(rows)
  {
    if rows == [] then []
    else
      var front := rows[..|rows| - 1];
      assert rows == front + [rows[|rows| - 1]];
      Insert(cols, rows[|rows| - 1], SortByStamp(cols, front))
  }

  lemma {:induction false} InsertDescending(cols: seq<string>, x: Row, s: seq<Row>)
    requires Descending(cols, s)
    ensures Descending(cols, Insert(cols, x, s))
  {
    if s != [] {
      var r := Insert(cols, x, s);
      if NotOlder(StampOf(cols, s[0]), StampOf(cols, x)) {
        var rest := Insert(cols, x, s[1..]);
        assert Descending(cols, s[1..]) by {
          forall i, j | 0 <= i < j < |s[1..]|
            ensures NotOlder(StampOf(cols, s[1..][i]), StampOf(cols, s[1..][j]))
          {
            assert s[1..][i] == s[i + 1] && s[1..][j] == s[j + 1];
          }
        }
        InsertDescending(cols, x, s[1..]);
        forall k | 0 <= k < |rest| ensures NotOlder(StampOf(cols, s[0]), StampOf(cols, rest[k])) {
          assert rest[k] in multiset(rest);
          if rest[k] != x {
            assert rest[k] in multiset(s[1..]);
            var j :| 0 <= j < |s[1..]| && s[1..][j] == rest[k];
            assert s[j + 1] == rest[k];
          }
        }
        assert r == [s[0]] + rest;
      } else {
        forall k | 0 <= k < |s| ensures NotOlder(StampOf(cols, x), StampOf(cols, s[k])) {
          assert NotOlder(StampOf(cols, s[0]), StampOf(cols, s[k])) || k == 0;
        }
      }
    }
  }

  /** The sort puts newer stamps first and missing stamps last. */
  lemma {:induction false} SortDescending(cols: seq<string>, rows: seq<Row>)
    ensures Descending(cols, SortByStamp(cols, rows))
  {
    if rows != [] {
      SortDescending(cols, rows[..|rows| - 1]);
      InsertDescending(cols, rows[|rows| - 1], SortByStamp(cols, rows[..|rows| - 1]));
    }
  }

  /** The cells of a row under the key columns. */
  function KeyOf(cols: seq<string>, keyCols: seq<string>, row: Row): (k: seq<Cell>)
    ensures |k| == |keyCols|
  {
    seq(|keyCols|, i requires 0 <= i < |keyCols| => CellOf(cols, row, keyCols[i]))
  }

  /** Some row before position n has the key of row n. */
  predicate SeenBefore(cols: seq<string>, keyCols: seq<string>, rows: seq<Row>, n: nat)
    requires n < |rows|
  {
    exists j :: 0 <= j < n && KeyOf(cols, keyCols, rows[j]) == KeyOf(cols, keyCols, rows[n])
  }

  /** drop_duplicates(keep="first") over the first n rows. */
  function KeepFirst(cols: seq<string>, keyCols: seq<string>, rows: seq<Row>, n: nat): (r: seq<Row>)
    requires n <= |rows|
    ensures |r| <= n
  {
    if n == 0 then []
    else KeepFirst(cols, keyCols, rows, n - 1) + (if SeenBefore(cols, keyCols, rows, n - 1) then [] else [rows[n - 1]])
  }

  /** The positions among the first n rows whose row KeepFirst keeps. */
  ghost function KeptIndices(cols: seq<string>, keyCols: seq<string>, rows: seq<Row>, n: nat): (ps: seq<nat>)
    requires n <= |rows|
    ensures forall k :: 0 <= k < |ps| ==> ps[k] < n
    ensures forall a, b :: 0 <= a < b < |ps| ==> ps[a] < ps[b]
  {
    if n == 0 then []
    else KeptIndices(cols, keyCols, rows, n - 1) + (if SeenBefore(cols, keyCols, rows, n - 1) then [] else [n - 1])
  }

  /** The k-th kept row is the row at the k-th kept position, and no row
      before that position has its key. */
  lemma {:induction false} KeepFirstAt(cols: seq<string>, keyCols: seq<string>, rows: seq<Row>, n: nat)
    requires n <= |rows|
    ensures |KeepFirst(cols, keyCols, rows, n)| == |KeptIndices(cols, keyCols, rows, n)|
    ensures forall k :: 0 <= k < |KeptIndices(cols, keyCols, rows, n)| ==>
      KeepFirst(cols, keyCols, rows, n)[k] == rows[KeptIndices(cols, keyCols, rows, n)[k]]
      && !SeenBefore(cols, keyCols, rows, KeptIndices(cols, keyCols, rows, n)[k])
  {
    if n > 0 {
      KeepFirstAt(cols, keyCols, rows, n - 1);
      var r0, p0 := KeepFirst(cols, keyCols, rows, n - 1), KeptIndices(cols, keyCols, rows, n - 1);
      var r, p := KeepFirst(cols, keyCols, rows, n), KeptIndices(cols, keyCols, rows, n);
      if SeenBefore(cols, keyCols, rows, n - 1) {
        assert r == r0 && p == p0;
      } else {
        assert r == r0 + [rows[n - 1]] && p == p0 + [n - 1];
        forall k | 0 <= k < |p|
          ensures r[k] == rows[p[k]] && !SeenBefore(cols, keyCols, rows, p[k])
        {
          if k < |p0| {
            assert r[k] == r0[k] && p[k] == p0[k];
          }
        }
      }
    }
  }

  /** No two kept rows share a key. */
  lemma KeepFirstDistinct(cols: seq<string>, keyCols: seq<string>, rows: seq<Row>, n: nat)
    requires n <= |rows|
    ensures forall a, b :: 0 <= a < b < |KeepFirst(cols, keyCols, rows, n)| ==>
      KeyOf(cols, keyCols, KeepFirst(cols, keyCols, rows, n)[a]) != KeyOf(cols, keyCols, KeepFirst(cols, keyCols, rows, n)[b])
  {
    KeepFirstAt(cols, keyCols, rows, n);
    var r, p := KeepFirst(cols, keyCols, rows, n), KeptIndices(cols, keyCols, rows, n);
    forall a, b | 0 <= a < b < |r| ensures KeyOf(cols, keyCols, r[a]) != KeyOf(cols, keyCols, r[b]) {
      assert p[a] < p[b] && r[a] == rows[p[a]] && r[b] == rows[p[b]];
      assert !SeenBefore(cols, keyCols, rows, p[b]);
    }
  }

  /** Some position of ps holds a row with the key of row j. */
  predicate Covered(cols: seq<string>, keyCols: seq<string>, rows: seq<Row>, ps: seq<nat>, j: nat)
    requires j < |rows|
  {
    exists k :: 0 <= k < |ps| && ps[k] < |rows| && KeyOf(cols, keyCols, rows[ps[k]]) == KeyOf(cols, keyCols, rows[j])
  }

  lemma CoveredExtends(cols: seq<string>, keyCols: seq<string>, rows: seq<Row>, ps: seq<nat>, qs: seq<nat>, j: nat)
    requires j < |rows| && Covered(cols, keyCols, rows, ps, j)
    ensures Covered(cols, keyCols, rows, ps + qs, j)
  {
    var k :| 0 <= k < |ps| && ps[k] < |rows| && KeyOf(cols, keyCols, rows[ps[k]]) == KeyOf(cols, keyCols, rows[j]);
    assert (ps + qs)[k] == ps[k];
  }

  /** Every key among the first n rows is the key of a row at a kept position. */
  lemma {:induction false} KeepFirstCovers(cols: seq<string>, keyCols: seq<string>, rows: seq<Row>, n: nat)
    requires n <= |rows|
    ensures forall j :: 0 <= j < n ==> Covered(cols, keyCols, rows, KeptIndices(cols, keyCols, rows, n), j)
  {
    if n > 0 {
      KeepFirstCovers(cols, keyCols, rows, n - 1);
      var p0 := KeptIndices(cols, keyCols, rows, n - 1);
      var tail: seq<nat> := if SeenBefore(cols, keyCols, rows, n - 1) then [] else [n - 1];
      assert KeptIndices(cols, keyCols, rows, n) == p0 + tail;
      forall j | 0 <= j < n ensures Covered(cols, keyCols, rows, p0 + tail, j) {
        if j < n - 1 {
          CoveredExtends(cols, keyCols, rows, p0, tail, j);
        } else if SeenBefore(cols, keyCols, rows, n - 1) {
          var i :| 0 <= i < n - 1 && KeyOf(cols, keyCols, rows[i]) == KeyOf(cols, keyCols, rows[n - 1]);
          CoveredExtends(cols, keyCols, rows, p0, tail, i);
        } else {
          assert (p0 + tail)[|p0|] == j;
        }
      }
    }
  }

  /** The dedup step: newest first, then the first row of each key. */
  function Deduplicate(cols: seq<string>, keyCols: seq<string>, rows: seq<Row>): (r: seq<Row>)
    ensures |r| <= |rows|
  {
    var sorted := SortByStamp(cols, rows);
    KeepFirst(cols, keyCols, sorted, |sorted|)
  }

  /** After the dedup no two rows share a key. */
  lemma DeduplicateDistinct(cols: seq<string>, keyCols: seq<string>, rows: seq<Row>)
    ensures var r := Deduplicate(cols, keyCols, rows);
      forall a, b :: 0 <= a < b < |r| ==> KeyOf(cols, keyCols, r[a]) != KeyOf(cols, keyCols, r[b])
  {
    var sorted := SortByStamp(cols, rows);
    KeepFirstDistinct(cols, keyCols, sorted, |sorted|);
  }

  /** Every key of the input is the key of a kept row. */
  lemma DeduplicateCovers(cols: seq<string>, keyCols: seq<string>, rows: seq<Row>, x: Row)
    requires x in rows
    ensures var r := Deduplicate(cols, keyCols, rows);
      exists k :: 0 <= k < |r| && KeyOf(cols, keyCols, r[k]) == KeyOf(cols, keyCols, x)
  {
    var sorted := SortByStamp(cols, rows);
    var r := Deduplicate(cols, keyCols, rows);
    KeepFirstCovers(cols, keyCols, sorted, |sorted|);
    KeepFirstAt(cols, keyCols, sorted, |sorted|);
    assert x in multiset(sorted);
    var j :| 0 <= j < |sorted| && sorted[j] == x;
    var p := KeptIndices(cols, keyCols, sorted, |sorted|);
    assert Covered(cols, keyCols, sorted, p, j);
    var k :| 0 <= k < |p| && p[k] < |sorted| && KeyOf(cols, keyCols, sorted[p[k]]) == KeyOf(cols, keyCols, sorted[j]);
    assert r[k] == sorted[p[k]];
  }

  /** Every kept row is an input row. */
  lemma DeduplicateFromInput(cols: seq<string>, keyCols: seq<string>, rows: seq<Row>)
    ensures var r := Deduplicate(cols, keyCols, rows);
      forall k :: 0 <= k < |r| ==> r[k] in rows
  {
    var sorted := SortByStamp(cols, rows);
    var r := Deduplicate(cols, keyCols, rows);
    KeepFirstAt(cols, keyCols, sorted, |sorted|);
    var p := KeptIndices(cols, keyCols, sorted, |sorted|);
    forall k | 0 <= k < |r| ensures r[k] in rows {
      assert r[k] == sorted[p[k]];
      assert sorted[p[k]] in multiset(rows);
    }
  }

  /** In a descending sequence, the first row of a key is at least as new
      as any later row with that key. */
  lemma FirstOfKeyNewest(cols: seq<string>, keyCols: seq<string>, s: seq<Row>, p: nat, i: nat)
    requires Descending(cols, s) && p < |s| && i < |s|
    requires !SeenBefore(cols, keyCols, s, p)
    requires KeyOf(cols, keyCols, s[i]) == KeyOf(cols, keyCols, s[p])
    ensures NotOlder(StampOf(cols, s[p]), StampOf(cols, s[i]))
  {
    if p < i {
      assert NotOlder(StampOf(cols, s[p]), StampOf(cols, s[i]));
    }
  }

  /** The kept row of a key has the newest Modified among the input rows
      with that key (a missing stamp counting as the oldest). */
  lemma DeduplicateKeepsNewest(cols: seq<string>, keyCols: seq<string>, rows: seq<Row>, k: nat, x: Row)
    requires k < |Deduplicate(cols, keyCols, rows)| && x in rows
    requires KeyOf(cols, keyCols, x) == KeyOf(cols, keyCols, Deduplicate(cols, keyCols, rows)[k])
    ensures NotOlder(StampOf(cols, Deduplicate(cols, keyCols, rows)[k]), StampOf(cols, x))
  {
    var sorted := SortByStamp(cols, rows);
    var r := Deduplicate(cols, keyCols, rows);
    KeepFirstAt(cols, keyCols, sorted, |sorted|);
    SortDescending(cols, rows);
    var p := KeptIndices(cols, keyCols, sorted, |sorted|)[k];
    assert r[k] == sorted[p] && !SeenBefore(cols, keyCols, sorted, p);
    assert x in multiset(sorted);
    var i :| 0 <= i < |sorted| && sorted[i] == x;
    FirstOfKeyNewest(cols, keyCols, sorted, p, i);
  }
}
