/** Greedy one-to-one matching on a weighted grid, as values: the mask-and-repeat
    recursion, the sorted scan, and what both are good for. */
module Greedy {
  import opened Options

  datatype Cell = Cell(row: nat, col: nat)

  type Grid = map<Cell, real>

  /** Row-major order. */
  predicate RowMajorBefore(c: Cell, d: Cell) {
    c.row < d.row || (c.row == d.row && c.col < d.col)
  }

  /** Descending weight, ties in row-major order. */
  ghost predicate Before(w: Grid, c: Cell, d: Cell)
    requires c in w && d in w
  {
    w[c] > w[d] || (w[c] == w[d] && RowMajorBefore(c, d))
  }

  /** Two cells that share a row or a column. */
  predicate Clash(c: Cell, d: Cell) {
    c.row == d.row || c.col == d.col
  }

  ghost predicate IsBest(w: Grid, live: set<Cell>, c: Cell)
    requires live <= w.Keys
  {
    c in live && forall d | d in live && d != c :: Before(w, c, d)
  }

  lemma BestExists(w: Grid, live: set<Cell>)
    requires live <= w.Keys && live != {}
    ensures exists c :: IsBest(w, live, c)
  {
    var d :| d in live;
    var rest := live - {d};
    if rest == {} {
      assert live == {d};
      assert IsBest(w, live, d);
    } else {
      BestExists(w, rest);
      var c :| IsBest(w, rest, c);
      assert live == rest + {d};
      assert IsBest(w, live, if Before(w, c, d) then c else d);
    }
  }

  ghost function Best(w: Grid, live: set<Cell>): (c: Cell)
    requires live <= w.Keys && live != {}
    ensures IsBest(w, live, c)
  {
    BestExists(w, live);
    var c :| IsBest(w, live, c);
    c
  }

  lemma BestUnique(w: Grid, live: set<Cell>, c: Cell)
    requires live <= w.Keys && IsBest(w, live, c)
    ensures c == Best(w, live)
  {
  }

  /** What stays after the row and column of c are masked. */
  ghost function Unmasked(live: set<Cell>, c: Cell): set<Cell> {
    set d | d in live && !Clash(c, d)
  }

  /** Take the best cell, mask its row and column, repeat until the best is below the threshold. */
  ghost function Picks(w: Grid, live: set<Cell>, threshold: real): seq<Cell>
    requires live <= w.Keys
    decreases live
  {
    if live == {} then []
    else
      var c := Best(w, live);
      if w[c] < threshold then []
      else
        assert c !in Unmasked(live, c);
        [c] + Picks(w, Unmasked(live, c), threshold)
  }

  // The simple algorithm: sort once, scan once.

  ghost function Sorted(w: Grid, cells: set<Cell>): (order: seq<Cell>)
    requires cells <= w.Keys
    ensures forall c | c in order :: c in cells
    decreases cells
  {
    if cells == {} then [] else [Best(w, cells)] + Sorted(w, cells - {Best(w, cells)})
  }

  ghost function Scan(w: Grid, order: seq<Cell>, rows: set<nat>, cols: set<nat>, threshold: real): seq<Cell>
    requires forall c | c in order :: c in w
  {
    if order == [] then []
    else
      var c := order[0];
      if w[c] >= threshold && c.row !in rows && c.col !in cols then
        [c] + Scan(w, order[1..], rows + {c.row}, cols + {c.col}, threshold)
      else
        Scan(w, order[1..], rows, cols, threshold)
  }

  /** Sorted lists every cell once, in order. */
  lemma {:induction false} SortedIsSorted(w: Grid, cells: set<Cell>)
    requires cells <= w.Keys
    ensures |Sorted(w, cells)| == |cells|
    ensures forall c :: c in Sorted(w, cells) <==> c in cells
    ensures forall i, j | 0 <= i < j < |Sorted(w, cells)| :: Before(w, Sorted(w, cells)[i], Sorted(w, cells)[j])
    decreases cells
  {
    if cells == {} {
    } else {
      SortedIsSorted(w, cells - {Best(w, cells)});
    }
  }

  ghost function Open(cells: set<Cell>, rows: set<nat>, cols: set<nat>): set<Cell> {
    set c | c in cells && c.row !in rows && c.col !in cols
  }

  lemma PicksBelow(w: Grid, live: set<Cell>, threshold: real)
    requires live <= w.Keys
    requires forall c | c in live :: w[c] < threshold
    ensures Picks(w, live, threshold) == []
  {
  }

  lemma ScanStep(w: Grid, cells: set<Cell>, rows: set<nat>, cols: set<nat>, threshold: real)
    requires cells <= w.Keys && cells != {}
    ensures
      var b := Best(w, cells);
      var rest := Sorted(w, cells - {b});
      Scan(w, Sorted(w, cells), rows, cols, threshold) ==
      if w[b] >= threshold && b.row !in rows && b.col !in cols
      then [b] + Scan(w, rest, rows + {b.row}, cols + {b.col}, threshold)
      else Scan(w, rest, rows, cols, threshold)
  {
  }

  lemma {:induction false} ScanFrom(w: Grid, cells: set<Cell>, rows: set<nat>, cols: set<nat>, threshold: real)
    requires cells <= w.Keys
    ensures Scan(w, Sorted(w, cells), rows, cols, threshold) == Picks(w, Open(cells, rows, cols), threshold)
    decreases cells
  {
    if cells == {} {
    } else {
      hide Sorted, Scan;
      var b := Best(w, cells);
      var rest := cells - {b};
      var live := Open(cells, rows, cols);
      ScanStep(w, cells, rows, cols, threshold);
      if b !in live {
        assert Open(rest, rows, cols) == live;
        ScanFrom(w, rest, rows, cols, threshold);
      } else {
        BestUnique(w, live, b);
        if w[b] >= threshold {
          assert Open(rest, rows + {b.row}, cols + {b.col}) == Unmasked(live, b);
          ScanFrom(w, rest, rows + {b.row}, cols + {b.col}, threshold);
        } else {
          PicksBelow(w, Open(rest, rows, cols), threshold);
          ScanFrom(w, rest, rows, cols, threshold);
        }
      }
    }
  }

  /** Masking and re-reading the maximum takes the same cells in the same order as one scan of the sorted list. */
  lemma ScanEqualsPicks(w: Grid, threshold: real)
    ensures Scan(w, Sorted(w, w.Keys), {}, {}, threshold) == Picks(w, w.Keys, threshold)
  {
    ScanFrom(w, w.Keys, {}, {}, threshold);
    assert Open(w.Keys, {}, {}) == w.Keys;
  }

  // Stability.

  ghost predicate IsMatching(m: set<Cell>) {
    forall c, d | c in m && d in m && Clash(c, d) :: c == d
  }

  /** Some chosen cell shares an end with c and weighs at least as much. */
  ghost predicate Covered(w: Grid, m: set<Cell>, c: Cell)
    requires m <= w.Keys && c in w
  {
    exists d :: d in m && Clash(d, c) && w[d] >= w[c]
  }

  /** One-to-one, every pair admissible, and no admissible pair left unblocked. */
  ghost predicate Stable(w: Grid, live: set<Cell>, threshold: real, m: set<Cell>)
    requires live <= w.Keys
  {
    && m <= live
    && IsMatching(m)
    && (forall c | c in m :: w[c] >= threshold)
    && (forall c | c in live && w[c] >= threshold :: Covered(w, m, c))
  }

  ghost function Chosen(w: Grid, live: set<Cell>, threshold: real): set<Cell>
    requires live <= w.Keys
  {
    set c | c in Picks(w, live, threshold)
  }

  lemma ChosenSplits(w: Grid, live: set<Cell>, threshold: real)
    requires live <= w.Keys && live != {} && w[Best(w, live)] >= threshold
    ensures Best(w, live) !in Chosen(w, Unmasked(live, Best(w, live)), threshold)
    ensures Chosen(w, live, threshold) == {Best(w, live)} + Chosen(w, Unmasked(live, Best(w, live)), threshold)
  {
    var b := Best(w, live);
    var rest := Unmasked(live, b);
    assert Picks(w, live, threshold) == [b] + Picks(w, rest, threshold);
    PicksInside(w, rest, threshold);
  }

  lemma {:induction false} PicksInside(w: Grid, live: set<Cell>, threshold: real)
    requires live <= w.Keys
    ensures forall c | c in Picks(w, live, threshold) :: c in live
    decreases live
  {
    if live != {} && w[Best(w, live)] >= threshold {
      var b := Best(w, live);
      assert b !in Unmasked(live, b);
      PicksInside(w, Unmasked(live, b), threshold);
    }
  }

  /** No pair above the threshold could replace what the greedy loop chose. */
  lemma {:induction false} GreedyIsStable(w: Grid, live: set<Cell>, threshold: real)
    requires live <= w.Keys
    ensures Stable(w, live, threshold, Chosen(w, live, threshold))
    decreases live
  {
    var m := Chosen(w, live, threshold);
    if live != {} && w[Best(w, live)] >= threshold {
      var b := Best(w, live);
      var rest := Unmasked(live, b);
      ChosenSplits(w, live, threshold);
      assert b !in rest;
      GreedyIsStable(w, rest, threshold);
      forall c | c in live && w[c] >= threshold
        ensures Covered(w, m, c)
      {
        if c in rest {
          assert Covered(w, Chosen(w, rest, threshold), c);
        } else {
          assert b in m && Clash(b, c) && w[b] >= w[c];
        }
      }
    } else {
      assert m == {};
    }
  }

  /** Weights of distinct admissible cells differ. */
  ghost predicate DistinctWeights(w: Grid, live: set<Cell>, threshold: real)
    requires live <= w.Keys
  {
    forall c, d | c in live && d in live && c != d && w[c] >= threshold && w[d] >= threshold :: w[c] != w[d]
  }

  /** Without ties there is only one stable choice. */
  lemma {:induction false} StableIsGreedy(w: Grid, live: set<Cell>, threshold: real, m: set<Cell>)
    requires live <= w.Keys && DistinctWeights(w, live, threshold)
    requires Stable(w, live, threshold, m)
    ensures m == Chosen(w, live, threshold)
    decreases live
  {
    if live != {} && w[Best(w, live)] >= threshold {
      var b := Best(w, live);
      var rest := Unmasked(live, b);
      assert Covered(w, m, b);
      assert b in m;
      ChosenSplits(w, live, threshold);
      assert b !in rest;
      forall c | c in rest && w[c] >= threshold
        ensures Covered(w, m - {b}, c)
      {
        var d :| d in m && Clash(d, c) && w[d] >= w[c];
        assert d != b;
      }
      StableIsGreedy(w, rest, threshold, m - {b});
    } else {
      assert m == {};
    }
  }

  function Rename(f: map<nat, nat>, c: Cell): Cell
    requires c.row in f
  {
    Cell(f[c.row], c.col)
  }

  /** w' is w with its rows renamed, one to one, by f. */
  ghost predicate RowsRenamed(w: Grid, w': Grid, f: map<nat, nat>) {
    && (forall c | c in w :: c.row in f)
    && (forall i, j | i in f && j in f && f[i] == f[j] :: i == j)
    && (forall c | c in w :: Rename(f, c) in w' && w'[Rename(f, c)] == w[c])
    && (forall d | d in w' :: exists c :: c in w && d == Rename(f, c))
  }

  ghost function Renamed(m: set<Cell>, f: map<nat, nat>): set<Cell>
    requires forall c | c in m :: c.row in f
  {
    set c | c in m :: Rename(f, c)
  }

  lemma RenameClash(f: map<nat, nat>, c: Cell, d: Cell)
    requires c.row in f && d.row in f
    requires forall i, j | i in f && j in f && f[i] == f[j] :: i == j
    ensures Clash(Rename(f, c), Rename(f, d)) <==> Clash(c, d)
    ensures Rename(f, c) == Rename(f, d) <==> c == d
  {
  }

  lemma RenamedMatching(f: map<nat, nat>, m: set<Cell>)
    requires forall c | c in m :: c.row in f
    requires forall i, j | i in f && j in f && f[i] == f[j] :: i == j
    requires IsMatching(m)
    ensures IsMatching(Renamed(m, f))
  {
  }

  lemma RenamedIsStable(w: Grid, w': Grid, f: map<nat, nat>, threshold: real, m: set<Cell>)
    requires RowsRenamed(w, w', f) && Stable(w, w.Keys, threshold, m)
    ensures Stable(w', w'.Keys, threshold, Renamed(m, f))
  {
    hide Clash, Rename;
    var m' := Renamed(m, f);
    assert IsMatching(m') by {
      RenamedMatching(f, m);
    }
    forall d | d in w' && w'[d] >= threshold
      ensures Covered(w', m', d)
    {
      var c :| c in w && d == Rename(f, c);
      assert Covered(w, m, c);
      var e :| e in m && Clash(e, c) && w[e] >= w[c];
      RenameClash(f, e, c);
      assert Rename(f, e) in m';
    }
  }

  lemma RenamedDistinct(w: Grid, w': Grid, f: map<nat, nat>, threshold: real)
    requires RowsRenamed(w, w', f) && DistinctWeights(w, w.Keys, threshold)
    ensures DistinctWeights(w', w'.Keys, threshold)
  {
    forall c', d' | c' in w' && d' in w' && c' != d' && w'[c'] >= threshold && w'[d'] >= threshold
      ensures w'[c'] != w'[d']
    {
      var c :| c in w && c' == Rename(f, c);
      var d :| d in w && d' == Rename(f, d);
    }
  }

  /** Without ties, listing the detections in another order gives every track the same detection. */
  lemma MatchIgnoresRowOrder(w: Grid, w': Grid, f: map<nat, nat>, threshold: real)
    requires RowsRenamed(w, w', f) && DistinctWeights(w, w.Keys, threshold)
    ensures forall c | c in Chosen(w, w.Keys, threshold) :: c in w
    ensures Chosen(w', w'.Keys, threshold) == Renamed(Chosen(w, w.Keys, threshold), f)
  {
    hide Chosen;
    var m := Chosen(w, w.Keys, threshold);
    GreedyIsStable(w, w.Keys, threshold);
    RenamedIsStable(w, w', f, threshold, m);
    RenamedDistinct(w, w', f, threshold);
    StableIsGreedy(w', w'.Keys, threshold, Renamed(m, f));
  }

  // Reading a list of picked cells by row and by column.

  function RowPartner(picks: seq<Cell>, row: nat): Option<nat> {
    if picks == [] then None
    else if picks[0].row == row then Some(picks[0].col)
    else RowPartner(picks[1..], row)
  }

  function ColPartner(picks: seq<Cell>, col: nat): Option<nat> {
    if picks == [] then None
    else if picks[0].col == col then Some(picks[0].row)
    else ColPartner(picks[1..], col)
  }

  lemma {:induction false} PartnerOfExtended(picks: seq<Cell>, c: Cell, k: nat)
    ensures RowPartner(picks + [c], k) ==
      if RowPartner(picks, k).Some? then RowPartner(picks, k) else if c.row == k then Some(c.col) else None
    ensures ColPartner(picks + [c], k) ==
      if ColPartner(picks, k).Some? then ColPartner(picks, k) else if c.col == k then Some(c.row) else None
  {
    if picks == [] {
      assert (picks + [c])[1..] == [];
    } else {
      assert (picks + [c])[1..] == picks[1..] + [c];
      PartnerOfExtended(picks[1..], c, k);
    }
  }

  lemma {:induction false} PartnersInside(picks: seq<Cell>, k: nat)
    ensures RowPartner(picks, k).Some? ==> Cell(k, RowPartner(picks, k).value) in picks
    ensures ColPartner(picks, k).Some? ==> Cell(ColPartner(picks, k).value, k) in picks
    ensures RowPartner(picks, k).None? ==> forall c | c in picks :: c.row != k
    ensures ColPartner(picks, k).None? ==> forall c | c in picks :: c.col != k
  {
    if picks == [] {
    } else {
      PartnersInside(picks[1..], k);
    }
  }

  /** Row and column partners name each other, inside the ranges. */
  ghost predicate Inverse(picks: seq<Cell>, rows: nat, cols: nat) {
    && (forall i: nat, j: nat :: RowPartner(picks, i) == Some(j) <==> ColPartner(picks, j) == Some(i))
    && (forall i: nat :: RowPartner(picks, i).Some? ==> i < rows && RowPartner(picks, i).value < cols)
  }

  /** The two readings are inverse to each other, because the picks are one-to-one. */
  lemma PartnersInverse(w: Grid, live: set<Cell>, threshold: real, i: nat, j: nat)
    requires live <= w.Keys
    ensures
      var p := Picks(w, live, threshold);
      && (RowPartner(p, i) == Some(j) <==> Cell(i, j) in p)
      && (ColPartner(p, j) == Some(i) <==> Cell(i, j) in p)
  {
    var p := Picks(w, live, threshold);
    GreedyIsStable(w, live, threshold);
    var m := Chosen(w, live, threshold);
    PartnersInside(p, i);
    PartnersInside(p, j);
    assert forall c :: c in m <==> c in p;
    assert Cell(i, j) in p && RowPartner(p, i).Some? ==> Clash(Cell(i, j), Cell(i, RowPartner(p, i).value));
    assert Cell(i, j) in p && ColPartner(p, j).Some? ==> Clash(Cell(i, j), Cell(ColPartner(p, j).value, j));
  }

  // Total weight.

  ghost function Total(w: Grid, m: set<Cell>): real
    requires m <= w.Keys
  {
    if m == {} then 0.0 else var c :| c in m; w[c] + Total(w, m - {c})
  }

  lemma {:induction false} TotalSplit(w: Grid, m: set<Cell>, c: Cell)
    requires m <= w.Keys && c in m
    ensures Total(w, m) == w[c] + Total(w, m - {c})
    decreases m
  {
    var d :| d in m && Total(w, m) == w[d] + Total(w, m - {d});
    if d != c {
      TotalSplit(w, m - {d}, c);
      TotalSplit(w, m - {c}, d);
      assert m - {d} - {c} == m - {c} - {d};
    }
  }

  /** The cells of a matching that clash with one given cell: at most one in its row, one in its column. */
  lemma ClashWeight(w: Grid, live: set<Cell>, m: set<Cell>, b: Cell)
    requires m <= live <= w.Keys && IsMatching(m) && IsBest(w, live, b)
    requires w[b] >= 0.0
    ensures Total(w, m) <= 2.0 * w[b] + Total(w, m * Unmasked(live, b))
  {
    var m1, rest := m - RowOf(m, b), m * Unmasked(live, b);
    LightestOut(w, live, m, RowOf(m, b), b);
    assert IsMatching(m1) && rest == m1 - ColOf(m1, b);
    LightestOut(w, live, m1, ColOf(m1, b), b);
  }

  ghost function RowOf(m: set<Cell>, b: Cell): set<Cell> {
    set c | c in m && c.row == b.row
  }

  ghost function ColOf(m: set<Cell>, b: Cell): set<Cell> {
    set c | c in m && c.col == b.col
  }

  /** Taking out the cells of one line through the best cell costs at most its weight. */
  lemma LightestOut(w: Grid, live: set<Cell>, m: set<Cell>, out: set<Cell>, b: Cell)
    requires m <= live <= w.Keys && IsMatching(m) && IsBest(w, live, b) && w[b] >= 0.0
    requires out <= m && forall c, d | c in out && d in out :: Clash(c, d)
    ensures Total(w, m) <= w[b] + Total(w, m - out)
  {
    if c :| c in out {
      assert out == {c};
      TotalSplit(w, m, c);
    } else {
      assert m - out == m;
    }
  }

  /** The greedy choice weighs at least half of any other admissible one-to-one choice. */
  lemma {:induction false} GreedyIsHalfOptimal(w: Grid, live: set<Cell>, threshold: real, m: set<Cell>)
    requires live <= w.Keys && forall c | c in live :: w[c] >= 0.0
    requires m <= live && IsMatching(m) && forall c | c in m :: w[c] >= threshold
    ensures Chosen(w, live, threshold) <= w.Keys
    ensures Total(w, m) <= 2.0 * Total(w, Chosen(w, live, threshold))
    decreases live
  {
    PicksInside(w, live, threshold);
    if live != {} && w[Best(w, live)] >= threshold {
      var b := Best(w, live);
      var rest := Unmasked(live, b);
      assert b !in rest;
      ChosenSplits(w, live, threshold);
      ClashWeight(w, live, m, b);
      GreedyIsHalfOptimal(w, rest, threshold, m * rest);
      TotalSplit(w, Chosen(w, live, threshold), b);
      assert Chosen(w, live, threshold) - {b} == Chosen(w, rest, threshold);
    } else {
      assert m == {};
    }
  }
}
