/** The in-place matching loop: argmax, lock in, mask the row and the column. */
module GreedyLoop {
  import opened Options
  import opened Greedy

  ghost function GridOf(a: array2<real>): (w: Grid)
    reads a
    ensures forall c :: c in w <==> c.row < a.Length0 && c.col < a.Length1
    ensures forall c | c in w :: w[c] == a[c.row, c.col]
  {
    map i: nat, j: nat | i < a.Length0 && j < a.Length1 :: Cell(i, j) := a[i, j]
  }

  /** The largest entry, and the first such entry in row-major order. */
  ghost predicate FirstMax(a: array2<real>, row: nat, col: nat)
    reads a
  {
    && row < a.Length0 && col < a.Length1
    && forall i: nat, j: nat | i < a.Length0 && j < a.Length1 ::
         && a[i, j] <= a[row, col]
         && (RowMajorBefore(Cell(i, j), Cell(row, col)) ==> a[i, j] < a[row, col])
  }

  lemma AtLeastOne(k: int, width: nat)
    requires k >= 1
    ensures k * width >= width
  {
  }

  lemma SmallMultiple(k: int, width: nat)
    requires k * width < width && -(k * width) < width
    ensures k == 0
  {
    if k > 0 {
      AtLeastOne(k, width);
    } else if k < 0 {
      AtLeastOne(-k, width);
    }
  }

  lemma FlatIndex(row: nat, col: nat, width: nat)
    requires col < width
    ensures 0 <= row * width + col
    ensures (row * width + col) / width == row && (row * width + col) % width == col
  {
    var flat := row * width + col;
    var q, r := flat / width, flat % width;
    assert (row - q) * width == r - col by {
      assert flat == q * width + r;
      assert (row - q) * width == row * width - q * width;
    }
    SmallMultiple(row - q, width);
  }

  method ArgMax(a: array2<real>) returns (flat: nat)
    requires a.Length0 > 0 && a.Length1 > 0
    ensures FirstMax(a, flat / a.Length1, flat % a.Length1)
  {
    var row, col := 0, 0;
    for i := 0 to a.Length0
      invariant row < a.Length0 && col < a.Length1
      invariant row <= i
      invariant i == 0 ==> row == 0 && col == 0
      invariant i > 0 ==> row < i
      invariant forall p: nat, q: nat | p < i && q < a.Length1 ::
        && a[p, q] <= a[row, col]
        && (RowMajorBefore(Cell(p, q), Cell(row, col)) ==> a[p, q] < a[row, col])
    {
      for j := 0 to a.Length1
        invariant row < a.Length0 && col < a.Length1
        invariant row <= i && (row == i ==> i == 0 || col < j)
        invariant i == 0 ==> row == 0 && (j == 0 ==> col == 0) && (j > 0 ==> col < j)
        invariant forall p: nat, q: nat | (p < i && q < a.Length1) || (p == i && q < j) ::
          && a[p, q] <= a[row, col]
          && (RowMajorBefore(Cell(p, q), Cell(row, col)) ==> a[p, q] < a[row, col])
      {
        if a[i, j] > a[row, col] {
          row, col := i, j;
        }
      }
    }
    FlatIndex(row, col, a.Length1);
    flat := row * a.Length1 + col;
  }

  method BestCell(a: array2<real>) returns (row: nat, col: nat)
    requires a.Length0 > 0 && a.Length1 > 0
    ensures FirstMax(a, row, col)
  {
    var flat := ArgMax(a);
    row, col := flat / a.Length1, flat % a.Length1;
  }

  lemma FirstMaxIsBest(a: array2<real>, w: Grid, live: set<Cell>, row: nat, col: nat)
    requires FirstMax(a, row, col) && Cell(row, col) in live && live <= w.Keys
    requires forall c | c in live :: c.row < a.Length0 && c.col < a.Length1 && a[c.row, c.col] == w[c]
    ensures Cell(row, col) == Best(w, live)
  {
    var c := Cell(row, col);
    forall d | d in live && d != c
      ensures Before(w, c, d)
    {
      assert a[d.row, d.col] <= a[row, col];
      if w[c] == w[d] {
        assert !RowMajorBefore(d, c);
      }
    }
    BestUnique(w, live, c);
  }

  method Mask(iou: array2<real>, row: nat, col: nat)
    requires row < iou.Length0 && col < iou.Length1
    modifies iou
    ensures forall i, j | 0 <= i < iou.Length0 && 0 <= j < iou.Length1 ::
      iou[i, j] == if i == row || j == col then -1.0 else old(iou[i, j])
  {
    forall j | 0 <= j < iou.Length1 {
      iou[row, j] := -1.0;
    }
    forall i | 0 <= i < iou.Length0 {
      iou[i, col] := -1.0;
    }
  }

  lemma PicksUnfold(w: Grid, live: set<Cell>, threshold: real, done: seq<Cell>, c: Cell)
    requires live <= w.Keys && live != {} && c == Best(w, live) && w[c] >= threshold
    ensures done + Picks(w, live, threshold) == (done + [c]) + Picks(w, Unmasked(live, c), threshold)
  {
    assert Picks(w, live, threshold) == [c] + Picks(w, Unmasked(live, c), threshold);
  }

  lemma PartnersOfExtended(done: seq<Cell>, c: Cell)
    ensures forall k: nat ::
      RowPartner(done + [c], k) ==
      (if RowPartner(done, k).Some? then RowPartner(done, k) else if c.row == k then Some(c.col) else None)
    ensures forall k: nat ::
      ColPartner(done + [c], k) ==
      (if ColPartner(done, k).Some? then ColPartner(done, k) else if c.col == k then Some(c.row) else None)
  {
    forall k: nat {
      PartnerOfExtended(done, c, k);
    }
  }

  lemma NoPartners()
    ensures forall k: nat :: RowPartner([], k) == None && ColPartner([], k) == None
  {
  }

  /** The matrix and the three lists after the cells `done` were locked in. */
  ghost predicate LockedIn(w: Grid, live: set<Cell>, done: seq<Cell>,
                           iou: array2<real>, detMatched: array<bool>, trkMatched: array<bool>, detToTrack: array<Option<nat>>)
    reads iou, detMatched, trkMatched, detToTrack
  {
    && live <= w.Keys
    && detMatched.Length == detToTrack.Length == iou.Length0 && trkMatched.Length == iou.Length1
    && (forall c :: c in w <==> c.row < iou.Length0 && c.col < iou.Length1)
    && (forall c | c in w :: c in live <==> !detMatched[c.row] && !trkMatched[c.col])
    && (forall c | c in w :: iou[c.row, c.col] == if c in live then w[c] else -1.0)
    && (forall i | 0 <= i < iou.Length0 :: detToTrack[i] == RowPartner(done, i) && detMatched[i] == detToTrack[i].Some?)
    && (forall j | 0 <= j < iou.Length1 :: trkMatched[j] == ColPartner(done, j).Some?)
  }

  method LockIn(iou: array2<real>, detMatched: array<bool>, trkMatched: array<bool>, detToTrack: array<Option<nat>>,
                di: nat, ti: nat, ghost w: Grid, ghost live: set<Cell>, ghost done: seq<Cell>)
    requires detMatched != trkMatched
    requires LockedIn(w, live, done, iou, detMatched, trkMatched, detToTrack)
    requires Cell(di, ti) in live
    modifies iou, detMatched, trkMatched, detToTrack
    ensures LockedIn(w, Unmasked(live, Cell(di, ti)), done + [Cell(di, ti)], iou, detMatched, trkMatched, detToTrack)
  {
    hide RowPartner, ColPartner;
    PartnersOfExtended(done, Cell(di, ti));
    detMatched[di] := true;
    trkMatched[ti] := true;
    detToTrack[di] := Some(ti);
    Mask(iou, di, ti);
  }

  lemma StopHere(w: Grid, live: set<Cell>, done: seq<Cell>, threshold: real, row: nat, col: nat,
                 iou: array2<real>, detMatched: array<bool>, trkMatched: array<bool>, detToTrack: array<Option<nat>>)
    requires LockedIn(w, live, done, iou, detMatched, trkMatched, detToTrack)
    requires FirstMax(iou, row, col) && iou[row, col] < threshold
    ensures Picks(w, live, threshold) == []
  {
    assert forall c | c in live :: iou[c.row, c.col] <= iou[row, col];
    PicksBelow(w, live, threshold);
  }

  /** A maximum at or above the threshold sits in an unmasked row and column. */
  lemma MaximumIsLive(w: Grid, live: set<Cell>, done: seq<Cell>, threshold: real, row: nat, col: nat,
                      iou: array2<real>, detMatched: array<bool>, trkMatched: array<bool>, detToTrack: array<Option<nat>>)
    requires LockedIn(w, live, done, iou, detMatched, trkMatched, detToTrack)
    requires FirstMax(iou, row, col) && iou[row, col] >= threshold > -1.0
    ensures Cell(row, col) in live && !detMatched[row] && !trkMatched[col]
    ensures
      var c := Cell(row, col);
      done + Picks(w, live, threshold) == (done + [c]) + Picks(w, Unmasked(live, c), threshold)
  {
    var c := Cell(row, col);
    assert c in w && c in live;
    FirstMaxIsBest(iou, w, live, row, col);
    PicksUnfold(w, live, threshold, done, c);
  }

  lemma NothingLocked(w: Grid, iou: array2<real>, detMatched: array<bool>, trkMatched: array<bool>, detToTrack: array<Option<nat>>)
    requires w == GridOf(iou)
    requires detMatched.Length == detToTrack.Length == iou.Length0 && trkMatched.Length == iou.Length1
    requires forall i | 0 <= i < iou.Length0 :: !detMatched[i] && detToTrack[i].None?
    requires forall j | 0 <= j < iou.Length1 :: !trkMatched[j]
    ensures LockedIn(w, w.Keys, [], iou, detMatched, trkMatched, detToTrack)
  {
    NoPartners();
    hide GridOf;
  }

  lemma LockedMeans(w: Grid, live: set<Cell>, done: seq<Cell>,
                    iou: array2<real>, detMatched: array<bool>, trkMatched: array<bool>, detToTrack: array<Option<nat>>)
    requires LockedIn(w, live, done, iou, detMatched, trkMatched, detToTrack)
    ensures detMatched.Length == detToTrack.Length == iou.Length0 && trkMatched.Length == iou.Length1
    ensures forall i | 0 <= i < iou.Length0 :: detToTrack[i] == RowPartner(done, i) && detMatched[i] == detToTrack[i].Some?
    ensures forall j | 0 <= j < iou.Length1 :: trkMatched[j] == ColPartner(done, j).Some?
    ensures live <= w.Keys
  {
  }

  /** The loop picks the cells of the recursion Picks; a threshold of -1 or less would never let it stop. */
  method GreedyMatch(iou: array2<real>, threshold: real)
    returns (detMatched: array<bool>, trkMatched: array<bool>, detToTrack: array<Option<nat>>)
    requires iou.Length0 > 0 && iou.Length1 > 0
    requires threshold > -1.0
    modifies iou
    ensures fresh(detMatched) && fresh(trkMatched) && fresh(detToTrack)
    ensures detMatched.Length == detToTrack.Length == iou.Length0 && trkMatched.Length == iou.Length1
    ensures
      var w := old(GridOf(iou));
      var picks := Picks(w, w.Keys, threshold);
      && (forall i | 0 <= i < iou.Length0 :: detToTrack[i] == RowPartner(picks, i) && detMatched[i] == detToTrack[i].Some?)
      && (forall j | 0 <= j < iou.Length1 :: trkMatched[j] == ColPartner(picks, j).Some?)
  {
    hide Picks, RowPartner, ColPartner, LockedIn, GridOf, FirstMax;
    detMatched := new bool[iou.Length0](_ => false);
    trkMatched := new bool[iou.Length1](_ => false);
    detToTrack := new Option<nat>[iou.Length0](_ => None);
    ghost var w := GridOf(iou);
    ghost var live := w.Keys;
    ghost var done: seq<Cell> := [];
    NothingLocked(w, iou, detMatched, trkMatched, detToTrack);
    while true
      invariant LockedIn(w, live, done, iou, detMatched, trkMatched, detToTrack)
      invariant live <= w.Keys && detMatched.Length == iou.Length0 && trkMatched.Length == iou.Length1
      invariant done + Picks(w, live, threshold) == Picks(w, w.Keys, threshold)
      decreases live
    {
      var di, ti := BestCell(iou);
      var best := iou[di, ti];
      if best < threshold {
        StopHere(w, live, done, threshold, di, ti, iou, detMatched, trkMatched, detToTrack);
        assert done == Picks(w, w.Keys, threshold);
        break;
      }
      MaximumIsLive(w, live, done, threshold, di, ti, iou, detMatched, trkMatched, detToTrack);
      if detMatched[di] || trkMatched[ti] {
        // The masked rows and columns hold -1, below the threshold.
        assert false;
      } else {
        LockIn(iou, detMatched, trkMatched, detToTrack, di, ti, w, live, done);
        done := done + [Cell(di, ti)];
        live := Unmasked(live, Cell(di, ti));
      }
    }
    LockedMeans(w, live, done, iou, detMatched, trkMatched, detToTrack);
  }

  // When the loop ends.

  function Masked(w: Grid, c: Cell): Grid {
    map d | d in w :: if Clash(c, d) then -1.0 else w[d]
  }

  ghost predicate Done(w: Grid, threshold: real)
    requires w.Keys != {}
  {
    w[Best(w, w.Keys)] < threshold
  }

  /** The matrix after n rounds of the loop. */
  ghost function Rounds(w: Grid, threshold: real, n: nat): (v: Grid)
    requires w.Keys != {}
    ensures v.Keys == w.Keys
  {
    if n == 0 then w
    else
      var v := Rounds(w, threshold, n - 1);
      if Done(v, threshold) then v else Masked(v, Best(v, v.Keys))
  }

  ghost predicate Ends(w: Grid, threshold: real)
    requires w.Keys != {}
  {
    exists n: nat :: Done(Rounds(w, threshold, n), threshold)
  }

  lemma {:induction false} FirstRound(w: Grid, threshold: real, n: nat)
    requires w.Keys != {} && !Done(w, threshold)
    ensures Rounds(w, threshold, n + 1) == Rounds(Masked(w, Best(w, w.Keys)), threshold, n)
    decreases n
  {
    hide Done, Masked;
    if n == 0 {
      assert Rounds(w, threshold, 0) == w;
    } else {
      FirstRound(w, threshold, n - 1);
    }
  }

  ghost function Hot(w: Grid, threshold: real): set<Cell> {
    set c | c in w && w[c] >= threshold
  }

  lemma {:induction false} EndsAbove(w: Grid, threshold: real)
    requires w.Keys != {} && threshold > -1.0
    ensures Ends(w, threshold)
    decreases Hot(w, threshold)
  {
    if Done(w, threshold) {
      assert Done(Rounds(w, threshold, 0), threshold);
    } else {
      var b := Best(w, w.Keys);
      var v := Masked(w, b);
      assert b in Hot(w, threshold) && b !in Hot(v, threshold);
      assert Hot(v, threshold) < Hot(w, threshold);
      EndsAbove(v, threshold);
      var n: nat :| Done(Rounds(v, threshold, n), threshold);
      FirstRound(w, threshold, n);
      assert Done(Rounds(w, threshold, n + 1), threshold);
    }
  }

  lemma {:induction false} NeverBelow(w: Grid, threshold: real, n: nat)
    requires w.Keys != {} && forall c | c in w :: w[c] >= -1.0
    ensures forall c | c in Rounds(w, threshold, n) :: Rounds(w, threshold, n)[c] >= -1.0
    decreases n
  {
    if n == 0 {
    } else {
      NeverBelow(w, threshold, n - 1);
    }
  }

  /** The loop ends on a matrix of overlaps if and only if the threshold is above the mask value -1. */
  lemma LoopEndsIff(w: Grid, threshold: real)
    requires w.Keys != {} && forall c | c in w :: w[c] >= 0.0
    ensures Ends(w, threshold) <==> threshold > -1.0
  {
    if threshold > -1.0 {
      EndsAbove(w, threshold);
    } else {
      forall n: nat
        ensures !Done(Rounds(w, threshold, n), threshold)
      {
        NeverBelow(w, threshold, n);
      }
    }
  }
}
