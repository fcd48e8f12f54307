/**
 Up and down within one menu: the positions of the selectable rows, numbered in order, and the two
 moves as plus one and minus one on these numbers.
 */
module MenuNavigation {
  import opened Wrappers
  import opened MenuTrees

  /** The positions that a selectable row has. */
  ghost function Width(row: Row): nat {
    if Selectable(row) then OrElse(ItemsLen(row), 0) else 0
  }

  lemma SelectableRowsHaveWidth(row: Row)
    ensures Selectable(row) ==> Width(row) == LastItem(row) + 1
    ensures !Selectable(row) ==> Width(row) == 0
  {
  }

  /** Which items a row has that can be reached: those of a row of items, one more than its children for a
      submenu, and one for any other row that can be selected. */
  lemma WidthsOfRows(row: Row)
    ensures Width(row) > 0 <==> Selectable(row)
    ensures match row
            case Item(f) => Width(row) == if f.disabled || f.noInteractionOnHover then 0 else 1
            case Separator => Width(row) == 0
            case Header(_, clickable) => Width(row) == if clickable then 1 else 0
            case Submenu(menu) => Width(row) == if menu.rows == [] then 0 else |menu.rows| + 1
            case ItemsRow(items) =>
              Width(row) == if forall k :: 0 <= k < |items| ==> items[k].disabled || items[k].noInteractionOnHover
                            then 0 else |items|
  {
  }

  ghost predicate IsPosition(rows: seq<Row>, p: (nat, nat)) {
    p.0 < |rows| && Selectable(rows[p.0]) && p.1 < Width(rows[p.0])
  }

  /** The positions in the first `n` rows. */
  ghost function Before(rows: seq<Row>, n: nat): nat
    requires n <= |rows|
  {
    if n == 0 then 0 else Before(rows, n - 1) + Width(rows[n - 1])
  }

  ghost function Total(rows: seq<Row>): nat {
    Before(rows, |rows|)
  }

  ghost function Rank(rows: seq<Row>, p: (nat, nat)): nat
    requires IsPosition(rows, p)
  {
    Before(rows, p.0) + p.1
  }

  lemma {:induction false} BeforeGrows(rows: seq<Row>, m: nat, n: nat)
    requires m <= n <= |rows|
    ensures Before(rows, m) <= Before(rows, n)
    ensures m < n ==> Before(rows, m) + Width(rows[m]) <= Before(rows, n)
    ensures (forall k :: m <= k < n ==> !Selectable(rows[k])) ==> Before(rows, m) == Before(rows, n)
  {
    if m < n {
      BeforeGrows(rows, m, n - 1);
    }
  }

  /** Rank numbers the positions from 0 up, without gaps or repetition. */
  lemma RanksAreDistinct(rows: seq<Row>, p: (nat, nat), q: (nat, nat))
    requires IsPosition(rows, p) && IsPosition(rows, q)
    ensures Rank(rows, p) < Total(rows)
    ensures Rank(rows, p) == Rank(rows, q) <==> p == q
  {
    BeforeGrows(rows, p.0, |rows|);
    if p.0 < q.0 {
      BeforeGrows(rows, p.0, q.0);
    } else if q.0 < p.0 {
      BeforeGrows(rows, q.0, p.0);
    }
  }

  lemma {:induction false} EveryRankIsThere(rows: seq<Row>, n: nat, rank: nat) returns (p: (nat, nat))
    requires n <= |rows| && rank < Before(rows, n)
    ensures IsPosition(rows, p) && Rank(rows, p) == rank
  {
    if rank < Before(rows, n - 1) {
      p := EveryRankIsThere(rows, n - 1, rank);
    } else {
      p := (n - 1, rank - Before(rows, n - 1));
    }
  }

  // The cyclic search.

  /** Place `j` of the repeated rows is selectable. */
  ghost predicate Hit(rows: seq<Row>, backwards: bool, j: nat) {
    rows != [] && Selectable(rows[Cycled(|rows|, backwards, j)])
  }

  /** The search finds the nearest selectable row, at place `hit`. */
  lemma {:induction false} FindsTheNearest(rows: seq<Row>, backwards: bool, j: nat, count: nat, hit: nat)
    requires j <= hit < j + count && Hit(rows, backwards, hit)
    requires forall m: nat :: j <= m < hit ==> !Hit(rows, backwards, m)
    ensures FindCycled(rows, backwards, j, count) == Some(Cycled(|rows|, backwards, hit))
    decreases count
  {
    hide Cycled, Selectable;
    if j < hit {
      assert !Hit(rows, backwards, j);
      FindsTheNearest(rows, backwards, j + 1, count - 1, hit);
    }
  }

  lemma Wraps(n: nat, j: nat)
    requires 0 < n && j < 2 * n
    ensures j % n == if j < n then j else j - n
  {
  }

  /** A search that is sure to end ends somewhere first. */
  lemma {:induction false} NearestHit(rows: seq<Row>, backwards: bool, j: nat, last: nat) returns (hit: nat)
    requires j <= last && Hit(rows, backwards, last)
    ensures j <= hit <= last && Hit(rows, backwards, hit)
    ensures forall m: nat :: j <= m < hit ==> !Hit(rows, backwards, m)
    decreases last - j
  {
    hide Hit;
    if Hit(rows, backwards, j) {
      hit := j;
    } else {
      hit := NearestHit(rows, backwards, j + 1, last);
    }
  }

  ghost predicate AnySelectable(rows: seq<Row>) {
    exists k :: 0 <= k < |rows| && Selectable(rows[k])
  }

  lemma NoneIsFound(rows: seq<Row>, backwards: bool, j: nat)
    requires !AnySelectable(rows)
    ensures FindCycled(rows, backwards, j, |rows|).None?
  {
    hide Selectable;
  }

  /** The row after any row is the next selectable one below, or when there is none below the first of
      all, which may be the row itself; it is also the row itself when no row is selectable. */
  lemma RowAfterIsNext(rows: seq<Row>, row: nat)
    requires row < |rows|
    ensures var r := RowAfter(rows, row);
            if !AnySelectable(rows) then r == row
            else
              && Selectable(rows[r])
              && if r > row then forall k :: row < k < r ==> !Selectable(rows[k])
                 else forall k :: 0 <= k < r || row < k < |rows| ==> !Selectable(rows[k])
  {
    hide FindCycled, Selectable;
    var n := |rows|;
    if k :| 0 <= k < n && Selectable(rows[k]) {
      var place := if row < k then k else n + k;
      Wraps(n, place);
      var hit := NearestHit(rows, false, row + 1, place);
      FindsTheNearest(rows, false, row + 1, n, hit);
      Wraps(n, hit);
      var r := RowAfter(rows, row);
      forall k | 0 <= k < n && (if r > row then row < k < r else k < r || row < k)
        ensures !Selectable(rows[k])
      {
        var m := if row < k then k else n + k;
        Wraps(n, m);
        assert !Hit(rows, false, m);
      }
    } else {
      NoneIsFound(rows, false, row + 1);
    }
  }

  /** The row before any row is the next selectable one above, or when there is none above the last of
      all, which may be the row itself; it is also the row itself when no row is selectable. */
  lemma RowBeforeIsPrevious(rows: seq<Row>, row: nat)
    requires row < |rows|
    ensures var r := RowBefore(rows, row);
            if !AnySelectable(rows) then r == row
            else
              && Selectable(rows[r])
              && if r < row then forall k :: r < k < row ==> !Selectable(rows[k])
                 else forall k :: 0 <= k < row || r < k < |rows| ==> !Selectable(rows[k])
  {
    hide FindCycled, Selectable;
    var n := |rows|;
    var first := n - row;
    if k :| 0 <= k < n && Selectable(rows[k]) {
      var place := if k < row then n - 1 - k else 2 * n - 1 - k;
      Wraps(n, place);
      var hit := NearestHit(rows, true, first, place);
      FindsTheNearest(rows, true, first, n, hit);
      Wraps(n, hit);
      var r := RowBefore(rows, row);
      forall k | 0 <= k < n && (if r < row then r < k < row else k < row || r < k)
        ensures !Selectable(rows[k])
      {
        var m := if k < row then n - 1 - k else 2 * n - 1 - k;
        Wraps(n, m);
        assert !Hit(rows, true, m);
      }
    } else {
      NoneIsFound(rows, true, first);
    }
  }

  /** From out of range, up goes to the last selectable row of all. */
  lemma RowBeforeFromOutOfRange(rows: seq<Row>, row: nat)
    requires |rows| <= row
    ensures var r := RowBefore(rows, row);
            if !AnySelectable(rows) then r == row
            else r < |rows| && Selectable(rows[r]) && forall k :: r < k < |rows| ==> !Selectable(rows[k])
  {
    hide FindCycled, Selectable;
    var n := |rows|;
    if k :| 0 <= k < n && Selectable(rows[k]) {
      Wraps(n, n - 1 - k);
      var hit := NearestHit(rows, true, 0, n - 1 - k);
      FindsTheNearest(rows, true, 0, n, hit);
      Wraps(n, hit);
      forall k | RowBefore(rows, row) < k < n
        ensures !Selectable(rows[k])
      {
        Wraps(n, n - 1 - k);
        assert !Hit(rows, true, n - 1 - k);
      }
    } else {
      NoneIsFound(rows, true, 0);
    }
  }

  lemma MultiplesAreFar(n: int, d: int)
    requires 0 < n && d != 0
    ensures n * d <= -n || n <= n * d
  {
    if d > 0 {
      assert n * (d - 1) >= 0;
    } else {
      assert n * (-d - 1) >= 0;
    }
  }

  lemma OneTurnMore(n: nat, j: nat)
    requires 0 < n
    ensures (j + n) % n == j % n
  {
    var a, b := (j + n) / n, j / n;
    assert j + n == n * a + (j + n) % n && j == n * b + j % n;
    assert n * (a - b - 1) == n * a - n * b - n;
    if a - b - 1 != 0 {
      MultiplesAreFar(n, a - b - 1);
      assert false;
    }
  }

  lemma {:induction false} SearchesRepeat(rows: seq<Row>, j: nat, count: nat)
    requires rows != []
    ensures FindCycled(rows, false, j + |rows|, count) == FindCycled(rows, false, j, count)
    decreases count
  {
    hide Selectable;
    OneTurnMore(|rows|, j);
    if count > 0 {
      SearchesRepeat(rows, j + 1, count - 1);
    }
  }

  lemma {:induction false} SearchFromWithin(rows: seq<Row>, j: nat)
    requires rows != []
    ensures j % |rows| < |rows| && FindCycled(rows, false, j, |rows|) == FindCycled(rows, false, j % |rows|, |rows|)
  {
    hide FindCycled;
    if j < |rows| {
      Wraps(|rows|, j);
    } else {
      SearchFromWithin(rows, j - |rows|);
      SearchesRepeat(rows, j - |rows|, |rows|);
      OneTurnMore(|rows|, j - |rows|);
    }
  }

  /** From out of range, down goes on from the place that the next row would have if the rows were
      repeated for ever. */
  lemma RowAfterFromOutOfRange(rows: seq<Row>, row: nat)
    requires |rows| <= row && rows != []
    ensures var r, from := RowAfter(rows, row), (row + 1) % |rows|;
            if !AnySelectable(rows) then r == row
            else
              && r < |rows| && Selectable(rows[r])
              && if r >= from then forall k :: from <= k < r ==> !Selectable(rows[k])
                 else forall k :: 0 <= k < r || from <= k < |rows| ==> !Selectable(rows[k])
  {
    hide FindCycled, Selectable;
    var n, from := |rows|, (row + 1) % |rows|;
    SearchFromWithin(rows, row + 1);
    if k :| 0 <= k < n && Selectable(rows[k]) {
      var place := if from <= k then k else n + k;
      Wraps(n, place);
      var hit := NearestHit(rows, false, from, place);
      FindsTheNearest(rows, false, from, n, hit);
      Wraps(n, hit);
      var r := RowAfter(rows, row);
      forall k | 0 <= k < n && (if r >= from then from <= k < r else k < r || from <= k)
        ensures !Selectable(rows[k])
      {
        var m := if from <= k then k else n + k;
        Wraps(n, m);
        assert !Hit(rows, false, m);
      }
    } else {
      NoneIsFound(rows, false, row + 1);
    }
  }

  /** From a row out of range, too, the search backwards finds a row exactly when one is selectable. */
  lemma BackwardsFindsAny(rows: seq<Row>, row: nat)
    ensures FindCycled(rows, true, SkippedBackwards(|rows|, row), |rows|).Some? <==>
            exists k :: 0 <= k < |rows| && Selectable(rows[k])
  {
    hide FindCycled, Selectable;
    var n := |rows|;
    var first := SkippedBackwards(n, row);
    if k :| 0 <= k < n && Selectable(rows[k]) {
      var m := if first <= n - 1 - k then n - 1 - k else 2 * n - 1 - k;
      Wraps(n, m);
      var hit := NearestHit(rows, true, first, m);
      FindsTheNearest(rows, true, first, n, hit);
    }
  }

  // The moves.

  /** A move indexes a row out of range exactly from a selected row that is itself out of range, and not
      always then: up needs another item before the selected one, or a selectable row to go to; down
      needs an item not to be selected. */
  lemma WhenMovesAreInRange(t: Tree)
    ensures CanSelect(t, SelectAction.Previous) <==>
            (t.row.Some? && |t.rows| <= t.row.value ==>
               OrElse(t.item, 0) > 0 || exists k :: 0 <= k < |t.rows| && Selectable(t.rows[k]))
    ensures CanSelect(t, SelectAction.Next) <==> (t.row.Some? && |t.rows| <= t.row.value ==> t.item.None?)
  {
    hide FindCycled, Selectable;
    if t.row.Some? {
      BackwardsFindsAny(t.rows, t.row.value);
      FoundIsInRange(t.rows, true, SkippedBackwards(|t.rows|, t.row.value));
    }
  }

  lemma FoundIsInRange(rows: seq<Row>, backwards: bool, j: nat)
    ensures var r := FindCycled(rows, backwards, j, |rows|); r.Some? ==> r.value < |rows|
  {
  }

  /** A menu whose selection is at a position. */
  ghost predicate IsAt(t: Tree, p: (nat, nat)) {
    t.row == Some(p.0) && t.item == Some(p.1) && IsPosition(t.rows, p)
  }

  ghost function Next(t: Tree, p: (nat, nat)): (nat, nat)
    requires IsAt(t, p)
  {
    Moved(t, SelectAction.Next)
  }

  ghost function Previous(t: Tree, p: (nat, nat)): (nat, nat)
    requires IsAt(t, p)
  {
    Moved(t, SelectAction.Previous)
  }

  /** The first position of the row after is one further on than the last of a row. */
  lemma RankAcrossRows(rows: seq<Row>, row: nat, item: nat)
    requires IsPosition(rows, (row, item)) && item + 1 == Width(rows[row])
    ensures IsPosition(rows, (RowAfter(rows, row), 0))
    ensures var rank := Rank(rows, (RowAfter(rows, row), 0));
            if Before(rows, row) + item + 1 == Total(rows) then rank == 0
            else rank == Before(rows, row) + item + 1
  {
    hide FindCycled, Selectable, ItemsLen, RowAfter, LastItem;
    var r := RowAfter(rows, row);
    RowAfterIsNext(rows, row);
    SelectableRowsHaveWidth(rows[r]);
    BeforeGrows(rows, row + 1, |rows|);
    if r > row {
      BeforeGrows(rows, row + 1, r);
      BeforeGrows(rows, r, |rows|);
    } else {
      BeforeGrows(rows, 0, r);
    }
  }

  /** Down is rank plus one, cyclically. */
  lemma NextIsPlusOne(t: Tree, p: (nat, nat))
    requires IsAt(t, p)
    ensures IsPosition(t.rows, Next(t, p)) && 0 < Total(t.rows)
    ensures Rank(t.rows, Next(t, p)) == (Rank(t.rows, p) + 1) % Total(t.rows)
  {
    hide FindCycled, Selectable, ItemsLen, Before, RowAfter;
    SelectableRowsHaveWidth(t.rows[p.0]);
    RanksAreDistinct(t.rows, p, p);
    Wraps(Total(t.rows), Rank(t.rows, p) + 1);
    if p.1 < LastItem(t.rows[p.0]) {
      RanksAreDistinct(t.rows, Next(t, p), p);
    } else {
      RankAcrossRows(t.rows, p.0, p.1);
    }
  }

  /** Up is rank minus one, cyclically. */
  lemma PreviousIsMinusOne(t: Tree, p: (nat, nat))
    requires IsAt(t, p)
    ensures IsPosition(t.rows, Previous(t, p)) && 0 < Total(t.rows)
    ensures Rank(t.rows, Previous(t, p)) == (Rank(t.rows, p) + Total(t.rows) - 1) % Total(t.rows)
  {
    hide FindCycled, Selectable, ItemsLen;
    var rows, q := t.rows, Previous(t, p);
    RanksAreDistinct(rows, p, p);
    if p.1 > 0 {
      Wraps(Total(rows), Rank(rows, p) + Total(rows) - 1);
    } else {
      RowBeforeIsPrevious(rows, p.0);
      SelectableRowsHaveWidth(rows[q.0]);
      Wraps(Total(rows), Rank(rows, p) + Total(rows) - 1);
      if q.0 < p.0 {
        BeforeGrows(rows, q.0 + 1, p.0);
      } else {
        BeforeGrows(rows, q.0 + 1, |rows|);
        BeforeGrows(rows, 0, p.0);
      }
    }
  }

  ghost function MovedTo(t: Tree, p: (nat, nat)): Tree {
    t.(row := Some(p.0), item := Some(p.1))
  }

  /** Up undoes down and down undoes up. */
  lemma MovesAreInverse(t: Tree, p: (nat, nat))
    requires IsAt(t, p)
    ensures IsPosition(t.rows, Next(t, p)) && Previous(MovedTo(t, Next(t, p)), Next(t, p)) == p
    ensures IsPosition(t.rows, Previous(t, p)) && Next(MovedTo(t, Previous(t, p)), Previous(t, p)) == p
  {
    hide Next, Previous, Rank, Total;
    var down, up := Next(t, p), Previous(t, p);
    NextIsPlusOne(t, p);
    PreviousIsMinusOne(t, p);
    PreviousIsMinusOne(MovedTo(t, down), down);
    NextIsPlusOne(MovedTo(t, up), up);
    RanksAreDistinct(t.rows, p, p);
    var n, k := Total(t.rows), Rank(t.rows, p);
    PlusMinus(n, k);
    RanksAreDistinct(t.rows, p, Previous(MovedTo(t, down), down));
    RanksAreDistinct(t.rows, p, Next(MovedTo(t, up), up));
  }

  lemma PlusMinus(n: nat, k: nat)
    requires k < n
    ensures ((k + 1) % n + n - 1) % n == k
    ensures ((k + n - 1) % n + 1) % n == k
  {
    Wraps(n, k + 1);
    Wraps(n, k + n - 1);
    Wraps(n, (k + 1) % n + n - 1);
    Wraps(n, (k + n - 1) % n + 1);
  }

  /** Down, `k` times. */
  ghost function Down(t: Tree, p: (nat, nat), k: nat): (q: (nat, nat))
    requires IsAt(t, p)
    ensures IsPosition(t.rows, q)
  {
    if k == 0 then p
    else
      var q := Down(t, p, k - 1);
      NextIsPlusOne(MovedTo(t, q), q);
      Next(MovedTo(t, q), q)
  }

  lemma {:induction false} DownIsPlus(t: Tree, p: (nat, nat), k: nat)
    requires IsAt(t, p) && k <= Total(t.rows)
    ensures 0 < Total(t.rows)
    ensures Rank(t.rows, Down(t, p, k)) == (Rank(t.rows, p) + k) % Total(t.rows)
  {
    hide Rank, Total, Next;
    RanksAreDistinct(t.rows, p, p);
    var n, a := Total(t.rows), Rank(t.rows, p);
    Wraps(n, a + k);
    if k > 0 {
      DownIsPlus(t, p, k - 1);
      var q := Down(t, p, k - 1);
      NextIsPlusOne(MovedTo(t, q), q);
      Wraps(n, a + (k - 1));
      Wraps(n, (a + (k - 1)) % n + 1);
    }
  }

  /**
   Going down again and again visits every position exactly once and then comes back: for every
   position there is exactly one count below the total that reaches it.
   */
  lemma DownVisitsEverything(t: Tree, p: (nat, nat), q: (nat, nat))
    requires IsAt(t, p) && IsPosition(t.rows, q)
    ensures exists k: nat :: k < Total(t.rows) && Down(t, p, k) == q
                             && forall l: nat :: l < Total(t.rows) && Down(t, p, l) == q ==> l == k
    ensures Down(t, p, Total(t.rows)) == p
  {
    hide Down, Rank, Total;
    var rows := t.rows;
    var n, a, b := Total(rows), Rank(rows, p), Rank(rows, q);
    RanksAreDistinct(rows, p, q);
    RanksAreDistinct(rows, q, p);
    forall l: nat | l <= n
      ensures Rank(rows, Down(t, p, l)) == (a + l) % n
    {
      DownIsPlus(t, p, l);
    }
    var k: nat := if a <= b then b - a else b + n - a;
    Wraps(n, a + k);
    RanksAreDistinct(rows, Down(t, p, k), q);
    forall l: nat | l < n && Down(t, p, l) == q
      ensures l == k
    {
      Wraps(n, a + l);
    }
    Wraps(n, a + n);
    RanksAreDistinct(rows, Down(t, p, n), p);
  }

  /** With nothing selected the first move goes to the first item of the first row without looking: it
      lands on a position exactly when that row is there and can be selected. */
  lemma FirstMoveIsBlind(t: Tree, action: SelectAction)
    requires t.row.None? && !action.Index?
    ensures Moved(t, action) == (0, 0)
    ensures IsPosition(t.rows, Moved(t, action)) <==> t.rows != [] && Selectable(t.rows[0])
  {
    if t.rows != [] {
      SelectableRowsHaveWidth(t.rows[0]);
    }
  }
}
