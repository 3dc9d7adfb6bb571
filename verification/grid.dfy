/** The puzzle state: an N×N board stored as N rows of N tiles, 0 being the
    blank. Cell (x, y) is column x of row y, i.e. `data[y][x]`. */
module Grid {
  import opened Seqs

  datatype Puzzle = Puzzle(size: nat, data: seq<seq<nat>>)

  /** `size` rows of `size` tiles each. */
  predicate WellFormed(p: Puzzle)
  {
    |p.data| == p.size && forall y :: 0 <= y < |p.data| ==> |p.data[y]| == p.size
  }

  /** Two well-formed boards of the same side length. */
  predicate SameShape(p: Puzzle, q: Puzzle)
  {
    WellFormed(p) && WellFormed(q) && p.size == q.size
  }

  /** `get_value(x, y)`: the tile in column x of row y. */
  function Cell(p: Puzzle, x: nat, y: nat): nat
    requires WellFormed(p) && x < p.size && y < p.size
  {
    p.data[y][x]
  }

  /** Some cell of the board holds `v`. */
  predicate Holds(p: Puzzle, v: nat)
    requires WellFormed(p)
  {
    exists x: nat, y: nat :: x < p.size && y < p.size && Cell(p, x, y) == v
  }

  /** No tile occurs in two cells. */
  predicate Distinct(p: Puzzle)
    requires WellFormed(p)
  {
    forall x: nat, y: nat, x': nat, y': nat ::
      x < p.size && y < p.size && x' < p.size && y' < p.size && Cell(p, x, y) == Cell(p, x', y')
      ==> x == x' && y == y'
  }

  /** Cell (x', y') comes strictly before cell (x, y) in row-major order. */
  predicate Before(x': nat, y': nat, x: nat, y: nat)
  {
    y' < y || (y' == y && x' < x)
  }

  /** The row-major scan `for y { for x { … } }` for `v`, resumed at cell
      (x, y); `x == size` stands for "continue with the next row". */
  function ScanFrom(p: Puzzle, v: nat, x: nat, y: nat): (r: Option<(nat, nat)>)
    requires WellFormed(p) && x <= p.size
    decreases p.size - y, p.size - x
    ensures r.Some? ==> r.value.0 < p.size && r.value.1 < p.size && Cell(p, r.value.0, r.value.1) == v
    ensures r.Some? ==> !Before(r.value.0, r.value.1, x, y)
    ensures r.Some? ==> forall x': nat, y': nat ::
              (x' < p.size && y' < p.size && !Before(x', y', x, y) && Before(x', y', r.value.0, r.value.1))
              ==> Cell(p, x', y') != v
    ensures r.None? ==> forall x': nat, y': nat ::
              (x' < p.size && y' < p.size && !Before(x', y', x, y)) ==> Cell(p, x', y') != v
  {
    if y >= p.size then None
    else if x == p.size then ScanFrom(p, v, 0, y + 1)
    else if Cell(p, x, y) == v then Some((x, y))
    else ScanFrom(p, v, x + 1, y)
  }

  /** The scan from the top-left cell finds `v` exactly when the board holds it. */
  lemma ScanFindsHeld(p: Puzzle, v: nat)
    requires WellFormed(p)
    ensures ScanFrom(p, v, 0, 0).Some? <==> Holds(p, v)
  {
    if Holds(p, v) {
      var x: nat, y: nat :| x < p.size && y < p.size && Cell(p, x, y) == v;
      assert !Before(x, y, 0, 0);
    }
  }

  /** `get_position(v)`: the first cell, in row-major order, holding `v`. */
  function GetPosition(p: Puzzle, v: nat): (pos: (nat, nat))
    requires WellFormed(p) && Holds(p, v)
    ensures pos.0 < p.size && pos.1 < p.size && Cell(p, pos.0, pos.1) == v
    ensures forall x: nat, y: nat :: x < p.size && y < p.size && Before(x, y, pos.0, pos.1) ==> Cell(p, x, y) != v
  {
    ScanFindsHeld(p, v);
    ScanFrom(p, v, 0, 0).value
  }

  /** On a board without repeated tiles, the cell holding `v` is the only one. */
  lemma GetPositionUnique(p: Puzzle, v: nat, x: nat, y: nat)
    requires WellFormed(p) && Distinct(p) && x < p.size && y < p.size && Cell(p, x, y) == v
    ensures GetPosition(p, v) == (x, y)
  {
    var pos := GetPosition(p, v);
    assert Cell(p, pos.0, pos.1) == Cell(p, x, y);
  }

  /** `set_value(x, y, v)`: the board with cell (x, y) replaced by `v`. */
  function SetValue(p: Puzzle, x: nat, y: nat, v: nat): (r: Puzzle)
    requires WellFormed(p) && x < p.size && y < p.size
    ensures SameShape(p, r)
    ensures Cell(r, x, y) == v
    ensures forall x': nat, y': nat :: x' < p.size && y' < p.size && (x' != x || y' != y) ==>
              Cell(r, x', y') == Cell(p, x', y')
  {
    var row: seq<nat> := p.data[y][x := v];
    Puzzle(p.size, p.data[y := row])
  }

  /** Two boards of the same shape that agree on every cell are the same board. */
  lemma SameCells(p: Puzzle, q: Puzzle)
    requires SameShape(p, q)
    requires forall x: nat, y: nat :: x < p.size && y < p.size ==> Cell(p, x, y) == Cell(q, x, y)
    ensures p == q
  {
    forall y | 0 <= y < p.size
      ensures p.data[y] == q.data[y]
    {
      forall x | 0 <= x < p.size
        ensures p.data[y][x] == q.data[y][x]
      {
        assert Cell(p, x, y) == Cell(q, x, y);
      }
    }
  }

  /** The rows laid end to end, as `puzzle.iter().for_each(|line| … data.push(…))` does. */
  function Flatten(rows: seq<seq<nat>>): (r: seq<nat>)
  {
    if |rows| == 0 then [] else rows[0] + Flatten(rows[1..])
  }

  /** The multiset of tiles on the board. */
  function Tiles(p: Puzzle): multiset<nat>
  {
    multiset(Flatten(p.data))
  }

  /** Every value `0 .. size²-1` appears exactly once. */
  predicate IsPermutation(p: Puzzle)
  {
    WellFormed(p) && Tiles(p) == multiset(Range(p.size * p.size))
  }

  /** Flattening is compatible with concatenation of row lists. */
  lemma {:induction false} FlattenAppend(a: seq<seq<nat>>, b: seq<seq<nat>>)
    ensures Flatten(a + b) == Flatten(a) + Flatten(b)
  {
    if |a| == 0 {
      assert a + b == b;
    } else {
      assert (a + b)[1..] == a[1..] + b;
      FlattenAppend(a[1..], b);
    }
  }

  /** A value occurs in the flattened rows exactly when some row holds it. */
  lemma {:induction false} InFlattenIff(rows: seq<seq<nat>>, v: nat)
    ensures v in Flatten(rows) <==> exists y :: 0 <= y < |rows| && v in rows[y]
  {
    if |rows| > 0 {
      InFlattenIff(rows[1..], v);
      if exists y :: 0 <= y < |rows| && v in rows[y] {
        var y :| 0 <= y < |rows| && v in rows[y];
        if y > 0 {
          assert rows[1..][y - 1] == rows[y];
        }
      }
      if v in Flatten(rows[1..]) {
        var y :| 0 <= y < |rows[1..]| && v in rows[1..][y];
        assert rows[y + 1] == rows[1..][y];
      }
    }
  }

  /** A value is among the board's tiles exactly when some cell holds it. */
  lemma HoldsIff(p: Puzzle, v: nat)
    requires WellFormed(p)
    ensures v in Tiles(p) <==> Holds(p, v)
  {
    InFlattenIff(p.data, v);
    if v in Tiles(p) {
      var y :| 0 <= y < |p.data| && v in p.data[y];
      var x :| 0 <= x < |p.data[y]| && p.data[y][x] == v;
      assert Cell(p, x, y) == v;
    }
    if Holds(p, v) {
      var x: nat, y: nat :| x < p.size && y < p.size && Cell(p, x, y) == v;
      assert v in p.data[y];
    }
  }

  /** Replacing one row trades that row's tiles for the new row's. */
  lemma {:induction false} FlattenUpdate(rows: seq<seq<nat>>, y: nat, row: seq<nat>)
    requires y < |rows|
    ensures multiset(Flatten(rows[y := row])) + multiset(rows[y]) == multiset(Flatten(rows)) + multiset(row)
  {
    var rows' := rows[y := row];
    if y == 0 {
      assert rows'[1..] == rows[1..];
      assert Flatten(rows') == row + Flatten(rows[1..]);
      assert Flatten(rows) == rows[0] + Flatten(rows[1..]);
    } else {
      assert rows'[1..] == rows[1..][y - 1 := row];
      FlattenUpdate(rows[1..], y - 1, row);
      assert rows[1..][y - 1] == rows[y];
      var head, tail', tail := multiset(rows[0]), multiset(Flatten(rows'[1..])), multiset(Flatten(rows[1..]));
      assert tail' + multiset(rows[y]) == tail + multiset(row);
      assert multiset(Flatten(rows')) == head + tail' by {
        assert Flatten(rows') == rows[0] + Flatten(rows'[1..]);
      }
      assert multiset(Flatten(rows)) == head + tail by {
        assert Flatten(rows) == rows[0] + Flatten(rows[1..]);
      }
      calc {
        multiset(Flatten(rows')) + multiset(rows[y]);
        head + (tail' + multiset(rows[y]));
        head + (tail + multiset(row));
        multiset(Flatten(rows)) + multiset(row);
      }
    }
  }

  /** Overwriting one element of a sequence trades the old element for the new one. */
  lemma UpdateMultiset(s: seq<nat>, i: nat, v: nat)
    requires i < |s|
    ensures multiset(s[i := v]) + multiset{s[i]} == multiset(s) + multiset{v}
  {
    assert s == s[..i] + [s[i]] + s[i + 1..];
    assert s[i := v] == s[..i] + [v] + s[i + 1..];
  }

  /** `set_value` trades the old tile for the new one in the board's multiset. */
  lemma SetValueTiles(p: Puzzle, x: nat, y: nat, v: nat)
    requires WellFormed(p) && x < p.size && y < p.size
    ensures Tiles(SetValue(p, x, y, v)) + multiset{Cell(p, x, y)} == Tiles(p) + multiset{v}
  {
    var row := p.data[y];
    var row': seq<nat> := row[x := v];
    FlattenUpdate(p.data, y, row');
    UpdateMultiset(row, x, v);
    var before, after := Tiles(p), Tiles(SetValue(p, x, y, v));
    assert SetValue(p, x, y, v).data == p.data[y := row'];
    assert after + multiset(row) == before + multiset(row');
    forall t
      ensures (after + multiset{row[x]})[t] == (before + multiset{v})[t]
    {
      assert (after + multiset(row))[t] == (before + multiset(row'))[t];
      assert (multiset(row') + multiset{row[x]})[t] == (multiset(row) + multiset{v})[t];
    }
    assert after + multiset{row[x]} == before + multiset{v};
  }
}
