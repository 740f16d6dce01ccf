/**
  The hospital: a `width x height` grid of beds anchored at (400, -200).
  Bed `k` sits in column `k mod width` and row `k div width`; the number of
  beds is the isolation capacity of the population.
*/
module Hospitals {

  datatype Bed = Bed(x: int, y: int)

  datatype Hospital = Hospital(width: nat, height: nat)
  {
    /** `self.count`: the number of beds. */
    function Count(): nat
    {
      width * height
    }

    /** `self.beds`: x cycles over the columns, y steps once every `width` beds. */
    function Beds(): (beds: seq<Bed>)
      ensures |beds| == Count()
    {
      var xs := Tile(Arange(400, width), height);
      var ys := Repeat(Arange(-200, height), width);
      seq(width * height, k requires 0 <= k < width * height => Bed(xs[k], ys[k]))
    }
  }

  /** `np.arange(lo, lo + n)`. */
  function Arange(lo: int, n: nat): (r: seq<int>)
    ensures |r| == n
    ensures forall k :: 0 <= k < n ==> r[k] == lo + k
  {
    seq(n, k requires 0 <= k < n => lo + k)
  }

  /** `np.tile(s, reps)`: `reps` copies of `s` one after the other. */
  function Tile(s: seq<int>, reps: nat): (r: seq<int>)
    ensures |r| == |s| * reps
  {
    if reps == 0 then [] else s + Tile(s, reps - 1)
  }

  /** `np.repeat(s, reps)`: each element of `s` `reps` times in a row. */
  function Repeat(s: seq<int>, reps: nat): (r: seq<int>)
    ensures |r| == |s| * reps
  {
    if s == [] then [] else seq(reps, _ => s[0]) + Repeat(s[1..], reps)
  }

  /** Row `row` of a tiling is a copy of `s`. */
  lemma {:induction false} TileAt(s: seq<int>, reps: nat, row: nat, col: nat)
    requires row < reps && col < |s|
    ensures row * |s| + col < |Tile(s, reps)|
    ensures Tile(s, reps)[row * |s| + col] == s[col]
  {
    if row > 0 {
      TileAt(s, reps - 1, row - 1, col);
      assert row * |s| + col == |s| + ((row - 1) * |s| + col);
    }
  }

  /** Block `row` of a repetition holds `reps` copies of `s[row]`. */
  lemma {:induction false} RepeatAt(s: seq<int>, reps: nat, row: nat, col: nat)
    requires row < |s| && col < reps
    ensures row * reps + col < |Repeat(s, reps)|
    ensures Repeat(s, reps)[row * reps + col] == s[row]
  {
    if row > 0 {
      RepeatAt(s[1..], reps, row - 1, col);
      assert row * reps + col == reps + ((row - 1) * reps + col);
    }
  }

  /** The bed in row `row` and column `col` is at (400 + col, -200 + row). */
  lemma BedInGrid(h: Hospital, row: nat, col: nat)
    requires row < h.height && col < h.width
    ensures row * h.width + col < h.Count()
    ensures h.Beds()[row * h.width + col] == Bed(400 + col, -200 + row)
  {
    TileAt(Arange(400, h.width), h.height, row, col);
    RepeatAt(Arange(-200, h.height), h.width, row, col);
  }

  /** Bed `k` is at (400 + k mod width, -200 + k div width), for every bed. */
  lemma BedAt(h: Hospital, k: nat)
    requires k < h.Count()
    ensures h.width > 0
    ensures h.Beds()[k] == Bed(400 + k % h.width, -200 + k / h.width)
  {
    var w := h.width;
    var row, col := k / w, k % w;
    assert k == row * w + col;
    assert row < h.height;
    BedInGrid(h, row, col);
  }
}
