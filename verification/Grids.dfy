/** Cells of a board numbered row by row, and the links between land cells that touch. */
module Grids {
  import opened SpanningForests

  function Index(w: nat, r: int, c: int): int {
    r * w + c
  }

  /** The full rows before cell x, and what is left of x after them; cells are numbered from 0. */
  ghost function Row(w: nat, x: int): nat
    decreases x
  {
    if w == 0 || x < w then 0 else Row(w, x - w) + 1
  }

  ghost function Col(w: nat, x: int): int
    decreases x
  {
    if w == 0 || x < w then x else Col(w, x - w)
  }

  lemma {:induction false} CellOf(w: nat, r: int, c: int)
    requires 0 <= r && 0 <= c < w
    ensures Row(w, Index(w, r, c)) == r && Col(w, Index(w, r, c)) == c
    decreases r
  {
    if r > 0 {
      CellOf(w, r - 1, c);
      RowAfter(w, r, c);
    }
  }

  lemma RowAfter(w: nat, r: int, c: int)
    requires r > 0 && 0 <= c
    ensures Index(w, r, c) == Index(w, r - 1, c) + w && Index(w, r - 1, c) >= 0
  {
    assert r * w == (r - 1) * w + w;
  }

  lemma {:induction false} IndexOf(w: nat, x: int)
    requires w > 0 && x >= 0
    ensures Index(w, Row(w, x), Col(w, x)) == x && 0 <= Col(w, x) < w
    decreases x
  {
    if x >= w {
      IndexOf(w, x - w);
      RowAfter(w, Row(w, x), Col(w, x));
    }
  }

  lemma NextRowStarts(w: nat, r: int)
    ensures Index(w, r, w) == Index(w, r + 1, 0)
  {
  }

  lemma IndexInside(h: nat, w: nat, r: int, c: int)
    requires 0 <= r < h && 0 <= c < w
    ensures 0 <= Index(w, r, c) < Index(w, h, 0)
  {
    assert r * w <= (h - 1) * w;
    assert (h - 1) * w == h * w - w;
  }

  lemma CellInside(h: nat, w: nat, x: int)
    requires 0 <= x < Index(w, h, 0)
    ensures w > 0 && 0 <= Row(w, x) < h && 0 <= Col(w, x) < w
  {
    assert w > 0;
    IndexOf(w, x);
    var r := Row(w, x);
    assert r >= h ==> r * w >= h * w;
    assert r <= -1 ==> r * w <= -1 * w;
  }

  ghost predicate Touch(r: int, c: int, r': int, c': int) {
    (r == r' && (c' == c + 1 || c == c' + 1)) || (c == c' && (r' == r + 1 || r == r' + 1))
  }

  ghost predicate Adjacent(w: nat, x: int, y: int) {
    Touch(Row(w, x), Col(w, x), Row(w, y), Col(w, y))
  }

  ghost function Link(x: int, y: int): Edge {
    Edge(0, 0, x, y)
  }

  /** A link for every two land cells that touch. */
  ghost function Links(w: nat, V: set<int>): set<Edge> {
    set x, y | x in V && y in V && Adjacent(w, x, y) :: Link(x, y)
  }

  lemma LinksMonotone(w: nat, V: set<int>, W: set<int>)
    requires V <= W
    ensures Links(w, V) <= Links(w, W)
  {
  }

  /** A cell of an h by w board that touches (i, j) is one of four. */
  lemma FourCells(h: nat, w: nat, i: int, j: int, z: int)
    requires 0 <= i < h && 0 <= j < w && 0 <= z < Index(w, h, 0)
    requires Adjacent(w, Index(w, i, j), z) || Adjacent(w, z, Index(w, i, j))
    ensures || (i > 0 && z == Index(w, i - 1, j)) || (i + 1 < h && z == Index(w, i + 1, j))
            || (j > 0 && z == Index(w, i, j - 1)) || (j + 1 < w && z == Index(w, i, j + 1))
  {
    CellOf(w, i, j);
    CellInside(h, w, z);
    IndexOf(w, z);
  }
}
