/** Counting islands by sinking each one as it is found. */
module Islands {
  import opened SpanningForests
  import opened Components
  import opened Grids

  // ----- what a flood leaves

  /** From land L, everything connected to x went under; what stays touches nothing that went. */
  ghost predicate Flooded(w: nat, L: set<int>, L': set<int>, x: int) {
    && L' <= L && x !in L' && (x !in L ==> L' == L)
    && (forall y :: y in L - L' ==> Connected(Links(w, L), y, x))
    && (forall y, z :: y in L - L' && z in L' ==> !Adjacent(w, y, z))
  }

  /** The same while only some of x's neighbours have been visited. */
  ghost predicate Flooding(w: nat, L: set<int>, L': set<int>, x: int) {
    && L' <= L && x in L && x !in L'
    && (forall y :: y in L - L' ==> Connected(Links(w, L), y, x))
    && (forall y, z :: y in L - L' && z in L' && y != x ==> !Adjacent(w, y, z))
  }

  lemma FloodStarts(w: nat, L: set<int>, x: int)
    requires x in L
    ensures Flooding(w, L, L - {x}, x)
  {
    Reflexive(Links(w, L), x);
  }

  lemma NeighbourConnects(w: nat, L: set<int>, L': set<int>, L'': set<int>, x: int, n: int, y: int)
    requires Flooding(w, L, L', x) && Flooded(w, L', L'', n) && Adjacent(w, n, x) && y in L' - L''
    ensures Connected(Links(w, L), y, x)
  {
    assert n in L' && Connected(Links(w, L'), y, n);
    LinksMonotone(w, L', L);
    Monotone(Links(w, L'), Links(w, L), y, n);
    assert Link(n, x) in Links(w, L);
    EdgeConnects(Links(w, L), Link(n, x));
    Transitive(Links(w, L), y, n, x);
  }

  lemma FloodNext(w: nat, L: set<int>, L': set<int>, L'': set<int>, x: int, n: int)
    requires Flooding(w, L, L', x) && Flooded(w, L', L'', n) && Adjacent(w, n, x)
    ensures Flooding(w, L, L'', x) && n !in L''
  {
    forall y | y in L - L'' ensures Connected(Links(w, L), y, x) {
      if y in L' {
        NeighbourConnects(w, L, L', L'', x, n, y);
      }
    }
    hide Adjacent, Links, Connected;
    forall y, z | y in L - L'' && z in L'' && y != x ensures !Adjacent(w, y, z) {
      assert z in L';
    }
  }

  lemma FloodDone(w: nat, L: set<int>, L': set<int>, x: int)
    requires Flooding(w, L, L', x) && forall z :: z in L' ==> !Adjacent(w, x, z)
    ensures Flooded(w, L, L', x)
  {
  }

  // ----- what the scan has counted

  /** R represents the islands sunk so far; none of them touches the land that is left. */
  ghost predicate Counted(w: nat, V: set<int>, L: set<int>, R: set<int>) {
    && L <= V && Represents(V - L, Links(w, V), R)
    && forall y, z :: y in V - L && z in L ==> !Adjacent(w, y, z)
  }

  lemma {:induction false} StaysSunk(w: nat, V: set<int>, L: set<int>, x: int, p: seq<Edge>, y: int)
    requires (forall y, z :: y in V - L && z in L ==> !Adjacent(w, y, z)) && L <= V
    requires Walk(Links(w, V), x, p, y) && x in V
    ensures x in L <==> y in L
    decreases |p|
  {
    if p != [] {
      if p[0].from == x && Walk(Links(w, V), p[0].to, p[1..], y) {
        SameSide(w, V, L, p[0]);
        StaysSunk(w, V, L, p[0].to, p[1..], y);
      } else {
        SameSide(w, V, L, p[0]);
        StaysSunk(w, V, L, p[0].from, p[1..], y);
      }
    }
  }

  lemma SameSide(w: nat, V: set<int>, L: set<int>, e: Edge)
    requires (forall y, z :: y in V - L && z in L ==> !Adjacent(w, y, z)) && L <= V && e in Links(w, V)
    ensures e.from in V && e.to in V && (e.from in L <==> e.to in L)
  {
    assert Adjacent(w, e.from, e.to) && Adjacent(w, e.to, e.from);
  }

  lemma NotOnCounted(w: nat, V: set<int>, L: set<int>, R: set<int>, x: int, r: int)
    requires Counted(w, V, L, R) && x in L && r in R
    ensures !Connected(Links(w, V), x, r) && !Connected(Links(w, V), r, x)
  {
    if Connected(Links(w, V), x, r) {
      var p :| Walk(Links(w, V), x, p, r);
      StaysSunk(w, V, L, x, p, r);
    }
    if Connected(Links(w, V), r, x) {
      var p :| Walk(Links(w, V), r, p, x);
      StaysSunk(w, V, L, r, p, x);
    }
  }

  lemma NewlySunk(w: nat, V: set<int>, L: set<int>, L': set<int>, R: set<int>, x: int, y: int)
    requires Counted(w, V, L, R) && Flooded(w, L, L', x) && y in V - L'
    ensures Reaches(Links(w, V), R + {x}, y)
  {
    if y in L {
      LinksMonotone(w, L, V);
      Monotone(Links(w, L), Links(w, V), y, x);
      assert x in R + {x};
    } else {
      assert Reaches(Links(w, V), R, y);
      var r :| r in R && Connected(Links(w, V), y, r);
      assert r in R + {x};
    }
  }

  /** A new island: one more representative. */
  lemma CountNext(w: nat, V: set<int>, L: set<int>, L': set<int>, R: set<int>, x: int)
    requires Counted(w, V, L, R) && Flooded(w, L, L', x) && x in L
    ensures Counted(w, V, L', R + {x}) && x !in R
  {
    forall y | y in V - L' ensures Reaches(Links(w, V), R + {x}, y) {
      NewlySunk(w, V, L, L', R, x, y);
    }
    forall r | r in R ensures !Connected(Links(w, V), x, r) && !Connected(Links(w, V), r, x) {
      NotOnCounted(w, V, L, R, x, r);
    }
    hide Links, Connected, Adjacent, Reaches;
    NothingTouches(w, V, L, L', R, x);
  }

  lemma NothingTouches(w: nat, V: set<int>, L: set<int>, L': set<int>, R: set<int>, x: int)
    requires Counted(w, V, L, R) && Flooded(w, L, L', x)
    ensures forall y, z :: y in V - L' && z in L' ==> !Adjacent(w, y, z)
  {
    hide Represents, Links, Connected, Adjacent;
    forall y, z | y in V - L' && z in L' ensures !Adjacent(w, y, z) {
      if y in L {
        assert y in L - L';
      } else {
        assert z in L;
      }
    }
  }

  // ----- the board

  ghost function Land(board: array2<char>): set<int>
    reads board
  {
    set x | 0 <= x < Index(board.Length1, board.Length0, 0) && IsLand(board, x) :: x
  }

  ghost predicate IsLand(board: array2<char>, x: int)
    reads board
  {
    var r, c := Row(board.Length1, x), Col(board.Length1, x);
    0 <= r < board.Length0 && 0 <= c < board.Length1 && board[r, c] == '1'
  }

  lemma LandAt(board: array2<char>, r: int, c: int)
    requires 0 <= r < board.Length0 && 0 <= c < board.Length1
    ensures Index(board.Length1, r, c) in Land(board) <==> board[r, c] == '1'
  {
    CellOf(board.Length1, r, c);
    IndexInside(board.Length0, board.Length1, r, c);
    hide Index;
    assert IsLand(board, Index(board.Length1, r, c)) <==> board[r, c] == '1';
  }

  /** A position on or just off the board. */
  ghost predicate Near(board: array2<char>, i: int, j: int) {
    -1 <= i <= board.Length0 && -1 <= j <= board.Length1
  }

  ghost predicate OnBoard(board: array2<char>, i: int, j: int) {
    0 <= i < board.Length0 && 0 <= j < board.Length1
  }

  /** What infect does to the land, whether or not (i, j) is on the board. */
  ghost predicate Infected(board: array2<char>, L: set<int>, L': set<int>, i: int, j: int) {
    if OnBoard(board, i, j) then Flooded(board.Length1, L, L', Index(board.Length1, i, j)) else L' == L
  }

  /** What every cell shows, by its number. */
  ghost function Cells(board: array2<char>): seq<char>
    reads board
  {
    seq(CellCount(board), x requires 0 <= x < CellCount(board) reads board => CellAt(board, x))
  }

  ghost function CellCount(board: array2<char>): nat {
    IndexNat(board.Length0, board.Length1);
    Index(board.Length1, board.Length0, 0)
  }

  lemma IndexNat(h: nat, w: nat)
    ensures Index(w, h, 0) >= 0
  {
  }

  ghost function CellAt(board: array2<char>, x: int): char
    requires 0 <= x < CellCount(board)
    reads board
  {
    CellInside(board.Length0, board.Length1, x);
    board[Row(board.Length1, x), Col(board.Length1, x)]
  }

  /** Cells that change were land and become water. */
  ghost predicate OnlySinks(was: seq<char>, now: seq<char>) {
    |now| == |was| && forall x :: 0 <= x < |was| ==> now[x] == was[x] || (was[x] == '1' && now[x] == '0')
  }

  lemma SinksThenSinks(s: seq<char>, t: seq<char>, u: seq<char>)
    requires OnlySinks(s, t) && OnlySinks(t, u)
    ensures OnlySinks(s, u)
  {
  }

  lemma NothingSinks(s: seq<char>)
    ensures OnlySinks(s, s)
  {
  }

  method Sink(board: array2<char>, i: int, j: int)
    requires OnBoard(board, i, j) && board[i, j] == '1'
    modifies board
    ensures Land(board) == old(Land(board)) - {Index(board.Length1, i, j)}
    ensures OnlySinks(old(Cells(board)), Cells(board))
  {
    var w, x := board.Length1, Index(board.Length1, i, j);
    board[i, j] := '0';
    CellOf(w, i, j);
    forall y | 0 <= y < Index(w, board.Length0, 0) ensures IsLand(board, y) <==> old(IsLand(board, y)) && y != x {
      CellInside(board.Length0, w, y);
      IndexOf(w, y);
    }
    hide Index, Land;
  }

  lemma InfectNext(board: array2<char>, L: set<int>, L': set<int>, L'': set<int>, i: int, j: int, r: int, c: int)
    requires OnBoard(board, i, j) && Touch(r, c, i, j)
    requires Flooding(board.Length1, L, L', Index(board.Length1, i, j)) && Infected(board, L', L'', r, c)
    ensures Flooding(board.Length1, L, L'', Index(board.Length1, i, j)) && L'' <= L'
    ensures OnBoard(board, r, c) ==> Index(board.Length1, r, c) !in L''
  {
    if OnBoard(board, r, c) {
      CellOf(board.Length1, i, j);
      CellOf(board.Length1, r, c);
      FloodNext(board.Length1, L, L', L'', Index(board.Length1, i, j), Index(board.Length1, r, c));
    }
  }

  /** Sinks the island at (i, j): marks the cell, then visits its four neighbours. */
  method Infect(board: array2<char>, i: int, j: int)
    requires Near(board, i, j)
    modifies board
    ensures Infected(board, old(Land(board)), Land(board), i, j)
    ensures OnlySinks(old(Cells(board)), Cells(board))
    decreases |Land(board)|
  {
    ghost var cells := Cells(board);
    NothingSinks(cells);
    if i < 0 || i == board.Length0 || j < 0 || j == board.Length1 {
      return;
    }
    LandAt(board, i, j);
    if board[i, j] != '1' {
      return;
    }
    ghost var w, x, L := board.Length1, Index(board.Length1, i, j), Land(board);
    hide Flooded, Flooding, Land, Adjacent, Index, Infected, Cells, OnlySinks;
    Sink(board, i, j);
    ghost var cells1 := Cells(board);
    FloodStarts(w, L, x);
    Smaller(L, L - {x}, x);
    ghost var L1 := Land(board);
    Infect(board, i - 1, j);
    ghost var L2, cells2 := Land(board), Cells(board);
    SinksThenSinks(cells, cells1, cells2);
    InfectNext(board, L, L1, L2, i, j, i - 1, j);
    Smaller(L, L2, x);
    Infect(board, i + 1, j);
    ghost var L3, cells3 := Land(board), Cells(board);
    SinksThenSinks(cells, cells2, cells3);
    InfectNext(board, L, L2, L3, i, j, i + 1, j);
    Smaller(L, L3, x);
    Infect(board, i, j - 1);
    ghost var L4, cells4 := Land(board), Cells(board);
    SinksThenSinks(cells, cells3, cells4);
    InfectNext(board, L, L3, L4, i, j, i, j - 1);
    Smaller(L, L4, x);
    Infect(board, i, j + 1);
    SinksThenSinks(cells, cells4, Cells(board));
    InfectNext(board, L, L4, Land(board), i, j, i, j + 1);
    InfectDone(board, L, i, j);
  }

  lemma Smaller(L: set<int>, L': set<int>, x: int)
    requires L' <= L && x in L && x !in L'
    ensures |L'| < |L|
  {
    assert L' <= L - {x};
    Fits(L', L - {x});
  }

  lemma Fits(A: set<int>, B: set<int>)
    requires A <= B
    ensures |A| <= |B|
  {
    assert B == A + (B - A);
  }

  lemma LandInside(board: array2<char>, z: int)
    requires z in Land(board)
    ensures 0 <= z < Index(board.Length1, board.Length0, 0)
  {
  }

  lemma InfectDone(board: array2<char>, L: set<int>, i: int, j: int)
    requires OnBoard(board, i, j)
    requires Flooding(board.Length1, L, Land(board), Index(board.Length1, i, j))
    requires i > 0 ==> Index(board.Length1, i - 1, j) !in Land(board)
    requires i + 1 < board.Length0 ==> Index(board.Length1, i + 1, j) !in Land(board)
    requires j > 0 ==> Index(board.Length1, i, j - 1) !in Land(board)
    requires j + 1 < board.Length1 ==> Index(board.Length1, i, j + 1) !in Land(board)
    ensures Infected(board, L, Land(board), i, j)
  {
    var x := Index(board.Length1, i, j);
    hide Flooding, Flooded, Land, Index, Adjacent;
    forall z | z in Land(board) ensures !Adjacent(board.Length1, x, z) {
      if Adjacent(board.Length1, x, z) {
        LandInside(board, z);
        FourCells(board.Length0, board.Length1, i, j, z);
      }
    }
    FloodDone(board.Length1, L, Land(board), x);
  }

  lemma NothingCounted(w: nat, V: set<int>)
    ensures Counted(w, V, V, {})
  {
  }

  lemma AllCounted(w: nat, V: set<int>, R: set<int>)
    requires Counted(w, V, {}, R)
    ensures HasComponents(V, Links(w, V), |R|)
  {
    assert V - {} == V;
  }

  /** The scan has reached cell x: land remains from there on only. */
  ghost predicate From(L: set<int>, x: int) {
    forall y :: y in L ==> x <= y
  }

  lemma FromNext(L: set<int>, w: nat, i: int, j: int)
    requires From(L, Index(w, i, j)) && Index(w, i, j) !in L
    ensures From(L, Index(w, i, j + 1))
  {
  }

  lemma LandBounds(board: array2<char>)
    ensures From(Land(board), 0)
    ensures From(Land(board), Index(board.Length1, board.Length0, 0)) ==> Land(board) == {}
  {
  }

  /** One step of the scan. */
  method Visit(board: array2<char>, i: int, j: int, ghost V: set<int>, ghost R: set<int>)
      returns (found: bool, ghost R': set<int>)
    requires OnBoard(board, i, j) && Counted(board.Length1, V, Land(board), R)
    requires From(Land(board), Index(board.Length1, i, j))
    modifies board
    ensures Counted(board.Length1, V, Land(board), R') && |R'| == |R| + if found then 1 else 0
    ensures From(Land(board), Index(board.Length1, i, j + 1))
    ensures OnlySinks(old(Cells(board)), Cells(board))
  {
    NothingSinks(Cells(board));
    hide Counted, Flooded, Land, Index, Cells, OnlySinks;
    R' := R;
    found := board[i, j] == '1';
    LandAt(board, i, j);
    if found {
      ghost var x := Index(board.Length1, i, j);
      R' := R + {x};
      ghost var L := Land(board);
      Infect(board, i, j);
      CountNext(board.Length1, V, L, Land(board), R, x);
      FloodShrinks(board.Length1, L, Land(board), x);
    }
    FromNext(Land(board), board.Length1, i, j);
  }

  lemma FloodShrinks(w: nat, L: set<int>, L': set<int>, x: int)
    requires Flooded(w, L, L', x)
    ensures L' <= L && x !in L'
  {
  }

  method NumIslands(board: array2<char>) returns (isLands: nat)
    modifies board
    ensures HasComponents(old(Land(board)), Links(board.Length1, old(Land(board))), isLands)
    ensures Land(board) == {} && OnlySinks(old(Cells(board)), Cells(board))
  {
    ghost var V, R, w: nat, cells := Land(board), {}, board.Length1, Cells(board);
    NothingSinks(cells);
    isLands := 0;
    NothingCounted(w, V);
    LandBounds(board);
    assert Index(w, 0, 0) == 0;
    hide Counted, Land, Index, From, Cells, OnlySinks;
    for i := 0 to board.Length0
      invariant Counted(w, V, Land(board), R) && |R| == isLands && From(Land(board), Index(w, i, 0))
      invariant OnlySinks(cells, Cells(board))
    {
      for j := 0 to board.Length1
        invariant Counted(w, V, Land(board), R) && |R| == isLands && From(Land(board), Index(w, i, j))
        invariant OnlySinks(cells, Cells(board))
      {
        var found;
        ghost var before := Cells(board);
        found, R := Visit(board, i, j, V, R);
        SinksThenSinks(cells, before, Cells(board));
        if found {
          isLands := isLands + 1;
        }
      }
      NextRowStarts(w, i);
    }
    LandBounds(board);
    AllCounted(w, V, R);
  }
}
