/**
 Counting islands and circles of friends with union-find: on a whole board through maps and
 through arrays, one added cell at a time, and over a friendship matrix.
*/
module UnionIslands {
  import opened DisjointSets
  import opened SpanningForests
  import opened Components
  import opened Grids
  import opened Islands
  import opened UnionArrays

  // ----- which links have been made

  ghost predicate Joined(F: set<Edge>, x: int, y: int) {
    Link(x, y) in F || Link(y, x) in F
  }

  ghost predicate Tied(V: set<int>, F: set<Edge>, x: int, y: int) {
    x in V && y in V ==> Joined(F, x, y)
  }

  /** Cell (r, c) is linked to the land on its left and above it. */
  ghost predicate CellTied(w: nat, V: set<int>, F: set<Edge>, r: int, c: int) {
    && (c >= 1 ==> Tied(V, F, Index(w, r, c), Index(w, r, c - 1)))
    && (r >= 1 ==> Tied(V, F, Index(w, r, c), Index(w, r - 1, c)))
  }

  ghost predicate RowTied(w: nat, V: set<int>, F: set<Edge>, r: int, n: int) {
    forall c :: 0 <= c < n ==> CellTied(w, V, F, r, c)
  }

  ghost predicate ColTied(w: nat, V: set<int>, F: set<Edge>, n: int) {
    forall r :: 0 <= r < n ==> CellTied(w, V, F, r, 0)
  }

  ghost predicate RowsTied(w: nat, V: set<int>, F: set<Edge>, n: int) {
    forall r :: 0 <= r < n ==> RowTied(w, V, F, r, w)
  }

  lemma CellTiedGrows(w: nat, V: set<int>, F: set<Edge>, F': set<Edge>, r: int, c: int)
    requires CellTied(w, V, F, r, c) && F <= F'
    ensures CellTied(w, V, F', r, c)
  {
  }

  lemma RowTiedGrows(w: nat, V: set<int>, F: set<Edge>, F': set<Edge>, r: int, n: int)
    requires RowTied(w, V, F, r, n) && F <= F'
    ensures RowTied(w, V, F', r, n)
  {
    hide CellTied;
    forall c | 0 <= c < n ensures CellTied(w, V, F', r, c) {
      CellTiedGrows(w, V, F, F', r, c);
    }
  }

  lemma AllGrow(w: nat, V: set<int>, F: set<Edge>, F': set<Edge>, n: int, m: int, r: int, c: int)
    requires RowsTied(w, V, F, n) && ColTied(w, V, F, m) && RowTied(w, V, F, r, c) && F <= F'
    ensures RowsTied(w, V, F', n) && ColTied(w, V, F', m) && RowTied(w, V, F', r, c)
  {
    hide CellTied, RowTied;
    forall r | 0 <= r < n ensures RowTied(w, V, F', r, w) {
      RowTiedGrows(w, V, F, F', r, w);
    }
    forall r | 0 <= r < m ensures CellTied(w, V, F', r, 0) {
      CellTiedGrows(w, V, F, F', r, 0);
    }
    RowTiedGrows(w, V, F, F', r, c);
  }

  /** Every link between cells of the board is one of those some cell was tied by. */
  lemma AllLinksJoined(board: array2<char>, F: set<Edge>, e: Edge)
    requires RowsTied(board.Length1, Land(board), F, board.Length0) && e in Links(board.Length1, Land(board))
    ensures Joined(F, e.from, e.to)
  {
    var w, h, V := board.Length1, board.Length0, Land(board);
    LandCell(board, e.from);
    LandCell(board, e.to);
    hide Index, Land;
    var r, c, r', c' := Row(w, e.from), Col(w, e.from), Row(w, e.to), Col(w, e.to);
    assert Touch(r, c, r', c');
    assert RowTied(w, V, F, r, w) && RowTied(w, V, F, r', w);
    assert CellTied(w, V, F, r, c) && CellTied(w, V, F, r', c');
  }

  lemma LandCell(board: array2<char>, x: int)
    requires x in Land(board)
    ensures var w := board.Length1;
            && w > 0 && 0 <= Row(w, x) < board.Length0 && 0 <= Col(w, x) < w && Index(w, Row(w, x), Col(w, x)) == x
  {
    CellInside(board.Length0, board.Length1, x);
    IndexOf(board.Length1, x);
  }

  lemma JoinedConnects(F: set<Edge>, x: int, y: int)
    requires Joined(F, x, y)
    ensures Connected(F, x, y)
  {
    EdgeConnects(F, if Link(x, y) in F then Link(x, y) else Link(y, x));
  }

  /** With every cell tied, the classes of the links made are the islands. */
  lemma TiedIsEnough(board: array2<char>, F: set<Edge>, n: int)
    requires RowsTied(board.Length1, Land(board), F, board.Length0) && F <= Links(board.Length1, Land(board))
    requires HasComponents(Land(board), F, n)
    ensures HasComponents(Land(board), Links(board.Length1, Land(board)), n)
  {
    var V, E := Land(board), Links(board.Length1, Land(board));
    hide RowsTied, HasComponents, Land, Links;
    forall e | e in E ensures Connected(F, e.from, e.to) {
      AllLinksJoined(board, F, e);
      JoinedConnects(F, e.from, e.to);
    }
    EnoughEdges(E, F);
    SameCount(V, E, F, n);
  }

  lemma LinkInside(w: nat, V: set<int>, F: set<Edge>, r: int, c: int, r': int, c': int)
    requires F <= Links(w, V) && Touch(r, c, r', c') && 0 <= r && 0 <= c < w && 0 <= r' && 0 <= c' < w
    requires Index(w, r, c) in V && Index(w, r', c') in V
    ensures F + {Link(Index(w, r, c), Index(w, r', c'))} <= Links(w, V)
  {
    CellOf(w, r, c);
    CellOf(w, r', c');
  }

  // ----- the whole board, in arrays

  /** The array union-find of land V after some of its links. */
  ghost predicate Linking(w: nat, V: set<int>, union: UnionArray)
    reads union, union.parent, union.sizes
  {
    union.Valid() && union.root.Keys == V && union.links <= Links(w, V)
  }

  /** The land numbered below n has been added, and no link made. */
  ghost predicate Adding(board: array2<char>, V: set<int>, n: int, union: UnionArray)
    reads union, union.parent, union.sizes
  {
    && union.Valid() && union.links == {} && union.parent.Length == Index(board.Length1, board.Length0, 0)
    && union.root.Keys == LandBelow(V, n)
  }

  ghost function LandBelow(V: set<int>, n: int): set<int> {
    set x | x in V && x < n
  }

  lemma AddingStarts(board: array2<char>, union: UnionArray)
    requires union.Valid() && union.links == {} && union.parent.Length == Index(board.Length1, board.Length0, 0)
    requires union.root == map[]
    ensures Adding(board, Land(board), Index(board.Length1, 0, 0), union)
  {
    assert LandBelow(Land(board), Index(board.Length1, 0, 0)) == {};
  }

  lemma AddingDone(board: array2<char>, union: UnionArray)
    requires Adding(board, Land(board), Index(board.Length1, board.Length0, 0), union)
    ensures Linking(board.Length1, Land(board), union) && union.links == {}
  {
    assert LandBelow(Land(board), Index(board.Length1, board.Length0, 0)) == Land(board);
  }

  lemma SkipWater(board: array2<char>, V: set<int>, i: int, j: int, union: UnionArray)
    requires Adding(board, V, Index(board.Length1, i, j), union) && Index(board.Length1, i, j) !in V
    ensures Adding(board, V, Index(board.Length1, i, j + 1), union)
  {
    assert LandBelow(V, Index(board.Length1, i, j + 1)) == LandBelow(V, Index(board.Length1, i, j));
  }

  method AddLand(board: array2<char>, ghost V: set<int>, i: int, j: int, union: UnionArray)
    requires Adding(board, V, Index(board.Length1, i, j), union) && Index(board.Length1, i, j) in V
        && OnBoard(board, i, j)
    modifies union, union.parent, union.sizes
    ensures Adding(board, V, Index(board.Length1, i, j + 1), union)
  {
    var x := Index(board.Length1, i, j);
    IndexInside(board.Length0, board.Length1, i, j);
    assert LandBelow(V, Index(board.Length1, i, j + 1)) == LandBelow(V, x) + {x};
    hide Ok, Stands, Roots, Index;
    union.Add(x);
  }

  lemma LengthNotNegative(w: nat, h: nat)
    ensures Index(w, h, 0) >= 0
  {
  }

  method UnionOfBoard(board: array2<char>) returns (union: UnionArray)
    ensures fresh(union) && fresh(union.parent) && fresh(union.sizes) && fresh(union.help)
    ensures Linking(board.Length1, Land(board), union) && union.links == {}
  {
    var col, row := board.Length1, board.Length0;
    LengthNotNegative(col, row);
    union := new UnionArray(Index(col, row, 0));
    ghost var V := Land(board);
    AddingStarts(board, union);
    hide *;
    for i := 0 to row
      invariant fresh(union) && fresh(union.parent) && fresh(union.sizes)
      invariant Adding(board, V, Index(col, i, 0), union)
    {
      for j := 0 to col
        invariant fresh(union) && fresh(union.parent) && fresh(union.sizes)
        invariant Adding(board, V, Index(col, i, j), union)
      {
        AddCell(board, V, i, j, union);
      }
      NextRowStarts(col, i);
    }
    AddingDone(board, union);
  }

  method AddCell(board: array2<char>, ghost V: set<int>, i: int, j: int, union: UnionArray)
    requires Adding(board, V, Index(board.Length1, i, j), union) && OnBoard(board, i, j) && V == Land(board)
    modifies union, union.parent, union.sizes
    ensures Adding(board, V, Index(board.Length1, i, j + 1), union)
  {
    hide Adding, Index, Land;
    LandAt(board, i, j);
    if board[i, j] == '1' {
      AddLand(board, V, i, j, union);
    } else {
      SkipWater(board, V, i, j, union);
    }
  }

  /** union(ra, ca, rb, cb), made where both cells are land. */
  method UnionIfLand(board: array2<char>, ghost V: set<int>, union: UnionArray, ra: int, ca: int, rb: int, cb: int)
    requires Linking(board.Length1, V, union) && V == Land(board)
    requires OnBoard(board, ra, ca) && OnBoard(board, rb, cb) && Touch(ra, ca, rb, cb)
    modifies union, union.parent, union.sizes, union.help
    ensures Linking(board.Length1, V, union) && old(union.links) <= union.links
    ensures Tied(V, union.links, Index(board.Length1, ra, ca), Index(board.Length1, rb, cb))
  {
    hide Land, Linking, Index, Tied;
    LandAt(board, ra, ca);
    LandAt(board, rb, cb);
    var w := board.Length1;
    if board[ra, ca] == '1' && board[rb, cb] == '1' {
      UnionCells(w, V, union, ra, ca, rb, cb);
    } else {
      WaterTied(V, union.links, Index(w, ra, ca), Index(w, rb, cb));
    }
  }

  lemma WaterTied(V: set<int>, F: set<Edge>, x: int, y: int)
    requires x !in V || y !in V
    ensures Tied(V, F, x, y)
  {
  }

  method UnionCells(w: nat, ghost V: set<int>, union: UnionArray, ra: int, ca: int, rb: int, cb: int)
    requires Linking(w, V, union) && 0 <= ra && 0 <= ca < w && 0 <= rb && 0 <= cb < w && Touch(ra, ca, rb, cb)
    requires Index(w, ra, ca) in V && Index(w, rb, cb) in V
    modifies union, union.parent, union.sizes, union.help
    ensures Linking(w, V, union) && old(union.links) <= union.links
    ensures Tied(V, union.links, Index(w, ra, ca), Index(w, rb, cb))
  {
    LinkInside(w, V, union.links, ra, ca, rb, cb);
    hide Index, Links, Ok, Stands, Roots, Touch;
    union.Union(Index(w, ra, ca), Index(w, rb, cb));
  }

  // ----- the three passes over the board

  lemma RowStart(w: nat, V: set<int>, F: set<Edge>)
    ensures RowTied(w, V, F, 0, 1) && ColTied(w, V, F, 1)
  {
  }

  lemma FirstRowStep(w: nat, V: set<int>, F: set<Edge>, F': set<Edge>, i: int)
    requires RowTied(w, V, F, 0, i) && F <= F' && Tied(V, F', Index(w, 0, i), Index(w, 0, i - 1))
    ensures RowTied(w, V, F', 0, i + 1)
  {
    RowTiedGrows(w, V, F, F', 0, i);
  }

  lemma FirstColStep(w: nat, V: set<int>, F: set<Edge>, F': set<Edge>, i: int, n: int)
    requires RowTied(w, V, F, 0, n) && ColTied(w, V, F, i) && F <= F'
    requires Tied(V, F', Index(w, i - 1, 0), Index(w, i, 0))
    ensures RowTied(w, V, F', 0, n) && ColTied(w, V, F', i + 1)
  {
    RowTiedGrows(w, V, F, F', 0, n);
    hide Index;
    forall r | 0 <= r < i + 1 ensures CellTied(w, V, F', r, 0) {
      if r < i {
        CellTiedGrows(w, V, F, F', r, 0);
      }
    }
  }

  /** What the main pass keeps: all rows above, the first column, and the current row up to j. */
  ghost predicate Passing(w: nat, V: set<int>, F: set<Edge>, h: int, i: int, j: int) {
    RowsTied(w, V, F, i) && ColTied(w, V, F, h) && RowTied(w, V, F, i, j)
  }

  lemma PassStarts(w: nat, V: set<int>, F: set<Edge>, h: int, m: int, n: int)
    requires RowTied(w, V, F, 0, m) && ColTied(w, V, F, n) && h <= n && w <= m
    ensures RowsTied(w, V, F, 1) && ColTied(w, V, F, h)
  {
  }

  lemma RowPassStarts(w: nat, V: set<int>, F: set<Edge>, h: int, i: int)
    requires RowsTied(w, V, F, i) && ColTied(w, V, F, h) && 0 <= i < h
    ensures Passing(w, V, F, h, i, 1)
  {
  }

  lemma CellPassed(w: nat, V: set<int>, F: set<Edge>, F': set<Edge>, F'': set<Edge>, h: int, i: int, j: int)
    requires Passing(w, V, F, h, i, j) && F <= F' <= F''
    requires Tied(V, F', Index(w, i, j), Index(w, i, j - 1)) && Tied(V, F'', Index(w, i, j), Index(w, i - 1, j))
    ensures Passing(w, V, F'', h, i, j + 1)
  {
    AllGrow(w, V, F, F'', i, h, i, j);
  }

  lemma RowPassed(w: nat, V: set<int>, F: set<Edge>, h: int, i: int, j: int)
    requires Passing(w, V, F, h, i, j) && w <= j
    ensures RowsTied(w, V, F, i + 1) && ColTied(w, V, F, h)
  {
    hide CellTied;
  }

  method TieCell(board: array2<char>, ghost V: set<int>, union: UnionArray, i: int, j: int)
    requires Linking(board.Length1, V, union) && V == Land(board)
    requires 1 <= i < board.Length0 && 1 <= j < board.Length1
    requires Passing(board.Length1, V, union.links, board.Length0, i, j)
    modifies union, union.parent, union.sizes, union.help
    ensures Linking(board.Length1, V, union) && Passing(board.Length1, V, union.links, board.Length0, i, j + 1)
  {
    hide Land, Linking, Index, Tied, Passing;
    ghost var F := union.links;
    UnionIfLand(board, V, union, i, j, i, j - 1);
    ghost var F' := union.links;
    UnionIfLand(board, V, union, i, j, i - 1, j);
    CellPassed(board.Length1, V, F, F', union.links, board.Length0, i, j);
  }

  method TieFirst(board: array2<char>, ghost V: set<int>, union: UnionArray)
    requires Linking(board.Length1, V, union) && V == Land(board) && board.Length0 >= 1
    requires board.Length1 >= 1 || board.Length0 == 1
    modifies union, union.parent, union.sizes, union.help
    ensures Linking(board.Length1, V, union)
    ensures RowsTied(board.Length1, V, union.links, 1) && ColTied(board.Length1, V, union.links, board.Length0)
  {
    var row, col := board.Length0, board.Length1;
    RowStart(col, V, union.links);
    var i := 1;
    hide Land, Linking, Index, Tied, RowTied, ColTied, RowsTied;
    while i < col
      invariant 1 <= i && (i <= col || i == 1) && Linking(col, V, union) && RowTied(col, V, union.links, 0, i)
    {
      ghost var F := union.links;
      UnionIfLand(board, V, union, 0, i, 0, i - 1);
      FirstRowStep(col, V, F, union.links, i);
      i := i + 1;
    }
    ghost var m := i;
    RowStart(col, V, union.links);
    i := 1;
    while i < row
      invariant 1 <= i <= row && Linking(col, V, union)
      invariant RowTied(col, V, union.links, 0, m) && ColTied(col, V, union.links, i)
    {
      ghost var F := union.links;
      UnionIfLand(board, V, union, i - 1, 0, i, 0);
      FirstColStep(col, V, F, union.links, i, m);
      i := i + 1;
    }
    PassStarts(col, V, union.links, row, m, i);
  }

  method NumIslands2(board: array2<char>) returns (size: int)
    requires board.Length0 >= 1 && (board.Length1 >= 1 || board.Length0 == 1)
    ensures HasComponents(Land(board), Links(board.Length1, Land(board)), size)
  {
    var row, col := board.Length0, board.Length1;
    hide *;
    var union := UnionOfBoard(board);
    ghost var V := Land(board);
    TieFirst(board, V, union);
    var i := 1;
    while i < row
      invariant 1 <= i <= row && Linking(col, V, union)
      invariant RowsTied(col, V, union.links, i) && ColTied(col, V, union.links, row)
      invariant fresh(union) && fresh(union.parent) && fresh(union.sizes) && fresh(union.help)
    {
      var j := 1;
      RowPassStarts(col, V, union.links, row, i);
      while j < col
        invariant 1 <= j && Linking(col, V, union) && Passing(col, V, union.links, row, i, j)
        invariant fresh(union) && fresh(union.parent) && fresh(union.sizes) && fresh(union.help)
      {
        TieCell(board, V, union, i, j);
        j := j + 1;
      }
      RowPassed(col, V, union.links, row, i, j);
      i := i + 1;
    }
    LinkingDone(board, union, V);
    size := union.size;
  }

  lemma LinkingDone(board: array2<char>, union: UnionArray, V: set<int>)
    requires Linking(board.Length1, V, union) && V == Land(board)
        && RowsTied(board.Length1, V, union.links, board.Length0)
    ensures HasComponents(V, Links(board.Length1, V), union.size)
  {
    union.SizeCounts();
    TiedIsEnough(board, union.links, union.size);
  }

  // ----- the whole board, in maps; a land cell's dot is known by the cell's number

  /** The map union-find of land V after links F. */
  ghost predicate LinkingDots(w: nat, V: set<int>, union: UnionSet<int>, F: set<Edge>)
    reads union
  {
    union.Valid() && union.root.Keys == V && Stands(union.root, F) && F <= Links(w, V)
  }

  lemma DotsStart(w: nat, V: set<int>, union: UnionSet<int>)
    requires union.Valid() && union.root == map x | x in V :: x
    ensures LinkingDots(w, V, union, {})
  {
    forall u, v | u in union.root && v in union.root ensures Same(union.root, u, v) <==> Connected({}, u, v) {
      Reflexive({}, u);
    }
  }

  /** The representatives are the keys of the size map, so its size counts the components. */
  lemma DotsCount(w: nat, V: set<int>, union: UnionSet<int>, F: set<Edge>)
    requires LinkingDots(w, V, union, F)
    ensures HasComponents(V, F, |union.sizes|)
  {
    SizeKeys(union.sizes, union.root, union.rank);
    hide ForestOk, SizesOk, Roots;
    RootsAreComponents(union.root, F);
  }

  lemma SizeKeys(sizes: map<int, int>, root: map<int, int>, rank: map<int, nat>)
    requires SizesOk(sizes, root, rank)
    ensures sizes.Keys == Roots(root) && |sizes| == |Roots(root)|
  {
    forall r ensures r in sizes <==> r in Roots(root) {
      assert SizeOk(sizes, root, rank, r);
    }
  }

  method UnionDots(w: nat, ghost V: set<int>, union: UnionSet<int>, ghost F: set<Edge>, ra: int, ca: int, rb: int,
                   cb: int)
      returns (ghost F': set<Edge>)
    requires LinkingDots(w, V, union, F) && 0 <= ra && 0 <= ca < w && 0 <= rb && 0 <= cb < w && Touch(ra, ca, rb, cb)
    requires Index(w, ra, ca) in V && Index(w, rb, cb) in V
    modifies union
    ensures LinkingDots(w, V, union, F') && F <= F' && Tied(V, F', Index(w, ra, ca), Index(w, rb, cb))
  {
    var a, b := Index(w, ra, ca), Index(w, rb, cb);
    LinkInside(w, V, F, ra, ca, rb, cb);
    DotPresent(union, a);
    DotPresent(union, b);
    hide Index, Links, Stands, ForestOk, SizesOk, Touch;
    F' := F + {Link(a, b)};
    ghost var before := union.root;
    ghost var drop, keep := union.Union(a, b);
    StandsUnion(before, F, a, b, drop, keep);
    assert union.root.Keys == before.Keys;
  }

  lemma DotPresent(union: UnionSet<int>, x: int)
    requires union.Valid() && x in union.root
    ensures x in union.father
  {
  }

  method DotsIfLand(board: array2<char>, ghost V: set<int>, union: UnionSet<int>, ghost F: set<Edge>,
                    ra: int, ca: int, rb: int, cb: int) returns (ghost F': set<Edge>)
    requires LinkingDots(board.Length1, V, union, F) && V == Land(board)
    requires OnBoard(board, ra, ca) && OnBoard(board, rb, cb) && Touch(ra, ca, rb, cb)
    modifies union
    ensures LinkingDots(board.Length1, V, union, F') && F <= F'
    ensures Tied(V, F', Index(board.Length1, ra, ca), Index(board.Length1, rb, cb))
  {
    hide Land, LinkingDots, Index, Tied;
    LandAt(board, ra, ca);
    LandAt(board, rb, cb);
    var w := board.Length1;
    F' := F;
    if board[ra, ca] == '1' && board[rb, cb] == '1' {
      F' := UnionDots(w, V, union, F, ra, ca, rb, cb);
    } else {
      WaterTied(V, F, Index(w, ra, ca), Index(w, rb, cb));
    }
  }

  /** The list of dots: one for every land cell. */
  method Dots(board: array2<char>) returns (dots: set<int>)
    ensures dots == Land(board)
  {
    var row, col := board.Length0, board.Length1;
    dots := {};
    ghost var V := Land(board);
    NoneBelow(board);
    hide *;
    for i := 0 to row
      invariant dots == LandBelow(V, Index(col, i, 0))
    {
      for j := 0 to col
        invariant dots == LandBelow(V, Index(col, i, j))
      {
        LandAt(board, i, j);
        NextBelow(V, col, i, j);
        if board[i, j] == '1' {
          dots := dots + {Index(col, i, j)};
        }
      }
      NextRowStarts(col, i);
    }
    AllBelow(board);
  }

  lemma NoneBelow(board: array2<char>)
    ensures LandBelow(Land(board), Index(board.Length1, 0, 0)) == {}
  {
  }

  lemma NextBelow(V: set<int>, w: nat, i: int, j: int)
    ensures LandBelow(V, Index(w, i, j + 1)) == LandBelow(V, Index(w, i, j))
        + if Index(w, i, j) in V then {Index(w, i, j)} else {}
  {
  }

  lemma AllBelow(board: array2<char>)
    ensures LandBelow(Land(board), Index(board.Length1, board.Length0, 0)) == Land(board)
  {
  }

  method TieDots(board: array2<char>, ghost V: set<int>, union: UnionSet<int>, ghost F: set<Edge>, i: int, j: int)
      returns (ghost F': set<Edge>)
    requires LinkingDots(board.Length1, V, union, F) && V == Land(board)
    requires 1 <= i < board.Length0 && 1 <= j < board.Length1 && Passing(board.Length1, V, F, board.Length0, i, j)
    modifies union
    ensures LinkingDots(board.Length1, V, union, F') && Passing(board.Length1, V, F', board.Length0, i, j + 1)
  {
    hide Land, LinkingDots, Index, Tied, Passing;
    ghost var F1 := DotsIfLand(board, V, union, F, i, j, i, j - 1);
    F' := DotsIfLand(board, V, union, F1, i, j, i - 1, j);
    CellPassed(board.Length1, V, F, F1, F', board.Length0, i, j);
  }

  method TieFirstRow(board: array2<char>, ghost V: set<int>, union: UnionSet<int>)
      returns (ghost F: set<Edge>, ghost m: int)
    requires LinkingDots(board.Length1, V, union, {}) && V == Land(board) && board.Length0 >= 1
    modifies union
    ensures LinkingDots(board.Length1, V, union, F) && RowTied(board.Length1, V, F, 0, m) && board.Length1 <= m
  {
    hide *;
    var col := board.Length1;
    F := {};
    RowStart(col, V, F);
    var i := 1;
    while i < col
      invariant 1 <= i && LinkingDots(col, V, union, F) && RowTied(col, V, F, 0, i)
    {
      FirstRowTouch(board, i);
      ghost var F' := DotsIfLand(board, V, union, F, 0, i - 1, 0, i);
      TiedSymmetric(V, F', Index(col, 0, i - 1), Index(col, 0, i));
      FirstRowStep(col, V, F, F', i);
      F := F';
      i := i + 1;
    }
    m := i;
  }

  method TieFirstCol(board: array2<char>, ghost V: set<int>, union: UnionSet<int>, ghost F0: set<Edge>, ghost m: int)
      returns (ghost F: set<Edge>)
    requires LinkingDots(board.Length1, V, union, F0) && V == Land(board) && board.Length0 >= 1
    requires (board.Length1 >= 1 || board.Length0 == 1) && RowTied(board.Length1, V, F0, 0, m) && board.Length1 <= m
    modifies union
    ensures LinkingDots(board.Length1, V, union, F)
    ensures RowsTied(board.Length1, V, F, 1) && ColTied(board.Length1, V, F, board.Length0)
  {
    hide *;
    var row, col := board.Length0, board.Length1;
    F := F0;
    RowStart(col, V, F);
    var i := 1;
    while i < row
      invariant 1 <= i <= row && LinkingDots(col, V, union, F) && RowTied(col, V, F, 0, m) && ColTied(col, V, F, i)
    {
      FirstColTouch(board, i);
      ghost var F' := DotsIfLand(board, V, union, F, i - 1, 0, i, 0);
      FirstColStep(col, V, F, F', i, m);
      F := F';
      i := i + 1;
    }
    PassStarts(col, V, F, row, m, i);
  }

  lemma FirstRowTouch(board: array2<char>, i: int)
    requires 1 <= i < board.Length1 && board.Length0 >= 1
    ensures OnBoard(board, 0, i - 1) && OnBoard(board, 0, i) && Touch(0, i - 1, 0, i)
  {
  }

  lemma FirstColTouch(board: array2<char>, i: int)
    requires 1 <= i < board.Length0 && board.Length1 >= 1
    ensures OnBoard(board, i - 1, 0) && OnBoard(board, i, 0) && Touch(i - 1, 0, i, 0)
  {
  }

  lemma TiedSymmetric(V: set<int>, F: set<Edge>, x: int, y: int)
    requires Tied(V, F, x, y)
    ensures Tied(V, F, y, x)
  {
  }

  method NumIslands1(board: array2<char>) returns (size: int)
    requires board.Length0 >= 1 && (board.Length1 >= 1 || board.Length0 == 1)
    ensures HasComponents(Land(board), Links(board.Length1, Land(board)), size)
  {
    var row, col := board.Length0, board.Length1;
    hide *;
    var dots := Dots(board);
    var union := new UnionSet<int>();
    union.MakeSets(dots);
    ghost var V := Land(board);
    DotsStart(col, V, union);
    ghost var F, m := TieFirstRow(board, V, union);
    F := TieFirstCol(board, V, union, F, m);
    var i := 1;
    while i < row
      invariant 1 <= i <= row && fresh(union) && LinkingDots(col, V, union, F)
      invariant RowsTied(col, V, F, i) && ColTied(col, V, F, row)
    {
      var j := 1;
      RowPassStarts(col, V, F, row, i);
      while j < col
        invariant 1 <= j && fresh(union) && LinkingDots(col, V, union, F) && Passing(col, V, F, row, i, j)
      {
        F := TieDots(board, V, union, F, i, j);
        j := j + 1;
      }
      RowPassed(col, V, F, row, i, j);
      i := i + 1;
    }
    DotsDone(board, union, V, F);
    size := |union.sizes|;
  }

  lemma DotsDone(board: array2<char>, union: UnionSet<int>, V: set<int>, F: set<Edge>)
    requires LinkingDots(board.Length1, V, union, F) && V == Land(board) && RowsTied(board.Length1, V, F, board.Length0)
    ensures HasComponents(V, Links(board.Length1, V), |union.sizes|)
  {
    DotsCount(board.Length1, V, union, F);
    hide Stands, HasComponents, RowsTied, Land;
    TiedIsEnough(board, F, |union.sizes|);
  }

  // ----- one cell at a time

  /** The links made join every two present cells that touch. */
  ghost predicate Online(row: nat, col: nat, union: UnionArray)
    reads union, union.parent, union.sizes
  {
    && union.Valid() && union.parent.Length == Index(col, row, 0)
    && AllJoined(col, union.root.Keys, union.links)
  }

  ghost predicate AllJoined(col: nat, V: set<int>, F: set<Edge>) {
    F <= Links(col, V) && forall e :: e in Links(col, V) ==> Joined(F, e.from, e.to)
  }

  lemma OnlineCounts(row: nat, col: nat, union: UnionArray)
    requires Online(row, col, union)
    ensures HasComponents(union.root.Keys, Links(col, union.root.Keys), union.size)
  {
    var V, E, F := union.root.Keys, Links(col, union.root.Keys), union.links;
    union.SizeCounts();
    hide Links, HasComponents;
    forall e | e in E ensures Connected(F, e.from, e.to) {
      JoinedConnects(F, e.from, e.to);
    }
    EnoughEdges(E, F);
    SameCount(V, E, F, union.size);
  }

  /** While the new cell (r, c) is being linked: only its own links may be missing. */
  ghost predicate Connecting(row: nat, col: nat, union: UnionArray, V: set<int>, r: int, c: int)
    reads union, union.parent, union.sizes
  {
    && union.Valid() && union.parent.Length == Index(col, row, 0)
    && union.root.Keys == V + {Index(col, r, c)}
    && union.links <= Links(col, V + {Index(col, r, c)})
    && forall e :: e in Links(col, V) ==> Joined(union.links, e.from, e.to)
  }

  /** union(ar, ac, br, bc): nothing happens off the board or where a cell is absent. */
  method UnionNear(row: nat, col: nat, union: UnionArray, ghost V: set<int>, ar: int, ac: int, br: int, bc: int)
    requires Connecting(row, col, union, V, br, bc) && 0 <= br < row && 0 <= bc < col
    requires -1 <= ar <= row && -1 <= ac <= col && Touch(ar, ac, br, bc)
    modifies union, union.parent, union.sizes, union.help
    ensures Connecting(row, col, union, V, br, bc) && old(union.links) <= union.links
    ensures 0 <= ar < row && 0 <= ac < col && Index(col, ar, ac) in V ==>
        Joined(union.links, Index(col, ar, ac), Index(col, br, bc))
  {
    if ar < 0 || ar == row || ac < 0 || ac == col || br < 0 || br == row || bc < 0 || bc == col {
      return;
    }
    IndexInside(row, col, ar, ac);
    IndexInside(row, col, br, bc);
    var ai, bi := Index(col, ar, ac), Index(col, br, bc);
    PresentIs(union, ai);
    hide Ok, Stands, Roots, Index, Links;
    if union.sizes[ai] == 0 || union.sizes[bi] == 0 {
      return;
    }
    LinkInside(col, V + {bi}, union.links, ar, ac, br, bc);
    union.Union(ai, bi);
  }

  lemma PresentIs(union: UnionArray, x: int)
    requires union.Valid() && 0 <= x < union.parent.Length
    ensures union.sizes.Length == union.parent.Length && (union.sizes[x] != 0 <==> x in union.root)
    ensures forall y :: y in union.root ==> 0 <= y < union.parent.Length && union.sizes[y] != 0
  {
  }

  lemma ConnectingStarts(row: nat, col: nat, union: UnionArray, V: set<int>, F: set<Edge>, r: int, c: int)
    requires AllJoined(col, V, F) && union.Valid() && union.links == F && union.parent.Length == Index(col, row, 0)
    requires union.root.Keys == V + {Index(col, r, c)}
    ensures Connecting(row, col, union, V, r, c)
  {
    LinksMonotone(col, V, V + {Index(col, r, c)});
  }

  ghost predicate NearJoined(row: nat, col: nat, V: set<int>, F: set<Edge>, ar: int, ac: int, br: int, bc: int) {
    0 <= ar < row && 0 <= ac < col && Index(col, ar, ac) in V ==> Joined(F, Index(col, ar, ac), Index(col, br, bc))
  }

  lemma ConnectingDone(row: nat, col: nat, union: UnionArray, V: set<int>, r: int, c: int)
    requires Connecting(row, col, union, V, r, c) && 0 <= r < row && 0 <= c < col
    requires NearJoined(row, col, V, union.links, r - 1, c, r, c)
        && NearJoined(row, col, V, union.links, r + 1, c, r, c)
    requires NearJoined(row, col, V, union.links, r, c - 1, r, c)
        && NearJoined(row, col, V, union.links, r, c + 1, r, c)
    ensures Online(row, col, union)
  {
    var x, F := Index(col, r, c), union.links;
    var V' := V + {x};
    forall e | e in Links(col, V') ensures Joined(F, e.from, e.to) {
      NewLinkJoined(row, col, union, V, r, c, e);
    }
  }

  lemma NewLinkJoined(row: nat, col: nat, union: UnionArray, V: set<int>, r: int, c: int, e: Edge)
    requires Connecting(row, col, union, V, r, c) && 0 <= r < row && 0 <= c < col
    requires NearJoined(row, col, V, union.links, r - 1, c, r, c)
        && NearJoined(row, col, V, union.links, r + 1, c, r, c)
    requires NearJoined(row, col, V, union.links, r, c - 1, r, c)
        && NearJoined(row, col, V, union.links, r, c + 1, r, c)
    requires e in Links(col, V + {Index(col, r, c)})
    ensures Joined(union.links, e.from, e.to)
  {
    var x, F := Index(col, r, c), union.links;
    PresentElements(union);
    if e.from in V && e.to in V {
      assert e in Links(col, V);
    } else {
      var y := if e.from in V then e.from else e.to;
      CellOf(col, r, c);
      FourCells(row, col, r, c, y);
      NearIs(row, col, V, F, r, c, y);
    }
  }

  lemma PresentElements(union: UnionArray)
    requires union.Valid()
    ensures forall y :: y in union.root ==> 0 <= y < union.parent.Length
  {
  }

  lemma NearIs(row: nat, col: nat, V: set<int>, F: set<Edge>, r: int, c: int, y: int)
    requires NearJoined(row, col, V, F, r - 1, c, r, c) && NearJoined(row, col, V, F, r + 1, c, r, c)
    requires NearJoined(row, col, V, F, r, c - 1, r, c) && NearJoined(row, col, V, F, r, c + 1, r, c)
    requires y in V && 0 <= r < row && 0 <= c < col
    requires || (r > 0 && y == Index(col, r - 1, c)) || (r + 1 < row && y == Index(col, r + 1, c))
             || (c > 0 && y == Index(col, r, c - 1)) || (c + 1 < col && y == Index(col, r, c + 1))
    ensures Joined(F, y, Index(col, r, c)) && Joined(F, Index(col, r, c), y)
  {
  }

  lemma NearGrows(row: nat, col: nat, V: set<int>, F: set<Edge>, F': set<Edge>, ar: int, ac: int, br: int, bc: int)
    requires NearJoined(row, col, V, F, ar, ac, br, bc) && F <= F'
    ensures NearJoined(row, col, V, F', ar, ac, br, bc)
  {
  }

  /** Links the new cell to its neighbours on all four sides. */
  method UnionAround(row: nat, col: nat, union: UnionArray, ghost V: set<int>, r: int, c: int)
    requires Connecting(row, col, union, V, r, c) && 0 <= r < row && 0 <= c < col
    modifies union, union.parent, union.sizes, union.help
    ensures Online(row, col, union) && union.root.Keys == V + {Index(col, r, c)}
  {
    hide Connecting, Online, Joined, Index;
    UnionNear(row, col, union, V, r - 1, c, r, c);
    ghost var F1 := union.links;
    UnionNear(row, col, union, V, r + 1, c, r, c);
    ghost var F2 := union.links;
    UnionNear(row, col, union, V, r, c - 1, r, c);
    ghost var F3 := union.links;
    UnionNear(row, col, union, V, r, c + 1, r, c);
    ghost var F4 := union.links;
    NearGrows(row, col, V, F1, F4, r - 1, c, r, c);
    NearGrows(row, col, V, F2, F4, r + 1, c, r, c);
    NearGrows(row, col, V, F3, F4, r, c - 1, r, c);
    ConnectingDone(row, col, union, V, r, c);
    ConnectingKeys(row, col, union, V, r, c);
  }

  lemma ConnectingKeys(row: nat, col: nat, union: UnionArray, V: set<int>, r: int, c: int)
    requires Connecting(row, col, union, V, r, c)
    ensures union.root.Keys == V + {Index(col, r, c)}
  {
  }

  /** Adds a cell, unless it is there already, and returns the number of islands. */
  method Connect(row: nat, col: nat, union: UnionArray, r: int, c: int) returns (size: int)
    requires Online(row, col, union) && 0 <= r < row && 0 <= c < col
    modifies union, union.parent, union.sizes, union.help
    ensures Online(row, col, union) && union.root.Keys == old(union.root.Keys) + {Index(col, r, c)}
    ensures HasComponents(union.root.Keys, Links(col, union.root.Keys), size)
  {
    var index := Index(col, r, c);
    IndexInside(row, col, r, c);
    PresentIs(union, index);
    ghost var V, F := union.root.Keys, union.links;
    if union.sizes[index] == 0 {
      hide Ok, Stands, Roots, Index, Links, AllJoined;
      union.Add(index);
      ConnectingStarts(row, col, union, V, F, r, c);
      UnionAround(row, col, union, V, r, c);
    } else {
      assert V + {index} == V;
    }
    hide *;
    OnlineCounts(row, col, union);
    size := union.size;
  }

  datatype Position = Position(r: int, c: int)

  ghost function Added(col: nat, positions: seq<Position>): set<int> {
    set k | 0 <= k < |positions| :: Index(col, positions[k].r, positions[k].c)
  }

  /** Each result counts the islands of the positions up to its own. */
  ghost predicate CountsEach(n: nat, positions: seq<Position>, result: seq<int>) {
    && |result| <= |positions|
    && forall k :: 0 <= k < |result| ==>
         HasComponents(Added(n, positions[..k + 1]), Links(n, Added(n, positions[..k + 1])), result[k])
  }

  lemma OneMoreCount(n: nat, positions: seq<Position>, result: seq<int>, V: set<int>, size: int)
    requires CountsEach(n, positions, result) && |result| < |positions|
    requires V == Added(n, positions[..|result|]) + {Index(n, positions[|result|].r, positions[|result|].c)}
    requires HasComponents(V, Links(n, V), size)
    ensures CountsEach(n, positions, result + [size]) && V == Added(n, positions[..|result| + 1])
  {
    hide HasComponents, Links;
    AddedNext(n, positions, |result|);
  }

  method NumIslands21(m: nat, n: nat, positions: seq<Position>) returns (result: seq<int>)
    requires forall k :: 0 <= k < |positions| ==> 0 <= positions[k].r < m && 0 <= positions[k].c < n
    ensures |result| == |positions| && CountsEach(n, positions, result)
  {
    LengthNotNegative(n, m);
    var union := new UnionArray(Index(n, m, 0));
    NothingOnline(m, n, union);
    result := [];
    assert CountsEach(n, positions, result);
    hide *;
    for k := 0 to |positions|
      invariant fresh(union) && fresh(union.parent) && fresh(union.sizes) && fresh(union.help)
      invariant Online(m, n, union) && union.root.Keys == Added(n, positions[..k])
      invariant |result| == k && CountsEach(n, positions, result)
    {
      var position := positions[k];
      var size := Connect(m, n, union, position.r, position.c);
      OneMoreCount(n, positions, result, union.root.Keys, size);
      result := result + [size];
    }
  }

  lemma NothingOnline(m: nat, n: nat, union: UnionArray)
    requires union.Valid() && union.root == map[] && union.links == {} && union.parent.Length == Index(n, m, 0)
    ensures Online(m, n, union) && union.root.Keys == Added(n, [])
  {
  }

  lemma AddedNext(n: nat, positions: seq<Position>, k: nat)
    requires k < |positions|
    ensures Added(n, positions[..k + 1]) == Added(n, positions[..k]) + {Index(n, positions[k].r, positions[k].c)}
  {
    var p, q := positions[..k], positions[..k + 1];
    assert q == p + [positions[k]];
    forall x ensures x in Added(n, q) <==> x in Added(n, p) || x == Index(n, positions[k].r, positions[k].c) {
      if x in Added(n, p) {
        var i :| 0 <= i < k && x == Index(n, p[i].r, p[i].c);
        assert q[i] == p[i];
      }
      assert q[k] == positions[k];
    }
  }

  // ----- circles of friends

  /** The friendships the program reads: those above the diagonal. */
  ghost function Friends(M: seq<seq<int>>): set<Edge>
    requires forall i :: 0 <= i < |M| ==> |M[i]| == |M|
  {
    set i, j | 0 <= i < |M| && i < j < |M| && M[i][j] == 1 :: Link(i, j)
  }

  ghost function FriendsBefore(M: seq<seq<int>>, r: int, c: int): set<Edge>
    requires forall i :: 0 <= i < |M| ==> |M[i]| == |M|
  {
    set e | e in Friends(M) && (e.from < r || (e.from == r && e.to < c))
  }

  lemma FriendsNext(M: seq<seq<int>>, i: int, j: int)
    requires forall i :: 0 <= i < |M| ==> |M[i]| == |M|
    requires 0 <= i < j < |M|
    ensures FriendsBefore(M, i, j + 1) == FriendsBefore(M, i, j) + if M[i][j] == 1 then {Link(i, j)} else {}
  {
    assert M[i][j] == 1 <==> Link(i, j) in Friends(M);
  }

  lemma FriendsRow(M: seq<seq<int>>, i: int, j: int)
    requires forall i :: 0 <= i < |M| ==> |M[i]| == |M|
    requires 0 <= i < |M| <= j
    ensures FriendsBefore(M, i, j) == FriendsBefore(M, i + 1, i + 2)
  {
  }

  lemma FriendsEnds(M: seq<seq<int>>)
    requires forall i :: 0 <= i < |M| ==> |M[i]| == |M|
    ensures FriendsBefore(M, 0, 1) == {} && FriendsBefore(M, |M|, |M| + 1) == Friends(M)
  {
  }

  ghost predicate IsPerson(i: int, n: int) {
    0 <= i < n
  }

  ghost function People(n: int): set<int> {
    set i | 0 <= i < n && IsPerson(i, n)
  }

  method AllPresent(n: nat) returns (unionFind: UnionArray)
    ensures fresh(unionFind) && fresh(unionFind.parent) && fresh(unionFind.sizes) && fresh(unionFind.help)
    ensures unionFind.Valid() && unionFind.links == {} && unionFind.root.Keys == People(n)
  {
    unionFind := new UnionArray(n);
    hide Ok, Stands, Roots;
    for i := 0 to n
      invariant fresh(unionFind) && fresh(unionFind.parent) && fresh(unionFind.sizes) && fresh(unionFind.help)
      invariant unionFind.Valid() && unionFind.links == {} && unionFind.parent.Length == n
      invariant unionFind.root.Keys == People(i)
    {
      unionFind.Add(i);
      assert People(i + 1) == People(i) + {i};
    }
  }

  ghost predicate Befriending(M: seq<seq<int>>, unionFind: UnionArray, i: int, j: int)
    requires forall i :: 0 <= i < |M| ==> |M[i]| == |M|
    reads unionFind, unionFind.parent, unionFind.sizes
  {
    unionFind.Valid() && unionFind.root.Keys == People(|M|) && unionFind.links == FriendsBefore(M, i, j)
  }

  method Befriend(M: seq<seq<int>>, unionFind: UnionArray, i: int, j: int)
    requires forall i :: 0 <= i < |M| ==> |M[i]| == |M|
    requires 0 <= i < j < |M| && Befriending(M, unionFind, i, j)
    modifies unionFind, unionFind.parent, unionFind.sizes, unionFind.help
    ensures Befriending(M, unionFind, i, j + 1)
  {
    hide Ok, Stands, Roots, FriendsBefore;
    FriendsNext(M, i, j);
    if M[i][j] == 1 {
      unionFind.UnionByFind(i, j);
    }
  }

  lemma FriendsCounted(M: seq<seq<int>>, unionFind: UnionArray)
    requires forall i :: 0 <= i < |M| ==> |M[i]| == |M|
    requires Befriending(M, unionFind, |M|, |M| + 1)
    ensures HasComponents(People(|M|), Friends(M), unionFind.size)
  {
    FriendsEnds(M);
    unionFind.SizeCounts();
  }

  lemma NextRowOfFriends(M: seq<seq<int>>, unionFind: UnionArray, i: int, j: int)
    requires forall i :: 0 <= i < |M| ==> |M[i]| == |M|
    requires Befriending(M, unionFind, i, j) && 0 <= i < |M| <= j
    ensures Befriending(M, unionFind, i + 1, i + 2)
  {
    FriendsRow(M, i, j);
  }

  method FindCircleNum(M: seq<seq<int>>) returns (sets: int)
    requires forall i :: 0 <= i < |M| ==> |M[i]| == |M|
    ensures HasComponents(People(|M|), Friends(M), sets)
  {
    var n := |M|;
    var unionFind := AllPresent(n);
    FriendsEnds(M);
    hide *;
    var i := 0;
    assert Befriending(M, unionFind, 0, 1) by { IsBefriending(M, unionFind); }
    while i < n
      invariant 0 <= i <= n && Befriending(M, unionFind, i, i + 1)
      invariant fresh(unionFind) && fresh(unionFind.parent) && fresh(unionFind.sizes) && fresh(unionFind.help)
    {
      var j := i + 1;
      while j < n
        invariant i < j <= n && Befriending(M, unionFind, i, j)
        invariant fresh(unionFind) && fresh(unionFind.parent) && fresh(unionFind.sizes) && fresh(unionFind.help)
      {
        Befriend(M, unionFind, i, j);
        j := j + 1;
      }
      NextRowOfFriends(M, unionFind, i, j);
      i := i + 1;
    }
    FriendsCounted(M, unionFind);
    sets := unionFind.size;
  }

  lemma IsBefriending(M: seq<seq<int>>, unionFind: UnionArray)
    requires forall i :: 0 <= i < |M| ==> |M[i]| == |M|
    requires unionFind.Valid() && unionFind.links == {} && unionFind.root.Keys == People(|M|)
    ensures Befriending(M, unionFind, 0, 1)
  {
    FriendsEnds(M);
  }

  ghost function AllFriends(M: seq<seq<int>>): set<Edge>
    requires forall i :: 0 <= i < |M| ==> |M[i]| == |M|
  {
    set i, j | 0 <= i < |M| && 0 <= j < |M| && M[i][j] == 1 :: Link(i, j)
  }

  /** When friendship is mutual, the half the program reads says it all. */
  lemma HalfIsEnough(M: seq<seq<int>>, n: int)
    requires forall i :: 0 <= i < |M| ==> |M[i]| == |M|
    requires forall i, j :: 0 <= i < |M| && 0 <= j < |M| ==> M[i][j] == M[j][i]
    requires HasComponents(People(|M|), Friends(M), n)
    ensures HasComponents(People(|M|), AllFriends(M), n)
  {
    var E, F := AllFriends(M), Friends(M);
    forall e | e in E ensures Connected(F, e.from, e.to) {
      if e.from == e.to {
        Reflexive(F, e.from);
      } else if e.from < e.to {
        EdgeConnects(F, Link(e.from, e.to));
      } else {
        EdgeConnects(F, Link(e.to, e.from));
      }
    }
    hide HasComponents, Connected;
    EnoughEdges(E, F);
    SameCount(People(|M|), E, F, n);
  }
}
