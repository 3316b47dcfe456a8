/** A* search over the walkable grid: four unit steps, unit cost, the Manhattan
    heuristic, an open list that is stably sorted by f before its head is taken,
    and maps of predecessors and g- and f-scores. */
module PathFinding {
  import opened Grid

  /** An entry of the open list: a cell and the f-score it was enqueued with. */
  datatype OpenNode = OpenNode(x: int, y: int, f: int)

  function CellOf(n: OpenNode): Cell {
    Cell(n.x, n.y)
  }

  /** The neighbour steps, in the order the search tries them. */
  const Directions: seq<Cell> := [Cell(0, 1), Cell(0, -1), Cell(1, 0), Cell(-1, 0)]

  function Abs(v: int): nat {
    if v < 0 then -v else v
  }

  /** Manhattan distance. */
  function Heuristic(a: Cell, b: Cell): nat {
    Abs(a.x - b.x) + Abs(a.y - b.y)
  }

  /** b is one unit step from a. */
  predicate Adjacent(a: Cell, b: Cell) {
    Heuristic(a, b) == 1
  }

  function Shift(c: Cell, d: Cell): Cell {
    Cell(c.x + d.x, c.y + d.y)
  }

  /** The unit steps are exactly the four directions the search expands. */
  lemma AdjacentIsOneDirection(a: Cell, b: Cell)
    ensures Adjacent(a, b) <==> exists i :: 0 <= i < |Directions| && b == Shift(a, Directions[i])
  {
    if Adjacent(a, b) {
      var i := if b.y == a.y + 1 then 0 else if b.y == a.y - 1 then 1 else if b.x == a.x + 1 then 2 else 3;
      assert b == Shift(a, Directions[i]);
    }
  }

  /** Each of the four directions is a unit step. */
  lemma DirectionIsStep(c: Cell, i: int)
    requires 0 <= i < |Directions|
    ensures Adjacent(c, Shift(c, Directions[i])) && Shift(c, Directions[i]) != c
  {
    assert Directions[i] in {Cell(0, 1), Cell(0, -1), Cell(1, 0), Cell(-1, 0)};
  }

  /** The heuristic is consistent: one step changes the estimate by at most one. */
  lemma HeuristicConsistent(a: Cell, b: Cell, target: Cell)
    requires Adjacent(a, b)
    ensures Heuristic(a, target) <= Heuristic(b, target) + 1
    ensures Heuristic(b, target) <= Heuristic(a, target) + 1
  {
  }

  /** A non-empty sequence of cells, each one unit step from the one before. */
  ghost predicate IsWalk(w: seq<Cell>) {
    |w| > 0 && forall i :: 0 <= i < |w| - 1 ==> Adjacent(w[i], w[i + 1])
  }

  /** The heuristic is admissible: no walk is shorter than it. */
  lemma {:induction false} WalkNoShorterThanHeuristic(w: seq<Cell>)
    requires IsWalk(w)
    ensures Heuristic(w[0], w[|w| - 1]) <= |w| - 1
  {
    if |w| > 1 {
      assert IsWalk(w[1..]) by {
        forall i | 0 <= i < |w[1..]| - 1 ensures Adjacent(w[1..][i], w[1..][i + 1]) {
          assert w[1..][i] == w[i + 1] && w[1..][i + 1] == w[i + 2];
        }
      }
      WalkNoShorterThanHeuristic(w[1..]);
      HeuristicConsistent(w[0], w[1], w[|w| - 1]);
    }
  }

  // ---------------------------------------------------------------------------
  // The open list's sort: a stable insertion sort by f.

  ghost predicate SortedByF(s: seq<OpenNode>) {
    forall i, j :: 0 <= i < j < |s| ==> s[i].f <= s[j].f
  }

  /** Puts n before the first entry whose f is not smaller, so that n stays ahead
      of every later entry with the same f. */
  function InsertByF(n: OpenNode, sorted: seq<OpenNode>): (r: seq<OpenNode>)
    ensures multiset(r) == multiset(sorted) + multiset{n}
    ensures |r| == |sorted| + 1
  {
    if sorted == [] || n.f <= sorted[0].f then [n] + sorted
    else
      assert sorted == [sorted[0]] + sorted[1..];
      [sorted[0]] + InsertByF(n, sorted[1..])
  }

  /** The open list's sort by ascending f, stable as the host language's sort is:
      entries with equal f keep their order (SortByFStable). */
  function SortByF(s: seq<OpenNode>): (r: seq<OpenNode>)
    ensures multiset(r) == multiset(s)
    ensures |r| == |s|
  {
    if s == [] then []
    else
      assert s == [s[0]] + s[1..];
      InsertByF(s[0], SortByF(s[1..]))
  }

  /** A lower bound on f shared by n and the sorted list holds of the result. */
  lemma {:induction false} InsertByFBounded(n: OpenNode, sorted: seq<OpenNode>, b: int)
    requires b <= n.f && forall i :: 0 <= i < |sorted| ==> b <= sorted[i].f
    ensures forall i :: 0 <= i < |InsertByF(n, sorted)| ==> b <= InsertByF(n, sorted)[i].f
  {
    if sorted != [] && sorted[0].f < n.f {
      InsertByFBounded(n, sorted[1..], b);
      assert InsertByF(n, sorted) == [sorted[0]] + InsertByF(n, sorted[1..]);
    }
  }

  /** An entry no greater than every entry of a sorted list can go in front of it. */
  lemma PrependSorted(x: OpenNode, rest: seq<OpenNode>)
    requires SortedByF(rest) && forall i :: 0 <= i < |rest| ==> x.f <= rest[i].f
    ensures SortedByF([x] + rest)
  {
    var r := [x] + rest;
    forall i, j | 0 <= i < j < |r| ensures r[i].f <= r[j].f {
      assert r[j] == rest[j - 1];
      if i > 0 {
        assert r[i] == rest[i - 1];
      }
    }
  }

  /** Inserting into a list sorted by f keeps it sorted. */
  lemma {:induction false} InsertByFSorted(n: OpenNode, sorted: seq<OpenNode>)
    requires SortedByF(sorted)
    ensures SortedByF(InsertByF(n, sorted))
  {
    if sorted == [] || n.f <= sorted[0].f {
      PrependSorted(n, sorted);
    } else {
      assert SortedByF(sorted[1..]);
      InsertByFSorted(n, sorted[1..]);
      InsertByFBounded(n, sorted[1..], sorted[0].f);
      PrependSorted(sorted[0], InsertByF(n, sorted[1..]));
    }
  }

  /** The sort orders the list by f. */
  lemma {:induction false} SortByFIsSorted(s: seq<OpenNode>)
    ensures SortedByF(SortByF(s))
  {
    if s != [] {
      SortByFIsSorted(s[1..]);
      InsertByFSorted(s[0], SortByF(s[1..]));
    }
  }

  /** k is the position of the first entry with the least f. */
  ghost predicate IsFirstMinimal(s: seq<OpenNode>, k: int) {
    0 <= k < |s| &&
    (forall j :: 0 <= j < |s| ==> s[k].f <= s[j].f) &&
    (forall j :: 0 <= j < k ==> s[k].f < s[j].f)
  }

  /** When the first minimum is not the head, it is the first minimum of the tail. */
  lemma FirstMinimalOfTail(s: seq<OpenNode>, k: int)
    requires IsFirstMinimal(s, k) && k > 0
    ensures IsFirstMinimal(s[1..], k - 1) && s[0].f > s[k].f
  {
    forall j | 0 <= j < |s[1..]| ensures s[1..][k - 1].f <= s[1..][j].f {
      assert s[1..][j] == s[j + 1];
    }
    forall j | 0 <= j < k - 1 ensures s[1..][k - 1].f < s[1..][j].f {
      assert s[1..][j] == s[j + 1];
    }
  }

  /** A minimal head stays in front of the sorted tail. */
  lemma MinimalHeadStaysFirst(s: seq<OpenNode>)
    requires IsFirstMinimal(s, 0)
    ensures SortByF(s)[0] == s[0]
  {
    var rest := SortByF(s[1..]);
    if rest != [] {
      assert rest[0] in multiset(s[1..]);
      var m :| 0 <= m < |s[1..]| && s[1..][m] == rest[0];
      assert s[m + 1] == rest[0];
    }
  }

  /** Sorting and taking the head selects the first entry with the least f. */
  lemma {:induction false} SortByFHeadIsFirstMinimal(s: seq<OpenNode>, k: int)
    requires IsFirstMinimal(s, k)
    ensures SortByF(s)[0] == s[k]
  {
    if k == 0 {
      MinimalHeadStaysFirst(s);
    } else {
      FirstMinimalOfTail(s, k);
      SortByFHeadIsFirstMinimal(s[1..], k - 1);
    }
  }

  /** The entries of s whose f is v, in their order in s. */
  function WithF(s: seq<OpenNode>, v: int): seq<OpenNode> {
    if s == [] then [] else (if s[0].f == v then [s[0]] else []) + WithF(s[1..], v)
  }

  lemma WithFCons(x: OpenNode, r: seq<OpenNode>, v: int)
    ensures WithF([x] + r, v) == (if x.f == v then [x] else []) + WithF(r, v)
  {
    var t := [x] + r;
    assert t[0] == x && t[1..] == r;
  }

  /** Inserting n puts it ahead of every entry with the same f and leaves the
      order of those entries alone. */
  lemma {:induction false} InsertWithF(n: OpenNode, r: seq<OpenNode>, v: int)
    ensures WithF(InsertByF(n, r), v) == (if n.f == v then [n] else []) + WithF(r, v)
  {
    if r == [] || n.f <= r[0].f {
      WithFCons(n, r, v);
    } else {
      InsertWithF(n, r[1..], v);
      WithFCons(r[0], InsertByF(n, r[1..]), v);
      assert r == [r[0]] + r[1..];
      WithFCons(r[0], r[1..], v);
      if n.f == v {
        assert r[0].f != v;
      } else {
        var head := if r[0].f == v then [r[0]] else [];
        assert head + ([] + WithF(r[1..], v)) == [] + (head + WithF(r[1..], v));
      }
    }
  }

  /** The sort is stable: for every f, the entries with that f come out in the
      order they went in. */
  lemma {:induction false} SortByFStable(s: seq<OpenNode>, v: int)
    ensures WithF(SortByF(s), v) == WithF(s, v)
  {
    if s != [] {
      SortByFStable(s[1..], v);
      InsertWithF(s[0], SortByF(s[1..]), v);
    }
  }

  lemma SortByFKeepsEntries(s: seq<OpenNode>, n: OpenNode)
    ensures n in SortByF(s) <==> n in s
  {
    assert n in multiset(SortByF(s)) <==> n in multiset(s);
  }

  // ---------------------------------------------------------------------------
  // The score maps and what the search keeps true of them.

  /** The stored g of a cell read with a fallback of 0: a missing entry and a
      stored 0 both read as 0. */
  function StoredOrZero(gScore: map<Cell, nat>, k: Cell): nat {
    if k in gScore then gScore[k] else 0
  }

  /** The tentative score is below the stored g read with a fallback of Infinity:
      a missing entry and a stored 0 both read as Infinity, so the start's own 0
      never blocks an update of the start. */
  predicate BeatsStored(gScore: map<Cell, nat>, k: Cell, tentative: nat) {
    if k in gScore && gScore[k] != 0 then tentative < gScore[k] else true
  }

  /** Some entry of the open list has the coordinates of c. */
  predicate InOpenSet(openSet: seq<OpenNode>, c: Cell) {
    exists i :: 0 <= i < |openSet| && openSet[i].x == c.x && openSet[i].y == c.y
  }

  /** Every predecessor link is a unit step that leads back to start or to another
      linked cell, and away from start it strictly lowers g; so following links
      from any linked cell reaches start. */
  ghost predicate ChainInvariant(start: Cell, cameFrom: map<Cell, Cell>, gScore: map<Cell, nat>) {
    (forall v {:trigger cameFrom[v]} :: v in cameFrom ==>
       v in gScore && Adjacent(cameFrom[v], v) && (cameFrom[v] == start || cameFrom[v] in cameFrom)) &&
    (forall v :: v in cameFrom && v != start && cameFrom[v] != start ==> gScore[cameFrom[v]] < gScore[v])
  }

  ghost predicate SearchInvariant(obstacles: seq<seq<bool>>, start: Cell, openSet: seq<OpenNode>,
                                  cameFrom: map<Cell, Cell>, gScore: map<Cell, nat>)
    requires Shaped(obstacles)
  {
    ChainInvariant(start, cameFrom, gScore) &&
    start in gScore &&
    (forall v :: v in cameFrom ==> IsValidTarget(obstacles, v)) &&
    (forall k :: k in gScore && k != start ==> gScore[k] >= 1) &&
    (forall n :: n in openSet ==> CellOf(n) == start || CellOf(n) in cameFrom)
  }

  /** Sorting the open list and taking its head keeps the invariant, and the head
      is the start or a linked cell. */
  lemma PopKeepsInvariant(obstacles: seq<seq<bool>>, start: Cell, openSet: seq<OpenNode>,
                          cameFrom: map<Cell, Cell>, gScore: map<Cell, nat>)
    requires Shaped(obstacles) && openSet != []
    requires SearchInvariant(obstacles, start, openSet, cameFrom, gScore)
    ensures SortByF(openSet) != []
    ensures SearchInvariant(obstacles, start, SortByF(openSet)[1..], cameFrom, gScore)
    ensures CellOf(SortByF(openSet)[0]) == start || CellOf(SortByF(openSet)[0]) in cameFrom
    ensures openSet == [OpenNode(start.x, start.y, 0)] ==> SortByF(openSet)[0] == openSet[0]
  {
    var sorted := SortByF(openSet);
    SortByFKeepsEntries(openSet, sorted[0]);
    forall n | n in sorted[1..] ensures n in openSet {
      SortByFKeepsEntries(openSet, n);
    }
  }

  /** What the search returns when it finds the target: a walk from start to target
      through walkable cells (the start itself is not checked), with no cell twice. */
  ghost predicate FoundPath(obstacles: seq<seq<bool>>, start: Cell, target: Cell, path: seq<Cell>)
    requires Shaped(obstacles)
  {
    IsWalk(path) && path[0] == start && path[|path| - 1] == target &&
    (forall i :: 1 <= i < |path| ==> IsValidTarget(obstacles, path[i])) &&
    (forall i, j :: 0 <= i < j < |path| ==> path[i] != path[j])
  }

  /** The cells already passed on the walk back from target (nearest to start
      first, target last) are linked cells other than start, each linked to the one
      before it, and currentPos, the next cell to pass, is the first one's link. */
  ghost predicate LinkedBack(cameFrom: map<Cell, Cell>, start: Cell, target: Cell,
                             links: seq<Cell>, currentPos: Cell)
  {
    (currentPos == start || currentPos in cameFrom) &&
    (links == [] ==> currentPos == target) &&
    (links != [] ==> links[|links| - 1] == target && links[0] in cameFrom && cameFrom[links[0]] == currentPos) &&
    (forall i :: 0 <= i < |links| ==> links[i] in cameFrom && links[i] != start) &&
    (forall i :: 1 <= i < |links| ==> cameFrom[links[i]] == links[i - 1])
  }

  /** g strictly rises along the passed cells, and currentPos, unless it is start,
      has a g below all of them. */
  ghost predicate RisingBack(gScore: map<Cell, nat>, start: Cell, links: seq<Cell>, currentPos: Cell) {
    (forall i :: 0 <= i < |links| ==> links[i] in gScore) &&
    (forall i, j :: 0 <= i < j < |links| ==> gScore[links[i]] < gScore[links[j]]) &&
    (currentPos != start ==>
       currentPos in gScore && forall i :: 0 <= i < |links| ==> gScore[currentPos] < gScore[links[i]])
  }

  ghost predicate Unwound(cameFrom: map<Cell, Cell>, gScore: map<Cell, nat>, start: Cell, target: Cell,
                          links: seq<Cell>, currentPos: Cell)
  {
    LinkedBack(cameFrom, start, target, links, currentPos) && RisingBack(gScore, start, links, currentPos)
  }

  lemma LinkedBackStep(cameFrom: map<Cell, Cell>, start: Cell, target: Cell,
                       links: seq<Cell>, currentPos: Cell)
    requires forall v :: v in cameFrom ==> cameFrom[v] == start || cameFrom[v] in cameFrom
    requires LinkedBack(cameFrom, start, target, links, currentPos) && currentPos != start
    ensures LinkedBack(cameFrom, start, target, [currentPos] + links, cameFrom[currentPos])
  {
    var links' := [currentPos] + links;
    forall i | 1 <= i < |links'| ensures cameFrom[links'[i]] == links'[i - 1] {
      assert links'[i] == links[i - 1];
    }
  }

  lemma RisingBackStep(gScore: map<Cell, nat>, start: Cell, links: seq<Cell>, currentPos: Cell, prev: Cell)
    requires RisingBack(gScore, start, links, currentPos) && currentPos != start
    requires prev != start ==> prev in gScore && gScore[prev] < gScore[currentPos]
    ensures RisingBack(gScore, start, [currentPos] + links, prev)
  {
    var links' := [currentPos] + links;
    forall i, j | 0 <= i < j < |links'| ensures gScore[links'[i]] < gScore[links'[j]] {
      assert links'[j] == links[j - 1];
      if i > 0 {
        assert links'[i] == links[i - 1];
      }
    }
  }

  /** Passing one more cell keeps Unwound, and g falls unless the walk reaches start. */
  lemma UnwindStep(cameFrom: map<Cell, Cell>, gScore: map<Cell, nat>, start: Cell, target: Cell,
                   links: seq<Cell>, currentPos: Cell)
    requires ChainInvariant(start, cameFrom, gScore)
    requires Unwound(cameFrom, gScore, start, target, links, currentPos) && currentPos != start
    ensures Unwound(cameFrom, gScore, start, target, [currentPos] + links, cameFrom[currentPos])
    ensures cameFrom[currentPos] != start ==> gScore[cameFrom[currentPos]] < gScore[currentPos]
  {
    LinkedBackStep(cameFrom, start, target, links, currentPos);
    RisingBackStep(gScore, start, links, currentPos, cameFrom[currentPos]);
  }

  /** Once the walk reaches start, start followed by the passed cells is a
      repeat-free chain of links from start to target. */
  lemma UnwoundPath(cameFrom: map<Cell, Cell>, gScore: map<Cell, nat>, start: Cell, target: Cell,
                    links: seq<Cell>)
    requires ChainInvariant(start, cameFrom, gScore)
    requires Unwound(cameFrom, gScore, start, target, links, start)
    ensures var path := [start] + links;
            path[|path| - 1] == target &&
            (forall i :: 1 <= i < |path| ==> path[i] in cameFrom && cameFrom[path[i]] == path[i - 1]) &&
            (forall i, j :: 0 <= i < j < |path| ==> path[i] != path[j]) &&
            IsWalk(path)
  {
    var path := [start] + links;
    forall i, j | 0 <= i < j < |path| ensures path[i] != path[j] {
      if i > 0 {
        assert gScore[links[i - 1]] < gScore[links[j - 1]];
      }
    }
  }

  /** Follows the predecessor links back from target and puts start in front. */
  method ReconstructPath(cameFrom: map<Cell, Cell>, start: Cell, target: Cell, ghost gScore: map<Cell, nat>)
    returns (path: seq<Cell>)
    requires ChainInvariant(start, cameFrom, gScore)
    requires target == start || target in cameFrom
    ensures |path| > 0 && path[0] == start && path[|path| - 1] == target
    ensures target == start ==> path == [start]
    ensures forall i :: 1 <= i < |path| ==> path[i] in cameFrom && cameFrom[path[i]] == path[i - 1]
    ensures forall i, j :: 0 <= i < j < |path| ==> path[i] != path[j]
    ensures IsWalk(path)
  {
    var links: seq<Cell> := [];
    var currentPos := target;
    while currentPos != start
      invariant Unwound(cameFrom, gScore, start, target, links, currentPos)
      decreases if currentPos == start then 0 else gScore[currentPos] + 1
    {
      UnwindStep(cameFrom, gScore, start, target, links, currentPos);
      links := [currentPos] + links;
      currentPos := cameFrom[currentPos];
    }
    UnwoundPath(cameFrom, gScore, start, target, links);
    path := [start] + links;
  }

  /** A chain of links from start to target through linked cells, all walkable,
      is what the search returns on success. */
  lemma LinkChainIsFoundPath(obstacles: seq<seq<bool>>, start: Cell, target: Cell,
                             cameFrom: map<Cell, Cell>, path: seq<Cell>)
    requires Shaped(obstacles)
    requires forall v :: v in cameFrom ==> IsValidTarget(obstacles, v)
    requires |path| > 0 && path[0] == start && path[|path| - 1] == target
    requires forall i :: 1 <= i < |path| ==> path[i] in cameFrom && cameFrom[path[i]] == path[i - 1]
    requires forall i, j :: 0 <= i < j < |path| ==> path[i] != path[j]
    requires IsWalk(path)
    ensures FoundPath(obstacles, start, target, path)
  {
  }

  /** The k-th neighbour the search tries. */
  function Neighbour(c: Cell, k: int): Cell
    requires 0 <= k < |Directions|
  {
    Shift(c, Directions[k])
  }

  /** The four neighbours of a cell are four different cells. */
  lemma NeighboursDistinct(c: Cell, k: int, l: int)
    requires 0 <= k < |Directions| && 0 <= l < |Directions| && k != l
    ensures Neighbour(c, k) != Neighbour(c, l)
  {
  }

  lemma InOpenSetGrows(s: seq<OpenNode>, t: seq<OpenNode>, c: Cell)
    requires s <= t && InOpenSet(s, c)
    ensures InOpenSet(t, c)
  {
    var j :| 0 <= j < |s| && s[j].x == c.x && s[j].y == c.y;
    assert t[j] == s[j];
  }

  /** Appending an entry for a cell the list has no entry for keeps every entry
      past the first |openSet| the first one for its cell. */
  lemma AppendFresh(openSet: seq<OpenNode>, o: seq<OpenNode>, e: OpenNode)
    requires forall j :: |openSet| <= j < |o| ==> !InOpenSet(o[..j], CellOf(o[j]))
    requires !InOpenSet(o, CellOf(e))
    ensures forall j :: |openSet| <= j < |o + [e]| ==> !InOpenSet((o + [e])[..j], CellOf((o + [e])[j]))
  {
    forall j | |openSet| <= j < |o + [e]|
      ensures !InOpenSet((o + [e])[..j], CellOf((o + [e])[j]))
    {
      if j < |o| {
        assert (o + [e])[..j] == o[..j];
      } else {
        assert (o + [e])[..j] == o;
      }
    }
  }

  /** v is a walkable neighbour of cur whose tentative score, cur's g (missing as
      0) plus one, beats its stored g (missing or 0 as Infinity). */
  ghost predicate Improves(obstacles: seq<seq<bool>>, gScore: map<Cell, nat>, cur: Cell, v: Cell)
    requires Shaped(obstacles)
  {
    Adjacent(cur, v) && IsValidMove(obstacles, v.x, v.y) &&
    BeatsStored(gScore, v, StoredOrZero(gScore, cur) + 1)
  }

  /** v now has cur as link, the tentative score as g, that plus its estimate as f,
      and an entry in the open list. */
  ghost predicate RelaxedAt(target: Cell, gScore: map<Cell, nat>, cur: Cell, v: Cell,
                            openSet': seq<OpenNode>, cameFrom': map<Cell, Cell>,
                            gScore': map<Cell, nat>, fScore': map<Cell, int>)
  {
    v in cameFrom' && cameFrom'[v] == cur &&
    v in gScore' && gScore'[v] == StoredOrZero(gScore, cur) + 1 &&
    v in fScore' && fScore'[v] == StoredOrZero(gScore, cur) + 1 + Heuristic(v, target) &&
    InOpenSet(openSet', v)
  }

  /** The link, g and f of v are what they were. */
  ghost predicate KeptAt(v: Cell, cameFrom: map<Cell, Cell>, gScore: map<Cell, nat>, fScore: map<Cell, int>,
                         cameFrom': map<Cell, Cell>, gScore': map<Cell, nat>, fScore': map<Cell, int>)
  {
    (v in cameFrom' <==> v in cameFrom) && (v in cameFrom ==> cameFrom'[v] == cameFrom[v]) &&
    (v in gScore' <==> v in gScore) && (v in gScore ==> gScore'[v] == gScore[v]) &&
    (v in fScore' <==> v in fScore) && (v in fScore ==> fScore'[v] == fScore[v])
  }

  /** The improving neighbours among the first i are relaxed. */
  ghost predicate RelaxedUpTo(obstacles: seq<seq<bool>>, target: Cell, gScore: map<Cell, nat>, cur: Cell, i: int,
                              openSet': seq<OpenNode>, cameFrom': map<Cell, Cell>,
                              gScore': map<Cell, nat>, fScore': map<Cell, int>)
    requires Shaped(obstacles) && 0 <= i <= |Directions|
  {
    forall k :: 0 <= k < i && Improves(obstacles, gScore, cur, Neighbour(cur, k)) ==>
      RelaxedAt(target, gScore, cur, Neighbour(cur, k), openSet', cameFrom', gScore', fScore')
  }

  /** The neighbours from the i-th on are untouched. */
  ghost predicate KeptFrom(cameFrom: map<Cell, Cell>, gScore: map<Cell, nat>, fScore: map<Cell, int>,
                           cur: Cell, i: int,
                           cameFrom': map<Cell, Cell>, gScore': map<Cell, nat>, fScore': map<Cell, int>)
    requires 0 <= i <= |Directions|
  {
    forall k :: i <= k < |Directions| ==> KeptAt(Neighbour(cur, k), cameFrom, gScore, fScore, cameFrom', gScore', fScore')
  }

  /** Every cell that does not improve is untouched. */
  ghost predicate KeptElsewhere(obstacles: seq<seq<bool>>, cameFrom: map<Cell, Cell>, gScore: map<Cell, nat>,
                                fScore: map<Cell, int>, cur: Cell,
                                cameFrom': map<Cell, Cell>, gScore': map<Cell, nat>, fScore': map<Cell, int>)
    requires Shaped(obstacles)
  {
    forall v :: !Improves(obstacles, gScore, cur, v) ==> KeptAt(v, cameFrom, gScore, fScore, cameFrom', gScore', fScore')
  }

  /** The open list has only grown, by entries for improving cells with their tentative f. */
  ghost predicate GrownBy(obstacles: seq<seq<bool>>, target: Cell, gScore: map<Cell, nat>, cur: Cell,
                          openSet: seq<OpenNode>, openSet': seq<OpenNode>)
    requires Shaped(obstacles)
  {
    openSet <= openSet' &&
    forall j :: |openSet| <= j < |openSet'| ==>
      Improves(obstacles, gScore, cur, CellOf(openSet'[j])) &&
      openSet'[j].f == StoredOrZero(gScore, cur) + 1 + Heuristic(CellOf(openSet'[j]), target)
  }

  /** What the loop over the directions has done after its first i turns to the
      state (openSet, cameFrom, gScore, fScore) it started in. */
  ghost predicate Tracked(obstacles: seq<seq<bool>>, target: Cell, cur: Cell,
                          openSet: seq<OpenNode>, cameFrom: map<Cell, Cell>,
                          gScore: map<Cell, nat>, fScore: map<Cell, int>, i: int,
                          openSet': seq<OpenNode>, cameFrom': map<Cell, Cell>,
                          gScore': map<Cell, nat>, fScore': map<Cell, int>)
    requires Shaped(obstacles) && 0 <= i <= |Directions|
  {
    RelaxedUpTo(obstacles, target, gScore, cur, i, openSet', cameFrom', gScore', fScore') &&
    KeptFrom(cameFrom, gScore, fScore, cur, i, cameFrom', gScore', fScore') &&
    KeptElsewhere(obstacles, cameFrom, gScore, fScore, cur, cameFrom', gScore', fScore') &&
    GrownBy(obstacles, target, gScore, cur, openSet, openSet')
  }

  /** One turn of the loop over the directions, for the i-th neighbour next: if it
      improves, it is relaxed (and appended to the open list unless an entry for
      it is there); otherwise nothing changes. Either way Tracked advances to i + 1. */
  lemma TrackedStep(obstacles: seq<seq<bool>>, target: Cell, cur: Cell,
                    openSet: seq<OpenNode>, cameFrom: map<Cell, Cell>,
                    gScore: map<Cell, nat>, fScore: map<Cell, int>, i: int,
                    o: seq<OpenNode>, c: map<Cell, Cell>, g: map<Cell, nat>, f: map<Cell, int>,
                    o': seq<OpenNode>, c': map<Cell, Cell>, g': map<Cell, nat>, f': map<Cell, int>)
    requires Shaped(obstacles) && 0 <= i < |Directions|
    requires Tracked(obstacles, target, cur, openSet, cameFrom, gScore, fScore, i, o, c, g, f)
    requires var next, t := Neighbour(cur, i), StoredOrZero(gScore, cur) + 1;
             if Improves(obstacles, gScore, cur, next) then
               c' == c[next := cur] && g' == g[next := t] && f' == f[next := t + Heuristic(next, target)] &&
               (if InOpenSet(o, next) then o' == o else o' == o + [OpenNode(next.x, next.y, t + Heuristic(next, target))])
             else
               c' == c && g' == g && f' == f && o' == o
    ensures Tracked(obstacles, target, cur, openSet, cameFrom, gScore, fScore, i + 1, o', c', g', f')
  {
    var next := Neighbour(cur, i);
    if Improves(obstacles, gScore, cur, next) {
      TrackedAppend(obstacles, target, cur, openSet, gScore, next, o, o');
      RelaxedUpToStep(obstacles, target, gScore, cur, i, o, c, g, f, o');
      KeptFromStep(cameFrom, gScore, fScore, cur, i, c, g, f, c', g', f');
      KeptElsewhereStep(obstacles, cameFrom, gScore, fScore, cur, next, c, g, f, c', g', f');
    } else {
      assert RelaxedUpTo(obstacles, target, gScore, cur, i + 1, o', c', g', f') by {
        forall k | 0 <= k < i + 1 && Improves(obstacles, gScore, cur, Neighbour(cur, k))
          ensures RelaxedAt(target, gScore, cur, Neighbour(cur, k), o', c', g', f')
        {
        }
      }
    }
  }

  /** A relaxation of the i-th neighbour extends RelaxedUpTo to i + 1. */
  lemma RelaxedUpToStep(obstacles: seq<seq<bool>>, target: Cell, gScore: map<Cell, nat>, cur: Cell, i: int,
                        o: seq<OpenNode>, c: map<Cell, Cell>, g: map<Cell, nat>, f: map<Cell, int>,
                        o': seq<OpenNode>)
    requires Shaped(obstacles) && 0 <= i < |Directions|
    requires RelaxedUpTo(obstacles, target, gScore, cur, i, o, c, g, f)
    requires o <= o' && InOpenSet(o', Neighbour(cur, i))
    ensures var next, t := Neighbour(cur, i), StoredOrZero(gScore, cur) + 1;
            RelaxedUpTo(obstacles, target, gScore, cur, i + 1, o',
                        c[next := cur], g[next := t], f[next := t + Heuristic(next, target)])
  {
    var next, t := Neighbour(cur, i), StoredOrZero(gScore, cur) + 1;
    var c', g', f' := c[next := cur], g[next := t], f[next := t + Heuristic(next, target)];
    forall k | 0 <= k < i + 1 && Improves(obstacles, gScore, cur, Neighbour(cur, k))
      ensures RelaxedAt(target, gScore, cur, Neighbour(cur, k), o', c', g', f')
    {
      if k < i {
        NeighboursDistinct(cur, k, i);
        InOpenSetGrows(o, o', Neighbour(cur, k));
      }
    }
  }

  /** A relaxation of the i-th neighbour leaves the later ones untouched. */
  lemma KeptFromStep(cameFrom: map<Cell, Cell>, gScore: map<Cell, nat>, fScore: map<Cell, int>,
                     cur: Cell, i: int,
                     c: map<Cell, Cell>, g: map<Cell, nat>, f: map<Cell, int>,
                     c': map<Cell, Cell>, g': map<Cell, nat>, f': map<Cell, int>)
    requires 0 <= i < |Directions|
    requires KeptFrom(cameFrom, gScore, fScore, cur, i, c, g, f)
    requires var next := Neighbour(cur, i);
             c'.Keys == c.Keys + {next} && g'.Keys == g.Keys + {next} && f'.Keys == f.Keys + {next} &&
             (forall v :: v in c && v != next ==> c'[v] == c[v]) &&
             (forall v :: v in g && v != next ==> g'[v] == g[v]) &&
             (forall v :: v in f && v != next ==> f'[v] == f[v])
    ensures KeptFrom(cameFrom, gScore, fScore, cur, i + 1, c', g', f')
  {
    forall k | i + 1 <= k < |Directions|
      ensures KeptAt(Neighbour(cur, k), cameFrom, gScore, fScore, c', g', f')
    {
      NeighboursDistinct(cur, k, i);
    }
  }

  /** A relaxation of an improving cell leaves every cell that does not improve untouched. */
  lemma KeptElsewhereStep(obstacles: seq<seq<bool>>, cameFrom: map<Cell, Cell>, gScore: map<Cell, nat>,
                          fScore: map<Cell, int>, cur: Cell, next: Cell,
                          c: map<Cell, Cell>, g: map<Cell, nat>, f: map<Cell, int>,
                          c': map<Cell, Cell>, g': map<Cell, nat>, f': map<Cell, int>)
    requires Shaped(obstacles)
    requires KeptElsewhere(obstacles, cameFrom, gScore, fScore, cur, c, g, f)
    requires Improves(obstacles, gScore, cur, next)
    requires c'.Keys == c.Keys + {next} && g'.Keys == g.Keys + {next} && f'.Keys == f.Keys + {next} &&
             (forall v :: v in c && v != next ==> c'[v] == c[v]) &&
             (forall v :: v in g && v != next ==> g'[v] == g[v]) &&
             (forall v :: v in f && v != next ==> f'[v] == f[v])
    ensures KeptElsewhere(obstacles, cameFrom, gScore, fScore, cur, c', g', f')
  {
    forall v | !Improves(obstacles, gScore, cur, v)
      ensures KeptAt(v, cameFrom, gScore, fScore, c', g', f')
    {
      assert KeptAt(v, cameFrom, gScore, fScore, c, g, f);
    }
  }

  /** The open-list part of a relaxation: next gets an entry, and every entry past
      the original list is for an improving cell with its tentative f. */
  lemma TrackedAppend(obstacles: seq<seq<bool>>, target: Cell, cur: Cell,
                      openSet: seq<OpenNode>, gScore: map<Cell, nat>, next: Cell,
                      o: seq<OpenNode>, o': seq<OpenNode>)
    requires Shaped(obstacles)
    requires Improves(obstacles, gScore, cur, next)
    requires GrownBy(obstacles, target, gScore, cur, openSet, o)
    requires var t := StoredOrZero(gScore, cur) + 1;
             if InOpenSet(o, next) then o' == o else o' == o + [OpenNode(next.x, next.y, t + Heuristic(next, target))]
    ensures InOpenSet(o', next) && o <= o'
    ensures GrownBy(obstacles, target, gScore, cur, openSet, o')
  {
    if !InOpenSet(o, next) {
      assert o'[|o'| - 1].x == next.x && o'[|o'| - 1].y == next.y;
      forall j | |openSet| <= j < |o'|
        ensures Improves(obstacles, gScore, cur, CellOf(o'[j])) &&
                o'[j].f == StoredOrZero(gScore, cur) + 1 + Heuristic(CellOf(o'[j]), target)
      {
        if j < |o| {
          assert o'[j] == o[j];
        }
      }
    }
  }

  /** A turn of the loop over the directions for the i-th neighbour next when next
      is walkable and its tentative score beats the stored one: next is relaxed, and
      o' is the open list after the turn, o itself when an entry for next is there
      and o with next appended otherwise. Tracked advances and cur keeps its g. */
  lemma TrackedRelax(obstacles: seq<seq<bool>>, target: Cell, cur: Cell,
                     openSet: seq<OpenNode>, cameFrom: map<Cell, Cell>,
                     gScore: map<Cell, nat>, fScore: map<Cell, int>, i: int, next: Cell,
                     o: seq<OpenNode>, c: map<Cell, Cell>, g: map<Cell, nat>, f: map<Cell, int>,
                     o': seq<OpenNode>)
    requires Shaped(obstacles) && 0 <= i < |Directions| && next == Neighbour(cur, i)
    requires Tracked(obstacles, target, cur, openSet, cameFrom, gScore, fScore, i, o, c, g, f)
    requires StoredOrZero(g, cur) == StoredOrZero(gScore, cur)
    requires IsValidMove(obstacles, next.x, next.y) && BeatsStored(g, next, StoredOrZero(g, cur) + 1)
    requires if InOpenSet(o, next) then o' == o
             else o' == o + [OpenNode(next.x, next.y, StoredOrZero(g, cur) + 1 + Heuristic(next, target))]
    ensures var t := StoredOrZero(g, cur) + 1;
            Tracked(obstacles, target, cur, openSet, cameFrom, gScore, fScore, i + 1,
                    o', c[next := cur], g[next := t], f[next := t + Heuristic(next, target)]) &&
            StoredOrZero(g[next := t], cur) == StoredOrZero(gScore, cur)
  {
    var t := StoredOrZero(g, cur) + 1;
    DirectionIsStep(cur, i);
    assert KeptAt(next, cameFrom, gScore, fScore, c, g, f);
    assert Improves(obstacles, gScore, cur, next);
    TrackedStep(obstacles, target, cur, openSet, cameFrom, gScore, fScore, i, o, c, g, f,
                o', c[next := cur], g[next := t], f[next := t + Heuristic(next, target)]);
  }

  /** The other turn: next is not walkable or its tentative score does not beat
      the stored one, nothing changes, and Tracked advances. */
  lemma TrackedSkip(obstacles: seq<seq<bool>>, target: Cell, cur: Cell,
                    openSet: seq<OpenNode>, cameFrom: map<Cell, Cell>,
                    gScore: map<Cell, nat>, fScore: map<Cell, int>, i: int, next: Cell,
                    o: seq<OpenNode>, c: map<Cell, Cell>, g: map<Cell, nat>, f: map<Cell, int>)
    requires Shaped(obstacles) && 0 <= i < |Directions| && next == Neighbour(cur, i)
    requires Tracked(obstacles, target, cur, openSet, cameFrom, gScore, fScore, i, o, c, g, f)
    requires StoredOrZero(g, cur) == StoredOrZero(gScore, cur)
    requires !(IsValidMove(obstacles, next.x, next.y) && BeatsStored(g, next, StoredOrZero(g, cur) + 1))
    ensures Tracked(obstacles, target, cur, openSet, cameFrom, gScore, fScore, i + 1, o, c, g, f)
  {
    assert KeptAt(next, cameFrom, gScore, fScore, c, g, f);
    assert !Improves(obstacles, gScore, cur, next);
    TrackedStep(obstacles, target, cur, openSet, cameFrom, gScore, fScore, i, o, c, g, f, o, c, g, f);
  }

  /** The relaxations of one expansion keep the chain of links sound: a relaxed
      cell links to cur, whose g is untouched and one less than the cell's new g;
      a kept link into a relaxed cell still lowers g, since that cell's g only fell;
      neither depends on the order the neighbours were relaxed in. */
  lemma ExpandedKeepsChain(obstacles: seq<seq<bool>>, start: Cell, target: Cell, cur: Cell,
                           cameFrom: map<Cell, Cell>, gScore: map<Cell, nat>, fScore: map<Cell, int>,
                           o: seq<OpenNode>, c: map<Cell, Cell>, g: map<Cell, nat>, f: map<Cell, int>)
    requires Shaped(obstacles)
    requires ChainInvariant(start, cameFrom, gScore)
    requires forall k :: k in gScore && k != start ==> gScore[k] >= 1
    requires cur == start || cur in cameFrom
    requires forall v :: Improves(obstacles, gScore, cur, v) ==> RelaxedAt(target, gScore, cur, v, o, c, g, f)
    requires forall v :: !Improves(obstacles, gScore, cur, v) ==> KeptAt(v, cameFrom, gScore, fScore, c, g, f)
    ensures ChainInvariant(start, c, g)
  {
    assert KeptAt(cur, cameFrom, gScore, fScore, c, g, f);
    forall v | v in c
      ensures v in g && Adjacent(c[v], v) && (c[v] == start || c[v] in c)
    {
      if Improves(obstacles, gScore, cur, v) {
        assert RelaxedAt(target, gScore, cur, v, o, c, g, f);
      } else {
        assert KeptAt(v, cameFrom, gScore, fScore, c, g, f);
        var u := cameFrom[v];
        if Improves(obstacles, gScore, cur, u) {
          assert RelaxedAt(target, gScore, cur, u, o, c, g, f);
        } else {
          assert KeptAt(u, cameFrom, gScore, fScore, c, g, f);
        }
      }
    }
    forall v | v in c && v != start && c[v] != start
      ensures g[c[v]] < g[v]
    {
      if Improves(obstacles, gScore, cur, v) {
        assert RelaxedAt(target, gScore, cur, v, o, c, g, f);
        assert cur in gScore;
      } else {
        assert KeptAt(v, cameFrom, gScore, fScore, c, g, f);
        var u := cameFrom[v];
        if Improves(obstacles, gScore, cur, u) {
          assert RelaxedAt(target, gScore, cur, u, o, c, g, f);
          assert gScore[u] >= 1;
        } else {
          assert KeptAt(u, cameFrom, gScore, fScore, c, g, f);
        }
      }
    }
  }

  /** The relaxations of one expansion keep the search invariant. */
  lemma ExpandedKeepsInvariant(obstacles: seq<seq<bool>>, start: Cell, target: Cell, cur: Cell,
                               openSet: seq<OpenNode>, cameFrom: map<Cell, Cell>,
                               gScore: map<Cell, nat>, fScore: map<Cell, int>,
                               o: seq<OpenNode>, c: map<Cell, Cell>, g: map<Cell, nat>, f: map<Cell, int>)
    requires Shaped(obstacles)
    requires SearchInvariant(obstacles, start, openSet, cameFrom, gScore)
    requires cur == start || cur in cameFrom
    requires forall v :: Improves(obstacles, gScore, cur, v) ==> RelaxedAt(target, gScore, cur, v, o, c, g, f)
    requires forall v :: !Improves(obstacles, gScore, cur, v) ==> KeptAt(v, cameFrom, gScore, fScore, c, g, f)
    requires GrownBy(obstacles, target, gScore, cur, openSet, o)
    ensures SearchInvariant(obstacles, start, o, c, g)
  {
    ExpandedKeepsChain(obstacles, start, target, cur, cameFrom, gScore, fScore, o, c, g, f);
    assert start in g by {
      if !Improves(obstacles, gScore, cur, start) {
        assert KeptAt(start, cameFrom, gScore, fScore, c, g, f);
      }
    }
    forall v | v in c
      ensures IsValidTarget(obstacles, v)
    {
      if !Improves(obstacles, gScore, cur, v) {
        assert KeptAt(v, cameFrom, gScore, fScore, c, g, f);
      }
    }
    forall k | k in g && k != start
      ensures g[k] >= 1
    {
      if !Improves(obstacles, gScore, cur, k) {
        assert KeptAt(k, cameFrom, gScore, fScore, c, g, f);
      }
    }
    forall n | n in o
      ensures CellOf(n) == start || CellOf(n) in c
    {
      var j :| 0 <= j < |o| && o[j] == n;
      if j < |openSet| {
        assert n in openSet;
      }
      if Improves(obstacles, gScore, cur, CellOf(n)) {
        assert RelaxedAt(target, gScore, cur, CellOf(n), o, c, g, f);
      } else {
        assert KeptAt(CellOf(n), cameFrom, gScore, fScore, c, g, f);
      }
    }
  }

  /** What one expansion does to the maps beyond the invariant: every link is an
      original one or points to cur, and every open entry beyond the original list
      is for a cell linked to cur. */
  lemma ExpandedKeepsHistory(obstacles: seq<seq<bool>>, target: Cell, cur: Cell,
                             openSet: seq<OpenNode>, cameFrom: map<Cell, Cell>,
                             gScore: map<Cell, nat>, fScore: map<Cell, int>,
                             o: seq<OpenNode>, c: map<Cell, Cell>, g: map<Cell, nat>, f: map<Cell, int>)
    requires Shaped(obstacles)
    requires forall v :: Improves(obstacles, gScore, cur, v) ==> RelaxedAt(target, gScore, cur, v, o, c, g, f)
    requires forall v :: !Improves(obstacles, gScore, cur, v) ==> KeptAt(v, cameFrom, gScore, fScore, c, g, f)
    requires GrownBy(obstacles, target, gScore, cur, openSet, o)
    ensures forall v :: v in c ==> (v in cameFrom && c[v] == cameFrom[v]) || c[v] == cur
    ensures forall n :: n in o && n !in openSet ==> CellOf(n) in c && c[CellOf(n)] == cur
  {
    forall v | v in c
      ensures (v in cameFrom && c[v] == cameFrom[v]) || c[v] == cur
    {
      if Improves(obstacles, gScore, cur, v) {
        assert RelaxedAt(target, gScore, cur, v, o, c, g, f);
      } else {
        assert KeptAt(v, cameFrom, gScore, fScore, c, g, f);
      }
    }
    forall n | n in o && n !in openSet
      ensures CellOf(n) in c && c[CellOf(n)] == cur
    {
      var j :| 0 <= j < |o| && o[j] == n;
      assert RelaxedAt(target, gScore, cur, CellOf(n), o, c, g, f);
    }
  }

  /** After all four turns every improving cell, being one of the four neighbours,
      is relaxed. */
  lemma ExpandedAll(obstacles: seq<seq<bool>>, target: Cell, cur: Cell,
                    openSet: seq<OpenNode>, cameFrom: map<Cell, Cell>,
                    gScore: map<Cell, nat>, fScore: map<Cell, int>,
                    o: seq<OpenNode>, c: map<Cell, Cell>, g: map<Cell, nat>, f: map<Cell, int>)
    requires Shaped(obstacles)
    requires Tracked(obstacles, target, cur, openSet, cameFrom, gScore, fScore, |Directions|, o, c, g, f)
    ensures forall v :: Improves(obstacles, gScore, cur, v) ==> RelaxedAt(target, gScore, cur, v, o, c, g, f)
  {
    forall v | Improves(obstacles, gScore, cur, v)
      ensures RelaxedAt(target, gScore, cur, v, o, c, g, f)
    {
      AdjacentIsOneDirection(cur, v);
      var k :| 0 <= k < |Directions| && v == Shift(cur, Directions[k]);
      assert v == Neighbour(cur, k);
    }
  }

  /** The for-loop over the four directions after a cell is taken off the open list:
      each walkable neighbour whose tentative score beats its stored one gets
      cur as predecessor and its new g and f, and joins the open list if no entry
      for it is there yet (an entry that is there keeps its old f); every other
      cell keeps its link, g and f. */
  method ExpandNeighbours(obstacles: seq<seq<bool>>, target: Cell, cur: Cell,
                          openSet: seq<OpenNode>, cameFrom: map<Cell, Cell>,
                          gScore: map<Cell, nat>, fScore: map<Cell, int>)
    returns (openSet': seq<OpenNode>, cameFrom': map<Cell, Cell>,
             gScore': map<Cell, nat>, fScore': map<Cell, int>)
    requires Shaped(obstacles)
    ensures forall v :: Improves(obstacles, gScore, cur, v) ==>
              RelaxedAt(target, gScore, cur, v, openSet', cameFrom', gScore', fScore')
    ensures forall v :: !Improves(obstacles, gScore, cur, v) ==>
              KeptAt(v, cameFrom, gScore, fScore, cameFrom', gScore', fScore')
    ensures openSet <= openSet'
    ensures forall j :: |openSet| <= j < |openSet'| ==>
              Improves(obstacles, gScore, cur, CellOf(openSet'[j])) &&
              openSet'[j].f == StoredOrZero(gScore, cur) + 1 + Heuristic(CellOf(openSet'[j]), target)
    ensures forall v :: v in cameFrom' ==> (v in cameFrom && cameFrom'[v] == cameFrom[v]) || cameFrom'[v] == cur
    ensures forall n :: n in openSet' && n !in openSet ==> CellOf(n) in cameFrom' && cameFrom'[CellOf(n)] == cur
    ensures forall j :: |openSet| <= j < |openSet'| ==> !InOpenSet(openSet'[..j], CellOf(openSet'[j]))
  {
    openSet', cameFrom', gScore', fScore' := openSet, cameFrom, gScore, fScore;
    for i := 0 to |Directions|
      invariant Tracked(obstacles, target, cur, openSet, cameFrom, gScore, fScore, i,
                        openSet', cameFrom', gScore', fScore')
      invariant StoredOrZero(gScore', cur) == StoredOrZero(gScore, cur)
      invariant forall j :: |openSet| <= j < |openSet'| ==> !InOpenSet(openSet'[..j], CellOf(openSet'[j]))
    {
      var next := Neighbour(cur, i);
      if !IsValidMove(obstacles, next.x, next.y) {
        TrackedSkip(obstacles, target, cur, openSet, cameFrom, gScore, fScore, i, next,
                    openSet', cameFrom', gScore', fScore');
        continue;
      }
      var tentativeGScore := StoredOrZero(gScore', cur) + 1;
      if BeatsStored(gScore', next, tentativeGScore) {
        if InOpenSet(openSet', next) {
          TrackedRelax(obstacles, target, cur, openSet, cameFrom, gScore, fScore, i, next,
                       openSet', cameFrom', gScore', fScore', openSet');
        } else {
          TrackedRelax(obstacles, target, cur, openSet, cameFrom, gScore, fScore, i, next,
                       openSet', cameFrom', gScore', fScore',
                       openSet' + [OpenNode(next.x, next.y, tentativeGScore + Heuristic(next, target))]);
        }
        cameFrom' := cameFrom'[next := cur];
        gScore' := gScore'[next := tentativeGScore];
        fScore' := fScore'[next := tentativeGScore + Heuristic(next, target)];
        if !InOpenSet(openSet', next) {
          AppendFresh(openSet, openSet', OpenNode(next.x, next.y, tentativeGScore + Heuristic(next, target)));
          // the entry carries the f just stored for next
          openSet' := openSet' + [OpenNode(next.x, next.y, tentativeGScore + Heuristic(next, target))];
        }
      } else {
        TrackedSkip(obstacles, target, cur, openSet, cameFrom, gScore, fScore, i, next,
                    openSet', cameFrom', gScore', fScore');
      }
    }
    ExpandedAll(obstacles, target, cur, openSet, cameFrom, gScore, fScore, openSet', cameFrom', gScore', fScore');
    ExpandedKeepsHistory(obstacles, target, cur, openSet, cameFrom, gScore, fScore,
                         openSet', cameFrom', gScore', fScore');
  }

  /** A* from start towards target, taking at most fuel entries off the open list.
      Returns the path from start to target, or [] when the open list runs out
      (or the fuel does). */
  method FindPath(obstacles: seq<seq<bool>>, start: Cell, target: Cell, fuel: nat) returns (path: seq<Cell>)
    requires Shaped(obstacles)
    ensures path != [] ==> FoundPath(obstacles, start, target, path)
    ensures start == target && fuel > 0 ==> path == [start]
    ensures start != target && !IsValidTarget(obstacles, target) ==> path == []
  {
    var openSet := [OpenNode(start.x, start.y, 0)];
    var cameFrom: map<Cell, Cell> := map[];
    var gScore: map<Cell, nat> := map[start := 0];
    var fScore: map<Cell, int> := map[start := Heuristic(start, target)];
    var taken := 0;
    while |openSet| > 0 && taken < fuel
      invariant SearchInvariant(obstacles, start, openSet, cameFrom, gScore)
      invariant taken == 0 ==> openSet == [OpenNode(start.x, start.y, 0)] && cameFrom == map[]
      invariant start == target ==> taken == 0
      decreases fuel - taken
    {
      PopKeepsInvariant(obstacles, start, openSet, cameFrom, gScore);
      var sorted := SortByF(openSet);
      var current := sorted[0];
      openSet := sorted[1..];
      taken := taken + 1;
      var cur := CellOf(current);
      if cur == target {
        path := ReconstructPath(cameFrom, start, target, gScore);
        LinkChainIsFoundPath(obstacles, start, target, cameFrom, path);
        return;
      }
      var openSet', cameFrom', gScore', fScore' :=
        ExpandNeighbours(obstacles, target, cur, openSet, cameFrom, gScore, fScore);
      ExpandedKeepsInvariant(obstacles, start, target, cur, openSet, cameFrom, gScore, fScore,
                             openSet', cameFrom', gScore', fScore');
      openSet, cameFrom, gScore, fScore := openSet', cameFrom', gScore', fScore';
    }
    path := [];
  }
}
