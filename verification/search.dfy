/** `DepthFirstSearch`: the win oracle. From each origin the team owns it
    follows, at every step, only the FIRST unvisited neighbour of the team
    (in the constructor's push order) and reports success as soon as that
    neighbour is an endpoint. The visited set is cleared once per `IsPath`
    call and carried from one origin to the next. */
module Search {
  import opened Teams
  import opened Boards
  import opened Sequences

  /** Result of scanning a neighbour list: the index of the first
      acceptable neighbour, or none. */
  datatype Pick = NoPick | PickAt(index: nat)

  /** Result of `Recurse`: its boolean answer and the visit map afterwards
      (the set of ids marked `true`). */
  datatype Visit = Visit(found: bool, visited: set<nat>)

  /** All tile ids of the board. */
  function Ids(b: Board): set<nat>
  {
    Below(|b.tiles|)
  }

  /** A neighbour the loop in `Recurse` does not skip: owned by `team` and
      not yet visited. */
  predicate Eligible(b: Board, n: nat, team: Team, visited: set<nat>)
  {
    n < |b.tiles| && b.tiles[n] == team && n !in visited
  }

  /** The loop over `current->neighbours` up to its first non-skipped entry. */
  function FirstEligible(b: Board, ns: seq<nat>, team: Team, visited: set<nat>): (r: Pick)
    ensures r.PickAt? ==> r.index < |ns| && Eligible(b, ns[r.index], team, visited)
    ensures r.PickAt? ==> forall k :: 0 <= k < r.index ==> !Eligible(b, ns[k], team, visited)
    ensures r.NoPick? ==> forall k :: 0 <= k < |ns| ==> !Eligible(b, ns[k], team, visited)
  {
    if |ns| == 0 then NoPick
    else if Eligible(b, ns[0], team, visited) then PickAt(0)
    else match FirstEligible(b, ns[1..], team, visited)
      case NoPick => NoPick
      case PickAt(k) => PickAt(k + 1)
  }

  /** Adding an unvisited tile to the visit set shrinks the unvisited part. */
  lemma UnvisitedShrinks(ids: set<nat>, v: set<nat>, n: nat)
    requires n in ids && n !in v
    ensures |ids - (v + {n})| < |ids - v|
  {
    assert ids - (v + {n}) == (ids - v) - {n};
  }

  /** `Recurse`: mark `current` visited, take its first eligible neighbour;
      succeed if it is an endpoint, otherwise continue from it alone. Every
      call marks a tile that was unvisited, so the count of unvisited tiles
      measures termination. */
  function Recurse(b: Board, current: nat, endpoints: seq<nat>, team: Team, visited: set<nat>): (r: Visit)
    requires b.WellFormed() && current < b.size
    ensures visited + {current} <= r.visited
    ensures forall n :: n in r.visited && n !in visited && n != current ==> Eligible(b, n, team, visited)
    decreases |Ids(b) - (visited + {current})|
  {
    var v := visited + {current};
    var ns := b.NeighboursOf(current);
    match FirstEligible(b, ns, team, v)
    case NoPick => Visit(false, v)
    case PickAt(k) =>
      if ns[k] in endpoints then Visit(true, v)
      else
        UnvisitedShrinks(Ids(b), v, ns[k]);
        Recurse(b, ns[k], endpoints, team, v)
  }

  /** The loop over `origins` in `IsPath`, from position `i`, with the visit
      set left by the earlier origins. */
  function IsPathFrom(b: Board, origins: seq<nat>, i: nat, endpoints: seq<nat>, team: Team, visited: set<nat>): (found: bool)
    requires b.WellFormed() && AllBelow(origins, b.size) && i <= |origins|
    ensures found ==> exists k :: i <= k < |origins| && b.tiles[origins[k]] == team
    decreases |origins| - i
  {
    if i == |origins| then false
    else if b.tiles[origins[i]] == team then
      var r := Recurse(b, origins[i], endpoints, team, visited);
      r.found || IsPathFrom(b, origins, i + 1, endpoints, team, r.visited)
    else IsPathFrom(b, origins, i + 1, endpoints, team, visited)
  }

  /** `IsPath`: reset the visit map, then try each owned origin in turn. */
  function IsPath(b: Board, origins: seq<nat>, endpoints: seq<nat>, team: Team): (found: bool)
    requires b.WellFormed() && AllBelow(origins, b.size)
    ensures found ==> exists k :: 0 <= k < |origins| && b.tiles[origins[k]] == team
  {
    IsPathFrom(b, origins, 0, endpoints, team, {})
  }

  /** A walk over adjacent tiles all owned by `team`. */
  predicate IsChain(b: Board, team: Team, p: seq<nat>)
    requires b.WellFormed()
  {
    && |p| >= 1
    && (forall k :: 0 <= k < |p| ==> p[k] < b.size && b.tiles[p[k]] == team)
    && (forall k :: 0 <= k < |p| - 1 ==> p[k] < b.size && p[k + 1] in b.NeighboursOf(p[k]))
  }

  /** Prefixing a tile of the team adjacent to the head extends a chain. */
  lemma ChainCons(b: Board, team: Team, x: nat, q: seq<nat>)
    requires b.WellFormed() && IsChain(b, team, q)
    requires x < b.size && b.tiles[x] == team && q[0] in b.NeighboursOf(x)
    ensures IsChain(b, team, [x] + q)
  {
    var p := [x] + q;
    forall k | 0 <= k < |p| - 1
      ensures p[k] < b.size && p[k + 1] in b.NeighboursOf(p[k])
    {
      if k > 0 {
        assert p[k] == q[k - 1] && p[k + 1] == q[k];
      }
    }
  }

  /** When `Recurse` succeeds from a tile of `team`, a chain of the team's
      tiles leads from that tile through at least one step to an endpoint. */
  lemma {:induction false} RecurseSound(b: Board, current: nat, endpoints: seq<nat>, team: Team, visited: set<nat>)
    returns (p: seq<nat>)
    requires b.WellFormed() && current < b.size && b.tiles[current] == team
    requires Recurse(b, current, endpoints, team, visited).found
    ensures IsChain(b, team, p) && |p| >= 2
    ensures p[0] == current && p[|p| - 1] in endpoints
    decreases |Ids(b) - (visited + {current})|
  {
    var v := visited + {current};
    var n := RecurseStep(b, current, endpoints, team, visited);
    assert IsChain(b, team, [n]);
    if n in endpoints {
      ChainCons(b, team, current, [n]);
      p := [current, n];
    } else {
      UnvisitedShrinks(Ids(b), v, n);
      var q := RecurseSound(b, n, endpoints, team, v);
      ChainCons(b, team, current, q);
      p := [current] + q;
    }
  }

  /** A successful `Recurse` moved to a neighbour of the team that was not
      yet visited, and either that neighbour is an endpoint or the search
      succeeds from it. */
  lemma RecurseStep(b: Board, current: nat, endpoints: seq<nat>, team: Team, visited: set<nat>)
    returns (n: nat)
    requires b.WellFormed() && current < b.size
    requires Recurse(b, current, endpoints, team, visited).found
    ensures n < b.size && b.tiles[n] == team && n in b.NeighboursOf(current)
    ensures n !in visited + {current}
    ensures n in endpoints || Recurse(b, n, endpoints, team, visited + {current}).found
  {
    var ns := b.NeighboursOf(current);
    var pick := FirstEligible(b, ns, team, visited + {current});
    n := ns[pick.index];
  }

  /** Success from position `i` comes with a chain from one of the origins. */
  lemma {:induction false} IsPathFromSound(b: Board, origins: seq<nat>, i: nat, endpoints: seq<nat>, team: Team, visited: set<nat>)
    returns (p: seq<nat>)
    requires b.WellFormed() && AllBelow(origins, b.size) && i <= |origins|
    requires IsPathFrom(b, origins, i, endpoints, team, visited)
    ensures IsChain(b, team, p) && |p| >= 2
    ensures p[0] in origins[i..] && p[|p| - 1] in endpoints
    decreases |origins| - i
  {
    var o := origins[i];
    if b.tiles[o] == team && Recurse(b, o, endpoints, team, visited).found {
      p := RecurseSound(b, o, endpoints, team, visited);
      assert o == origins[i..][0];
    } else {
      var v := if b.tiles[o] == team then Recurse(b, o, endpoints, team, visited).visited else visited;
      p := IsPathFromSound(b, origins, i + 1, endpoints, team, v);
      LaterOrigin(origins, i, p[0]);
    }
  }

  /** An origin after position `i` is an origin from position `i` on. */
  lemma LaterOrigin(origins: seq<nat>, i: nat, x: nat)
    requires i < |origins| && x in origins[i + 1..]
    ensures x in origins[i..]
  {
    var k :| 0 <= k < |origins[i + 1..]| && origins[i + 1..][k] == x;
    assert origins[i..][k + 1] == x;
  }

  /** Soundness of the win oracle: a `true` answer means a chain of the
      team's tiles joins an origin to an endpoint. */
  lemma IsPathSound(b: Board, origins: seq<nat>, endpoints: seq<nat>, team: Team) returns (p: seq<nat>)
    requires b.WellFormed() && AllBelow(origins, b.size)
    requires IsPath(b, origins, endpoints, team)
    ensures IsChain(b, team, p) && |p| >= 2
    ensures p[0] in origins && p[|p| - 1] in endpoints
  {
    p := IsPathFromSound(b, origins, 0, endpoints, team, {});
    assert origins[0..] == origins;
  }

  /** No origin owned by `team` means no path, whatever the visit set. */
  lemma {:induction false} NoOwnedOriginNoPath(b: Board, origins: seq<nat>, i: nat, endpoints: seq<nat>, team: Team, visited: set<nat>)
    requires b.WellFormed() && AllBelow(origins, b.size) && i <= |origins|
    requires forall k :: 0 <= k < |origins| ==> b.tiles[origins[k]] != team
    ensures !IsPathFrom(b, origins, i, endpoints, team, visited)
    decreases |origins| - i
  {
    if i < |origins| {
      NoOwnedOriginNoPath(b, origins, i + 1, endpoints, team, visited);
    }
  }

  /** On a board where `team` owns no tile at all (in particular the empty
      board, for either colour) there is never a path. */
  lemma UnownedBoardNoPath(b: Board, origins: seq<nat>, endpoints: seq<nat>, team: Team)
    requires b.WellFormed() && AllBelow(origins, b.size)
    requires forall k :: 0 <= k < |b.tiles| ==> b.tiles[k] != team
    ensures !IsPath(b, origins, endpoints, team)
  {
    NoOwnedOriginNoPath(b, origins, 0, endpoints, team, {});
  }

  /** A 3 x 3 board laid out as the constructor lays it out, with Red on
      tiles 1, 2, 3 and 6. */
  function IncompleteExample(): (b: Board)
    ensures b.WellFormed()
  {
    Board(3, 3, 9, [None, Red, Red, Red, None, None, Red, None, None],
          [0, 3, 6], [2, 5, 8], [0, 1, 2], [6, 7, 8])
  }

  /** The example's dimensions and edge lists are those `Boards.Construct`
      promises for three rows and three columns; only the ownership differs. */
  lemma ExampleLayout()
    ensures var b := IncompleteExample();
      && b.rows == 3 && b.columns == 3 && b.size == 3 * 3
      && |b.blueStarts| == 3 && (forall k :: 0 <= k < 3 ==> b.blueStarts[k] == k * 3)
      && |b.blueEnds| == 3 && (forall k :: 0 <= k < 3 ==> b.blueEnds[k] == k * 3 + 3 - 1)
      && |b.redStarts| == 3 && (forall k :: 0 <= k < 3 ==> b.redStarts[k] == k)
      && |b.redEnds| == 3 && (forall k :: 0 <= k < 3 ==> b.redEnds[k] == b.size - 3 + k)
  {
  }

  lemma ExampleNeighbours()
    ensures IncompleteExample().NeighboursOf(1) == [2, 4, 3, 0]
    ensures IncompleteExample().NeighboursOf(2) == [5, 4, 1]
    ensures IncompleteExample().NeighboursOf(3) == [4, 6, 0, 1]
  {
    assert Neighbours(1, 3, 9) == [2, 4, 3, 0];
    assert Neighbours(2, 3, 9) == [5, 4, 1];
    assert Neighbours(3, 3, 9) == [4, 6, 0, 1];
  }

  /** One unfolding of `Recurse` when no neighbour is eligible. */
  lemma RecurseStops(b: Board, current: nat, endpoints: seq<nat>, team: Team, visited: set<nat>)
    requires b.WellFormed() && current < b.size
    requires FirstEligible(b, b.NeighboursOf(current), team, visited + {current}).NoPick?
    ensures Recurse(b, current, endpoints, team, visited) == Visit(false, visited + {current})
  {
  }

  /** One unfolding of `Recurse` when the first eligible neighbour `n` is not
      an endpoint. */
  lemma RecurseMoves(b: Board, current: nat, endpoints: seq<nat>, team: Team, visited: set<nat>, n: nat)
    requires b.WellFormed() && current < b.size
    requires b.NeighboursOf(current) != [] && n == b.NeighboursOf(current)[0] && n !in endpoints
    requires Eligible(b, n, team, visited + {current})
    ensures n < b.size
    ensures Recurse(b, current, endpoints, team, visited) == Recurse(b, n, endpoints, team, visited + {current})
  {
  }

  /** From origin 1 the search walks into the dead end 2. */
  lemma ExampleDeadEnd()
    ensures Recurse(IncompleteExample(), 1, [6, 7, 8], Red, {}) == Visit(false, {1, 2})
    ensures Recurse(IncompleteExample(), 2, [6, 7, 8], Red, {1, 2}) == Visit(false, {1, 2})
  {
    var b := IncompleteExample();
    ExampleNeighbours();
    assert {1} + {2} == {1, 2} && {1, 2} + {2} == {1, 2} && {} + {1} == {1};
    assert FirstEligible(b, [5, 4, 1], Red, {1, 2}) == NoPick;
    RecurseStops(b, 2, [6, 7, 8], Red, {1});
    RecurseStops(b, 2, [6, 7, 8], Red, {1, 2});
    RecurseMoves(b, 1, [6, 7, 8], Red, {}, 2);
  }

  /** The red chain 1, 3, 6 of the example. */
  lemma ExampleChain()
    ensures IsChain(IncompleteExample(), Red, [1, 3, 6])
  {
    ExampleNeighbours();
  }

  /** Neither origin 1 nor origin 2 leads the search to the last row. */
  lemma ExampleOriginsFail()
    ensures !IsPathFrom(IncompleteExample(), [0, 1, 2], 1, [6, 7, 8], Red, {})
  {
    var b := IncompleteExample();
    ExampleDeadEnd();
    assert !IsPathFrom(b, [0, 1, 2], 3, [6, 7, 8], Red, {1, 2});
    assert !IsPathFrom(b, [0, 1, 2], 2, [6, 7, 8], Red, {1, 2});
  }

  /** The search is not complete: Red's chain 1, 3, 6 joins the first row to
      the last (3 is the down-left neighbour of 1, 6 lies below 3), but from
      origin 1 the search commits to the first eligible neighbour, 2, which
      is a dead end, and origin 2 then finds nothing new. */
  lemma IncompleteWitness()
    ensures IsChain(IncompleteExample(), Red, [1, 3, 6])
    ensures !IsPath(IncompleteExample(), [0, 1, 2], [6, 7, 8], Red)
  {
    ExampleChain();
    ExampleOriginsFail();
  }
}
