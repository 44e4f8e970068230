/** `Game`: the ownership bookkeeping of one match and its terminal flag. */
module Games {
  import opened Limits
  import opened Teams
  import opened Boards
  import opened Search

  /** `class Game`: the human's colour, the computer's colour (the opposite
      one), whether the match is over, and the board. */
  datatype Game = Game(player: Team, ai: Team, over: bool, board: Board)

  /** `Game(_player, _board)`: a fresh match in which the computer plays the
      other colour. */
  function NewGame(player: Team, board: Board): (g: Game)
    ensures g.player == player && g.board == board && !g.over
    ensures IsPlayer(g.ai) && (IsPlayer(player) ==> g.ai != g.player)
  {
    Game(player, Opposite(player), false, board)
  }

  /** What `Update` returns, and the game state it leaves behind. */
  datatype Step = Step(accepted: bool, game: Game)

  /** A chain of `team`'s tiles, two or more long, from one of its start
      tiles to one of its end tiles. */
  ghost predicate Connects(b: Board, team: Team, p: seq<nat>)
    requires b.WellFormed()
  {
    IsChain(b, team, p) && |p| >= 2 && p[0] in b.StartsOf(team) && p[|p| - 1] in b.EndsOf(team)
  }

  /** The win test `Update` runs for `team` after a claim. A win always
      comes with a connecting chain. */
  predicate Wins(b: Board, team: Team)
    requires b.WellFormed()
    ensures Wins(b, team) ==> exists p :: Connects(b, team, p)
  {
    PathConnects(b, team);
    IsPath(b, b.StartsOf(team), b.EndsOf(team), team)
  }

  /** The search's soundness, read on the team's own edges. */
  lemma PathConnects(b: Board, team: Team)
    requires b.WellFormed()
    ensures IsPath(b, b.StartsOf(team), b.EndsOf(team), team) ==> exists p :: Connects(b, team, p)
  {
    if IsPath(b, b.StartsOf(team), b.EndsOf(team), team) {
      var p := IsPathSound(b, b.StartsOf(team), b.EndsOf(team), team);
      assert Connects(b, team, p);
    }
  }

  /** `Game::Update(id, team)`. The five outcomes, in the order the source
      tests them: the match is already over (accepted, nothing changes);
      the forfeit sentinel (accepted, the match ends); an id off the board
      (rejected, nothing changes); an unowned tile (accepted, exactly that
      tile goes to `team`, and the match ends iff the team now has a path
      between its edges); an owned tile (rejected, nothing changes). */
  function Update(g: Game, id: uint32, team: Team): (r: Step)
    requires g.board.WellFormed()
    ensures r.game.board.WellFormed()
    ensures r.game.player == g.player && r.game.ai == g.ai
    ensures g.over ==> r.accepted && r.game == g
    ensures !g.over && id == UINT_MAX ==> r.accepted && r.game == g.(over := true)
    ensures !g.over && id != UINT_MAX && (id >= g.board.size || g.board.tiles[id] != None) ==>
      !r.accepted && r.game == g
    ensures !g.over && id != UINT_MAX && id < g.board.size && g.board.tiles[id] == None ==>
      && r.accepted
      && r.game.board == g.board.(tiles := r.game.board.tiles)
      && |r.game.board.tiles| == |g.board.tiles|
      && r.game.board.tiles[id] == team
      && (forall k :: 0 <= k < |g.board.tiles| && k != id ==> r.game.board.tiles[k] == g.board.tiles[k])
      && (r.game.over <==> Wins(r.game.board, team))
  {
    if g.over then Step(true, g)
    else if id == UINT_MAX then Step(true, g.(over := true))
    else if id >= g.board.size then Step(false, g)
    else if g.board.tiles[id] == None then
      var b := g.board.(tiles := g.board.tiles[id := team]);
      Step(true, g.(board := b, over := Wins(b, team)))
    else Step(false, g)
  }

  /** One call of `Update`. */
  datatype Move = Move(id: uint32, team: Team)

  /** The game after a sequence of `Update` calls, whatever each returns. */
  function Replay(g: Game, moves: seq<Move>): (r: Game)
    requires g.board.WellFormed()
    ensures r.board.WellFormed()
    decreases |moves|
  {
    if |moves| == 0 then g
    else Replay(Update(g, moves[0].id, moves[0].team).game, moves[1..])
  }

  /** Once the match is over no call changes anything. */
  lemma {:induction false} OverIsAbsorbing(g: Game, moves: seq<Move>)
    requires g.board.WellFormed() && g.over
    ensures Replay(g, moves) == g
    decreases |moves|
  {
    if |moves| > 0 {
      OverIsAbsorbing(g, moves[1..]);
    }
  }

  /** A claimed tile never changes owner again, and the board never changes
      size, whatever moves follow. */
  lemma {:induction false} ClaimsArePermanent(g: Game, moves: seq<Move>, k: nat)
    requires g.board.WellFormed()
    requires k < |g.board.tiles| && g.board.tiles[k] != None
    ensures |Replay(g, moves).board.tiles| == |g.board.tiles|
    ensures Replay(g, moves).board.tiles[k] == g.board.tiles[k]
    decreases |moves|
  {
    if |moves| > 0 {
      var next := Update(g, moves[0].id, moves[0].team).game;
      ClaimsArePermanent(next, moves[1..], k);
    }
  }

  /** A claim that ends the match is backed by a chain of the mover's tiles
      from one of its start edges to one of its end edges. */
  lemma WinningClaimIsConnected(g: Game, id: uint32, team: Team) returns (p: seq<nat>)
    requires g.board.WellFormed() && !g.over && id != UINT_MAX
    requires Update(g, id, team).game.over
    ensures var b := Update(g, id, team).game.board;
      && IsChain(b, team, p) && |p| >= 2
      && p[0] in b.StartsOf(team) && p[|p| - 1] in b.EndsOf(team)
  {
    var b := Update(g, id, team).game.board;
    p := IsPathSound(b, b.StartsOf(team), b.EndsOf(team), team);
  }
}
