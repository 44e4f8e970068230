/** `MonteCarloAI` with its random source replaced by inputs: every trial
    receives the shuffled order of the legal moves it would have drawn. */
module MonteCarlo {
  import opened Limits
  import opened Teams
  import opened Boards
  import opened Sequences
  import opened Search
  import opened Games
  import opened WinTable

  /** The ids of the unowned tiles, in id order, as `SelectTile` collects
      them before the trials. */
  function LegalMoves(tiles: seq<Team>): (ms: seq<nat>)
    ensures AllBelow(ms, |tiles|)
    ensures forall k :: 0 <= k < |ms| ==> tiles[ms[k]] == None
    ensures forall x: nat :: x < |tiles| && tiles[x] == None ==> x in ms
    ensures forall i, j :: 0 <= i < j < |ms| ==> ms[i] < ms[j]
  {
    if |tiles| == 0 then []
    else
      var last := |tiles| - 1;
      LegalMoves(tiles[..last]) + (if tiles[last] == None then [last] else [])
  }

  /** `order` is a rearrangement of `legal`: the same ids, each once. */
  predicate IsShuffleOf(order: seq<nat>, legal: seq<nat>)
  {
    && |order| == |legal|
    && NoDuplicates(order)
    && (forall x :: x in order ==> x in legal)
    && (forall x :: x in legal ==> x in order)
  }

  /** The play-out loop of `Predict`: walk `order`, skip `firstMove`, give
      every other id to `current` and then flip `current`. */
  function Playout(tiles: seq<Team>, order: seq<nat>, firstMove: nat, current: Team): (r: seq<Team>)
    requires AllBelow(order, |tiles|)
    ensures |r| == |tiles|
    ensures forall k :: 0 <= k < |tiles| && (k !in order || k == firstMove) ==> r[k] == tiles[k]
    decreases |order|
  {
    if |order| == 0 then tiles
    else if order[0] == firstMove then Playout(tiles, order[1..], firstMove, current)
    else Playout(tiles[order[0] := current], order[1..], firstMove, Opposite(current))
  }

  /** `order` without `firstMove`: the ids the play-out hands out, in turn. */
  function Others(order: seq<nat>, firstMove: nat): (s: seq<nat>)
    ensures forall x :: x in s <==> x in order && x != firstMove
    ensures forall n: nat :: AllBelow(order, n) ==> AllBelow(s, n)
    decreases |order|
  {
    if |order| == 0 then []
    else
      assert forall n: nat :: AllBelow(order, n) ==> AllBelow(order[1..], n);
      if order[0] == firstMove then Others(order[1..], firstMove)
      else [order[0]] + Others(order[1..], firstMove)
  }

  /** The colour the play-out gives its `j`-th id when it starts with `first`. */
  function Turn(first: Team, j: nat): Team
  {
    if j % 2 == 0 then first else Opposite(first)
  }

  /** Starting one turn later is starting with the other colour. */
  lemma TurnNext(first: Team, j: nat)
    requires IsPlayer(first)
    ensures Turn(Opposite(first), j) == Turn(first, j + 1)
  {
    OppositeSwaps(first);
    assert (j + 1) % 2 == 0 <==> j % 2 != 0;
  }

  /** The play-out hands the ids other than `firstMove` alternately to the
      two colours, starting with `current`. */
  lemma {:induction false} PlayoutAlternates(tiles: seq<Team>, order: seq<nat>, firstMove: nat, current: Team)
    requires AllBelow(order, |tiles|) && NoDuplicates(order) && IsPlayer(current)
    ensures var r := Playout(tiles, order, firstMove, current);
      forall j :: 0 <= j < |Others(order, firstMove)| ==>
        r[Others(order, firstMove)[j]] == Turn(current, j)
    decreases |order|
  {
    if |order| > 0 {
      var rest := order[1..];
      NoDuplicatesTail(order);
      if order[0] == firstMove {
        PlayoutAlternates(tiles, rest, firstMove, current);
      } else {
        var t := tiles[order[0] := current];
        var r := Playout(t, rest, firstMove, Opposite(current));
        PlayoutAlternates(t, rest, firstMove, Opposite(current));
        assert r[order[0]] == current by {
          assert order[0] !in rest && t[order[0]] == current;
        }
        AlternatesCons(r, order[0], Others(rest, firstMove), current);
      }
    }
  }

  /** Prefixing an id that holds `current` to a list that alternates from
      the other colour gives a list that alternates from `current`. */
  lemma AlternatesCons(r: seq<Team>, x: nat, others: seq<nat>, current: Team)
    requires IsPlayer(current) && x < |r| && r[x] == current && AllBelow(others, |r|)
    requires forall j :: 0 <= j < |others| ==> r[others[j]] == Turn(Opposite(current), j)
    ensures forall j :: 0 <= j < |[x] + others| ==> r[([x] + others)[j]] == Turn(current, j)
  {
    var os := [x] + others;
    forall j | 0 <= j < |os|
      ensures r[os[j]] == Turn(current, j)
    {
      if j > 0 {
        assert os[j] == others[j - 1];
        TurnNext(current, j - 1);
      }
    }
  }

  /** Play-outs of two boards that differ only on ids the play-out
      overwrites end in the same board. */
  lemma {:induction false} PlayoutOverwrites(t1: seq<Team>, t2: seq<Team>, order: seq<nat>, firstMove: nat, current: Team)
    requires |t1| == |t2| && AllBelow(order, |t1|)
    requires forall k :: 0 <= k < |t1| ==> (k in order && k != firstMove) || t1[k] == t2[k]
    ensures Playout(t1, order, firstMove, current) == Playout(t2, order, firstMove, current)
    decreases |order|
  {
    if |order| > 0 {
      var rest := order[1..];
      forall k | 0 <= k < |t1| && k in order && k != order[0]
        ensures k in rest
      {
        var i :| 0 <= i < |order| && order[i] == k;
        assert rest[i - 1] == k;
      }
      if order[0] == firstMove {
        PlayoutOverwrites(t1, t2, rest, firstMove, current);
      } else {
        PlayoutOverwrites(t1[order[0] := current], t2[order[0] := current], rest, firstMove, Opposite(current));
      }
    }
  }

  /** Outcome of one trial: whether the computer won and the board left
      behind (the source mutates the shared board in place). */
  datatype Trial = Trial(win: bool, tiles: seq<Team>)

  /** `Predict(legalMoves, firstMove)`, with `order` the shuffled copy of
      `legalMoves` this trial draws. */
  function Predict(g: Game, starts: seq<nat>, ends: seq<nat>, order: seq<nat>, firstMove: nat): (r: Trial)
    requires g.board.WellFormed() && AllBelow(starts, g.board.size)
    requires AllBelow(order, g.board.size) && firstMove < g.board.size
    ensures |r.tiles| == |g.board.tiles|
    ensures forall k :: 0 <= k < g.board.size && k != firstMove && k !in order ==>
      r.tiles[k] == g.board.tiles[k]
  {
    var t := Playout(g.board.tiles[firstMove := g.ai], order, firstMove, g.player);
    Trial(IsPath(g.board.(tiles := t), starts, ends, g.ai), t)
  }

  /** What a trial does to the board: `firstMove` goes to the computer, the
      other shuffled ids alternate starting with the human. (Tiles outside
      the shuffled ids keep their owner; `Predict` itself says so.) */
  lemma PredictAssigns(g: Game, starts: seq<nat>, ends: seq<nat>, order: seq<nat>, firstMove: nat)
    requires g.board.WellFormed() && AllBelow(starts, g.board.size)
    requires AllBelow(order, g.board.size) && firstMove < g.board.size
    requires NoDuplicates(order) && IsPlayer(g.player)
    ensures var r := Predict(g, starts, ends, order, firstMove);
      && r.tiles[firstMove] == g.ai
      && (forall j :: 0 <= j < |Others(order, firstMove)| ==>
            r.tiles[Others(order, firstMove)[j]] == Turn(g.player, j))
  {
    PlayoutAlternates(g.board.tiles[firstMove := g.ai], order, firstMove, g.player);
  }

  /** Trials do not leak into each other: the outcome does not depend on
      what an earlier trial left on the tiles this one overwrites. */
  lemma PredictIgnoresOverwritten(g1: Game, g2: Game, starts: seq<nat>, ends: seq<nat>, order: seq<nat>, firstMove: nat)
    requires g1.board.WellFormed() && AllBelow(starts, g1.board.size)
    requires AllBelow(order, g1.board.size) && firstMove < g1.board.size
    requires g2 == g1.(board := g1.board.(tiles := g2.board.tiles))
    requires |g2.board.tiles| == |g1.board.tiles|
    requires forall k :: 0 <= k < g1.board.size && k != firstMove && k !in order ==>
      g1.board.tiles[k] == g2.board.tiles[k]
    ensures Predict(g1, starts, ends, order, firstMove) == Predict(g2, starts, ends, order, firstMove)
  {
    var t1 := g1.board.tiles[firstMove := g1.ai];
    var t2 := g2.board.tiles[firstMove := g2.ai];
    PlayoutOverwrites(t1, t2, order, firstMove, g1.player);
    assert g1.board.(tiles := Playout(t1, order, firstMove, g1.player))
        == g2.board.(tiles := Playout(t2, order, firstMove, g2.player));
  }

  /** Every trial of every candidate receives a shuffle of the legal moves. */
  predicate ValidShuffles(legal: seq<nat>, iterations: nat, shuffles: seq<seq<seq<nat>>>)
  {
    && |shuffles| == |legal|
    && (forall c :: 0 <= c < |shuffles| ==> |shuffles[c]| == iterations)
    && (forall c, i :: 0 <= c < |shuffles| && 0 <= i < |shuffles[c]| ==> IsShuffleOf(shuffles[c][i], legal))
  }

  /** The orders handed to one candidate's trials only name board tiles. */
  predicate TrialsOnBoard(trials: seq<seq<nat>>, size: nat)
  {
    forall i :: 0 <= i < |trials| ==> AllBelow(trials[i], size)
  }

  lemma ShufflesOnBoard(legal: seq<nat>, iterations: nat, shuffles: seq<seq<seq<nat>>>, size: nat, c: nat)
    requires ValidShuffles(legal, iterations, shuffles) && AllBelow(legal, size) && c < |shuffles|
    ensures TrialsOnBoard(shuffles[c], size)
  {
    forall i, k | 0 <= i < |shuffles[c]| && 0 <= k < |shuffles[c][i]|
      ensures shuffles[c][i][k] < size
    {
      assert shuffles[c][i][k] in legal;
    }
  }

  /** How many of the first `n` trials of candidate `move`, each played from
      the position `g`, the computer wins. */
  function WinCount(g: Game, trials: seq<seq<nat>>, move: nat, n: nat): (w: nat)
    requires g.board.WellFormed() && move < g.board.size
    requires TrialsOnBoard(trials, g.board.size) && n <= |trials|
    ensures w <= n
  {
    if n == 0 then 0
    else
      var b := g.board;
      WinCount(g, trials, move, n - 1)
      + (if Predict(g, b.StartsOf(g.ai), b.EndsOf(g.ai), trials[n - 1], move).win then 1 else 0)
  }

  /** The two boards agree on every tile that is not a legal move. */
  predicate SameOffLegal(a: seq<Team>, b: seq<Team>, legal: seq<nat>)
  {
    |a| == |b| && forall k :: 0 <= k < |a| && k !in legal ==> a[k] == b[k]
  }

  /** One trial on the shared board behaves as the same trial on the saved
      position, and again leaves the board equal to it off the legal moves. */
  lemma TrialOnSharedBoard(g: Game, legal: seq<nat>, order: seq<nat>, move: nat, cur: seq<Team>)
    requires g.board.WellFormed() && AllBelow(legal, g.board.size) && move in legal
    requires IsShuffleOf(order, legal) && AllBelow(order, g.board.size)
    requires SameOffLegal(cur, g.board.tiles, legal)
    ensures var b := g.board;
      var here := g.(board := b.(tiles := cur));
      var t := Predict(here, b.StartsOf(g.ai), b.EndsOf(g.ai), order, move);
      && t == Predict(g, b.StartsOf(g.ai), b.EndsOf(g.ai), order, move)
      && SameOffLegal(t.tiles, b.tiles, legal)
  {
    var b := g.board;
    var here := g.(board := b.(tiles := cur));
    PredictIgnoresOverwritten(g, here, b.StartsOf(g.ai), b.EndsOf(g.ai), order, move);
  }

  /** The table entry of a candidate tracks its running win count. */
  lemma TallyStep(wins0: map<nat, nat>, wins: map<nat, nat>, move: nat, w: nat, win: bool)
    requires move !in wins0
    requires wins == if w > 0 then wins0[move := w] else wins0
    ensures var w' := w + (if win then 1 else 0);
      (if win then wins[move := Get(wins, move) + 1] else wins)
        == if w' > 0 then wins0[move := w'] else wins0
  {
  }

  /** One pass of the inner loop of `SelectTile`: trial `i` of candidate
      `legal[c]` on the shared board, and the table update when it wins. */
  method OneTrial(g: Game, legal: seq<nat>, c: nat, trials: seq<seq<nat>>, i: nat,
                  cur: seq<Team>, wins0: map<nat, nat>, wins: map<nat, nat>)
    returns (cur': seq<Team>, wins': map<nat, nat>)
    requires g.board.WellFormed() && AllBelow(legal, g.board.size) && c < |legal|
    requires TrialsOnBoard(trials, g.board.size) && i < |trials|
    requires IsShuffleOf(trials[i], legal)
    requires SameOffLegal(cur, g.board.tiles, legal)
    requires legal[c] !in wins0
    requires var w := WinCount(g, trials, legal[c], i);
      wins == if w > 0 then wins0[legal[c] := w] else wins0
    ensures SameOffLegal(cur', g.board.tiles, legal)
    ensures var w := WinCount(g, trials, legal[c], i + 1);
      wins' == if w > 0 then wins0[legal[c] := w] else wins0
  {
    var b := g.board;
    var move := legal[c];
    var here := g.(board := b.(tiles := cur));
    TrialOnSharedBoard(g, legal, trials[i], move, cur);
    var trial := Predict(here, b.StartsOf(g.ai), b.EndsOf(g.ai), trials[i], move);
    assert WinCount(g, trials, move, i + 1) == WinCount(g, trials, move, i) + (if trial.win then 1 else 0);
    TallyStep(wins0, wins, move, WinCount(g, trials, move, i), trial.win);
    wins' := wins;
    if trial.win {
      wins' := wins'[move := Get(wins', move) + 1];
    }
    cur' := trial.tiles;
  }

  /** The inner loop of `SelectTile` for candidate `legal[c]`: run every
      trial on the shared board, counting wins in `wins`. The board only
      changes on legal moves, and the count that ends up in the table is
      the candidate's win count from the saved position. */
  method RunTrials(g: Game, legal: seq<nat>, c: nat, trials: seq<seq<nat>>, cur0: seq<Team>, wins0: map<nat, nat>)
    returns (cur: seq<Team>, wins: map<nat, nat>)
    requires g.board.WellFormed() && AllBelow(legal, g.board.size) && c < |legal|
    requires forall i :: 0 <= i < |trials| ==> IsShuffleOf(trials[i], legal)
    requires TrialsOnBoard(trials, g.board.size)
    requires SameOffLegal(cur0, g.board.tiles, legal)
    requires legal[c] !in wins0
    ensures SameOffLegal(cur, g.board.tiles, legal)
    ensures var w := WinCount(g, trials, legal[c], |trials|);
      wins == if w > 0 then wins0[legal[c] := w] else wins0
  {
    cur := cur0;
    wins := wins0;
    var i := 0;
    while i < |trials|
      invariant 0 <= i <= |trials|
      invariant SameOffLegal(cur, g.board.tiles, legal)
      invariant var w := WinCount(g, trials, legal[c], i);
        wins == if w > 0 then wins0[legal[c] := w] else wins0
    {
      cur, wins := OneTrial(g, legal, c, trials, i, cur, wins0, wins);
      i := i + 1;
    }
  }

  /** The count each candidate `legal[c]` collects over its trials. */
  function Score(g: Game, iterations: nat, shuffles: seq<seq<seq<nat>>>, c: nat): nat
    requires g.board.WellFormed() && ValidShuffles(LegalMoves(g.board.tiles), iterations, shuffles)
    requires c < |shuffles|
  {
    ShufflesOnBoard(LegalMoves(g.board.tiles), iterations, shuffles, g.board.size, c);
    WinCount(g, shuffles[c], LegalMoves(g.board.tiles)[c], iterations)
  }

  /** What the table holds once every candidate has been tried: each
      candidate's entry is its score, and only candidates that won at least
      once have an entry. */
  predicate TableHoldsScores(g: Game, iterations: nat, shuffles: seq<seq<seq<nat>>>, wins: map<nat, nat>)
    requires g.board.WellFormed() && ValidShuffles(LegalMoves(g.board.tiles), iterations, shuffles)
  {
    var legal := LegalMoves(g.board.tiles);
    && (forall c :: 0 <= c < |legal| ==> Get(wins, legal[c]) == Score(g, iterations, shuffles, c))
    && (forall k :: k in wins ==> k in legal && wins[k] > 0)
  }

  /** `MonteCarloAI::SelectTile`: save the board, run `iterations` trials
      for every legal move (trial `i` of candidate `c` uses the order
      `shuffles[c][i]`), restore the board, and pick the move with the most
      wins. The board comes back unchanged. The result is `UINT_MAX`
      exactly when no candidate won a single trial (in particular when the
      board is full); otherwise it is a legal move whose score no
      candidate beats and every candidate with a lower id scores strictly
      less. */
  method SelectTile(g: Game, iterations: nat, shuffles: seq<seq<seq<nat>>>) returns (choice: uint32, tiles: seq<Team>)
    requires g.board.WellFormed()
    requires ValidShuffles(LegalMoves(g.board.tiles), iterations, shuffles)
    ensures tiles == g.board.tiles
    ensures choice == UINT_MAX <==> forall c :: 0 <= c < |shuffles| ==> Score(g, iterations, shuffles, c) == 0
    ensures choice != UINT_MAX ==> choice < g.board.size && g.board.tiles[choice] == None
    ensures forall c :: 0 <= c < |shuffles| && LegalMoves(g.board.tiles)[c] == choice ==>
      forall c' :: 0 <= c' < |shuffles| ==>
        && Score(g, iterations, shuffles, c') <= Score(g, iterations, shuffles, c)
        && (LegalMoves(g.board.tiles)[c'] < choice ==> Score(g, iterations, shuffles, c') < Score(g, iterations, shuffles, c))
  {
    var sourceBoard := g.board.tiles;
    var cur, wins := TryAllCandidates(g, iterations, shuffles);
    tiles := Restore(cur, sourceBoard);
    TableKeysAreIds(g, iterations, shuffles, wins);
    choice := ScanMaxWins(wins);
    ChoiceIsBest(g, iterations, shuffles, wins, choice);
  }

  /** Every key of the table is a tile id, so none reaches the sentinel. */
  lemma TableKeysAreIds(g: Game, iterations: nat, shuffles: seq<seq<seq<nat>>>, wins: map<nat, nat>)
    requires g.board.WellFormed() && ValidShuffles(LegalMoves(g.board.tiles), iterations, shuffles)
    requires TableHoldsScores(g, iterations, shuffles, wins)
    ensures g.board.size <= UINT_MAX
    ensures forall k :: k in wins ==> k < g.board.size
  {
  }

  /** The table after the first `c` candidates have run their trials. */
  predicate TalliedUpTo(g: Game, iterations: nat, shuffles: seq<seq<seq<nat>>>, wins: map<nat, nat>, c: nat)
    requires g.board.WellFormed() && ValidShuffles(LegalMoves(g.board.tiles), iterations, shuffles)
    requires c <= |shuffles|
  {
    var legal := LegalMoves(g.board.tiles);
    && (forall c' :: 0 <= c' < c ==> Get(wins, legal[c']) == Score(g, iterations, shuffles, c'))
    && (forall c' :: c <= c' < |legal| ==> legal[c'] !in wins)
    && (forall k :: k in wins ==> k in legal && wins[k] > 0)
  }

  /** Recording candidate `c`'s score extends the tally by one candidate. */
  lemma TallyCandidate(g: Game, iterations: nat, shuffles: seq<seq<seq<nat>>>, wins: map<nat, nat>, c: nat)
    requires g.board.WellFormed() && ValidShuffles(LegalMoves(g.board.tiles), iterations, shuffles)
    requires c < |shuffles| && TalliedUpTo(g, iterations, shuffles, wins, c)
    ensures var legal := LegalMoves(g.board.tiles);
      var w := Score(g, iterations, shuffles, c);
      TalliedUpTo(g, iterations, shuffles, if w > 0 then wins[legal[c] := w] else wins, c + 1)
  {
    var legal := LegalMoves(g.board.tiles);
    var w := Score(g, iterations, shuffles, c);
    RecordScore(legal, wins, c, w);
  }

  /** Recording `w` for candidate `c` (only when positive) touches no other
      candidate's entry. */
  lemma RecordScore(legal: seq<nat>, wins: map<nat, nat>, c: nat, w: nat)
    requires c < |legal| && forall i, j :: 0 <= i < j < |legal| ==> legal[i] < legal[j]
    ensures var wins' := if w > 0 then wins[legal[c] := w] else wins;
      && Get(wins', legal[c]) == (if w > 0 then w else Get(wins, legal[c]))
      && (forall c' :: 0 <= c' < |legal| && c' != c ==> Get(wins', legal[c']) == Get(wins, legal[c']))
      && (forall c' :: 0 <= c' < |legal| && c' != c ==> (legal[c'] in wins' <==> legal[c'] in wins))
      && (forall k :: k in wins' ==> (k in wins && wins'[k] == wins[k]) || (k == legal[c] && wins'[k] == w && w > 0))
  {
    var wins' := if w > 0 then wins[legal[c] := w] else wins;
    forall c' | 0 <= c' < |legal| && c' != c
      ensures Get(wins', legal[c']) == Get(wins, legal[c'])
      ensures legal[c'] in wins' <==> legal[c'] in wins
    {
      assert legal[c'] != legal[c];
    }
  }

  /** The nested trial loops of `SelectTile`, over every legal move. */
  method TryAllCandidates(g: Game, iterations: nat, shuffles: seq<seq<seq<nat>>>) returns (cur: seq<Team>, wins: map<nat, nat>)
    requires g.board.WellFormed()
    requires ValidShuffles(LegalMoves(g.board.tiles), iterations, shuffles)
    ensures SameOffLegal(cur, g.board.tiles, LegalMoves(g.board.tiles))
    ensures TableHoldsScores(g, iterations, shuffles, wins)
  {
    var b := g.board;
    var legal := LegalMoves(b.tiles);
    wins := map[];
    cur := b.tiles;
    var c := 0;
    while c < |legal|
      invariant c <= |legal|
      invariant SameOffLegal(cur, b.tiles, legal)
      invariant TalliedUpTo(g, iterations, shuffles, wins, c)
    {
      ShufflesOnBoard(legal, iterations, shuffles, b.size, c);
      TallyCandidate(g, iterations, shuffles, wins, c);
      cur, wins := RunTrials(g, legal, c, shuffles[c], cur, wins);
      c := c + 1;
    }
  }

  /** The restore loop of `SelectTile`: every tile gets back its saved owner. */
  method Restore(cur: seq<Team>, sourceBoard: seq<Team>) returns (tiles: seq<Team>)
    requires |cur| == |sourceBoard|
    ensures tiles == sourceBoard
  {
    tiles := cur;
    var k := 0;
    while k < |tiles|
      invariant k <= |tiles| == |sourceBoard|
      invariant forall j :: 0 <= j < k ==> tiles[j] == sourceBoard[j]
    {
      tiles := tiles[k := sourceBoard[k]];
      k := k + 1;
    }
  }

  /** The table is empty exactly when every candidate scored nothing. */
  lemma EmptyTableAllZero(g: Game, iterations: nat, shuffles: seq<seq<seq<nat>>>, wins: map<nat, nat>)
    requires g.board.WellFormed() && ValidShuffles(LegalMoves(g.board.tiles), iterations, shuffles)
    requires TableHoldsScores(g, iterations, shuffles, wins)
    ensures wins == map[] <==> forall c :: 0 <= c < |shuffles| ==> Score(g, iterations, shuffles, c) == 0
  {
    var legal := LegalMoves(g.board.tiles);
    if wins == map[] {
      forall c | 0 <= c < |shuffles|
        ensures Score(g, iterations, shuffles, c) == 0
      {
        assert Get(wins, legal[c]) == 0;
      }
    } else {
      var k :| k in wins;
      var ck :| 0 <= ck < |legal| && legal[ck] == k;
      assert Score(g, iterations, shuffles, ck) > 0;
    }
  }

  /** The scan's choice beats every candidate, strictly those of lower id. */
  lemma ChoiceBeatsAll(g: Game, iterations: nat, shuffles: seq<seq<seq<nat>>>, wins: map<nat, nat>, choice: nat)
    requires g.board.WellFormed() && ValidShuffles(LegalMoves(g.board.tiles), iterations, shuffles)
    requires TableHoldsScores(g, iterations, shuffles, wins)
    requires forall k :: k in wins ==> wins[k] <= Get(wins, choice)
    requires forall j :: 0 <= j < choice ==> Get(wins, j) < Get(wins, choice)
    ensures forall c :: 0 <= c < |shuffles| && LegalMoves(g.board.tiles)[c] == choice ==>
      forall c' :: 0 <= c' < |shuffles| ==>
        && Score(g, iterations, shuffles, c') <= Score(g, iterations, shuffles, c)
        && (LegalMoves(g.board.tiles)[c'] < choice ==> Score(g, iterations, shuffles, c') < Score(g, iterations, shuffles, c))
  {
    var legal := LegalMoves(g.board.tiles);
    forall c, c' | 0 <= c < |shuffles| && legal[c] == choice && 0 <= c' < |shuffles|
      ensures Score(g, iterations, shuffles, c') <= Score(g, iterations, shuffles, c)
    {
      if legal[c'] in wins {
        assert wins[legal[c']] <= Get(wins, choice);
      }
    }
  }

  /** Reading the arg-max scan's guarantees back in terms of scores. */
  lemma ChoiceIsBest(g: Game, iterations: nat, shuffles: seq<seq<seq<nat>>>, wins: map<nat, nat>, choice: nat)
    requires g.board.WellFormed() && ValidShuffles(LegalMoves(g.board.tiles), iterations, shuffles)
    requires TableHoldsScores(g, iterations, shuffles, wins)
    requires wins == map[] <==> choice == UINT_MAX
    requires wins != map[] ==> forall k :: k in wins ==> wins[k] <= Get(wins, choice)
    requires wins != map[] ==> forall j :: 0 <= j < choice ==> Get(wins, j) < Get(wins, choice)
    requires wins != map[] && (forall k :: k in wins ==> wins[k] > 0) ==> choice in wins
    ensures choice == UINT_MAX <==> forall c :: 0 <= c < |shuffles| ==> Score(g, iterations, shuffles, c) == 0
    ensures choice != UINT_MAX ==> choice < g.board.size && g.board.tiles[choice] == None
    ensures forall c :: 0 <= c < |shuffles| && LegalMoves(g.board.tiles)[c] == choice ==>
      forall c' :: 0 <= c' < |shuffles| ==>
        && Score(g, iterations, shuffles, c') <= Score(g, iterations, shuffles, c)
        && (LegalMoves(g.board.tiles)[c'] < choice ==> Score(g, iterations, shuffles, c') < Score(g, iterations, shuffles, c))
  {
    var legal := LegalMoves(g.board.tiles);
    EmptyTableAllZero(g, iterations, shuffles, wins);
    if wins == map[] {
      assert g.board.size <= UINT_MAX;
      assert forall c :: 0 <= c < |legal| ==> legal[c] < g.board.size;
    } else {
      assert choice in wins;
      ChoiceBeatsAll(g, iterations, shuffles, wins, choice);
    }
  }
}
