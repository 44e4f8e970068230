# Hex in Dafny

A model of the core of `hex.cpp`, a console game of Hex played by a human
against a Monte-Carlo computer player, with proofs about it.

The model covers these parts of the program:

- **Hex codec** (`hexcodec.dfy`). `ToHex` and `FromHex` are the single-digit
  codec for row and column labels and input.
- **Teams** (`teams.dfy`). The three-valued `Team` and its `operator!`.
- **Board** (`board.dfy`). The constructor lays out `rows * columns` tiles.
  It wires each tile to its neighbours in the order right, below, down-left,
  left, above, up-right. It also builds the four edge lists: Blue joins the
  first column to the last, and Red joins the first row to the last. The
  model proves that the id arithmetic wires exactly the six hex directions
  of the parallelogram grid, and that adjacency is symmetric.
- **Win oracle** (`search.dfy`). `DepthFirstSearch::IsPath` and `Recurse`
  follow only the first unvisited neighbour of the team at each step. The
  visit map is reset once per call and shared by all origins. The model
  proves the oracle sound: a `true` answer comes with a chain of the team's
  tiles from an origin to an endpoint. It also proves, with a concrete
  3 x 3 board, that the oracle is not complete.
- **Game** (`game.dfy`). `Game::Update` has five outcomes: already over,
  forfeit, out of bounds, claim, and already owned. The model proves that
  an ended match absorbs every later move, that claims are permanent, and
  that a winning claim is backed by a connecting chain.
- **Monte-Carlo player** (`montecarlo.dfy`, `wintable.dfy`).
  `MonteCarloAI::Predict` and `SelectTile` run a fixed number of play-outs
  per legal move on the shared board, restore the board, and then scan the
  `std::map` of win counts for the arg-max. That scan reads
  `wins[0], wins[1], …` through the inserting `operator[]`.

The modelling choices are:

- The ids passed to `Update` and returned by `SelectTile`, and the codec's
  values, are the `uint32` subset type; `UINT_MAX` is the forfeit and
  "no move" sentinel. Tile ids inside the board (edge lists, neighbour
  lists, the search, the legal moves and the keys of the win table) are
  `nat`. `Boards.ValidDimensions` keeps them below 2^32, as the source's
  `unsigned int` ids are.
- A tile is its id, and ownership is `seq<Team>`. Edge lists and
  neighbour lists hold ids, not shared pointers.
- The visit map of the search is the set of ids marked `true`.
- The shuffles the random engine would draw are a parameter: trial `i` of
  candidate `c` uses `shuffles[c][i]`, which may be any permutation of the
  legal moves.
- The iteration count (`ITERATIONS`, 1200 in the source) is also a
  parameter.

`arith.dfy`, `sequences.dfy` and `limits.dfy` hold shared vocabulary:
- uniqueness of Euclidean division;
- "no duplicates" and "all below";
- the 32-bit constants.

## Model

| member | source | states |
|---|---|---|
| HexCodec.ToHex | hex.cpp:21-43 | the digit of any 32-bit value is a lower-case hex digit |
| HexCodec.FromHex | hex.cpp:46-68 | the result is a value below 16 exactly for hex digits of either case, and `UINT_MAX` for every other character |
| HexCodec.DigitAt | hex.cpp:23-41 | the digit of each value 0..15 is '0'..'9' then 'a'..'f' |
| HexCodec.DecodeEncode | hex.cpp:21-67 | decoding the digit of `i` gives `i % 16`; the digit is a lower-case hex digit |
| HexCodec.EncodeDecode | hex.cpp:21-67 | a hex digit of either case decodes below 16 and re-encodes to its lower-case form; exactly the non-digits decode to `UINT_MAX` |
| HexCodec.CaseInsensitive | hex.cpp:46-67 | 'A'..'F' decode to the same value as 'a'..'f', namely 10..15 |
| Teams.Opposite | hex.cpp:73-76 | `!` always yields a player colour, and a different one from a Red or Blue argument |
| Teams.OppositeSwaps | hex.cpp:73-76 | `!` swaps Red and Blue, is an involution on them, and sends None to Blue |
| Boards.Neighbours | hex.cpp:162-181 | each tile has at most six neighbours, all on the board and none itself |
| Boards.NeighboursDistinct | hex.cpp:162-181 | no neighbour is pushed twice onto the same tile |
| Boards.NeighbourCases | hex.cpp:164-180 | bridge lemma: list membership as the disjunction of the six guarded pushes, used to prove the two adjacency lemmas below |
| Boards.PushedAreAdjacent | hex.cpp:162-181 | every pushed neighbour is one row/column step away in one of the six hex directions |
| Boards.AdjacentArePushed | hex.cpp:162-181 | every on-board tile one hex step away is pushed |
| Boards.NeighboursAreHexAdjacent | hex.cpp:162-181 | neighbour-list membership is equivalent to geometric hex adjacency on the board |
| Boards.NeighboursSymmetric | hex.cpp:162-181 | `j` is a neighbour of `i` iff `i` is a neighbour of `j` |
| Boards.Construct | hex.cpp:153-194 | a well-formed board of `rows * columns` unowned tiles with the four edge lists in push order |
| Boards.ColumnEdge | hex.cpp:186-189 | the column loop pushes one id per row, `k * columns + first` |
| Boards.RowEdge | hex.cpp:190-193 | the row loop pushes the consecutive ids `from .. to - 1` |
| Boards.ColumnEdgeMembership | hex.cpp:186-189 | a column edge holds exactly the on-board ids of that column |
| Boards.RowEdgeMembership | hex.cpp:190-193 | a row edge holds exactly the on-board ids of that row |
| Boards.ConstructedEdges | hex.cpp:183-193 | Blue starts and ends are the first and last columns; Red starts and ends are the first and last rows |
| Search.FirstEligible | hex.cpp:106-113 | the neighbour loop stops at the first neighbour of the team not yet visited, and skips only ineligible ones |
| Search.Recurse | hex.cpp:102-122 | the search only marks `current` and tiles of the team that were unvisited; it terminates |
| Search.IsPathFrom | hex.cpp:132-137 | the origin loop can answer true only if a remaining origin is owned by the team |
| Search.IsPath | hex.cpp:125-138 | `IsPath` can answer true only if the team owns one of the origins |
| Search.RecurseSound | hex.cpp:102-122 | when `Recurse` answers true, a chain of the team's tiles leads from `current` to an endpoint |
| Search.IsPathFromSound | hex.cpp:132-135 | a true answer from the origin loop comes with a chain from one of the remaining origins |
| Search.IsPathSound | hex.cpp:125-138 | `IsPath` true implies a chain of the team's tiles joining an origin to an endpoint |
| Search.NoOwnedOriginNoPath | hex.cpp:132-137 | with no origin owned by the team the answer is false, whatever the visit state |
| Search.UnownedBoardNoPath | hex.cpp:125-138 | a team owning no tile never has a path (the empty board in particular) |
| Search.ExampleDeadEnd | hex.cpp:102-122 | on the example board the search from tile 1 commits to neighbour 2 and fails there |
| Search.IncompleteWitness | hex.cpp:102-138 | a red chain 1, 3, 6 joins the first row to the last, yet `IsPath` answers false |
| Games.NewGame | hex.cpp:206 | the match starts not over with the given board and human colour; the computer always gets a colour, and a different one from a human Red or Blue |
| Games.Wins | hex.cpp:243-247 | a win on the team's edges always comes with a chain of its tiles from a start tile to an end tile |
| Games.Update | hex.cpp:209-258 | the five outcomes: over, forfeit, out of bounds, claim (only tile `id` changes; over iff the team now has a path), owned |
| Games.OverIsAbsorbing | hex.cpp:211-212 | once over, any sequence of updates leaves the game unchanged |
| Games.ClaimsArePermanent | hex.cpp:236-258 | a claimed tile keeps its owner, and the board its size, through any sequence of updates |
| Games.WinningClaimIsConnected | hex.cpp:239-251 | a claim that ends the match comes with a chain from the mover's start edge to its end edge |
| MonteCarlo.LegalMoves | hex.cpp:376-379 | exactly the unowned ids, in increasing order |
| MonteCarlo.Playout | hex.cpp:351-358 | the play-out changes no tile outside the order, and never `firstMove` |
| MonteCarlo.PlayoutAlternates | hex.cpp:346-358 | the ids other than `firstMove` go alternately to the two colours, starting with `current` |
| MonteCarlo.PlayoutOverwrites | hex.cpp:351-358 | boards that differ only on the ids the play-out assigns end equal |
| MonteCarlo.Predict | hex.cpp:343-361 | a trial changes only `firstMove` and the shuffled ids |
| MonteCarlo.PredictAssigns | hex.cpp:343-358 | `firstMove` goes to the computer and the other shuffled ids alternate from the human's colour |
| MonteCarlo.PredictIgnoresOverwritten | hex.cpp:343-361 | a trial's result does not depend on what an earlier trial left on the ids it overwrites |
| MonteCarlo.TrialOnSharedBoard | hex.cpp:387-389 | a trial on the unrestored shared board equals the same trial on the saved position |
| MonteCarlo.WinCount | hex.cpp:388-390 | at most `n` of `n` trials are wins |
| MonteCarlo.TallyStep | hex.cpp:389-390 | `wins[move]++` on a win keeps the entry equal to the running count, and absent while it is 0 |
| MonteCarlo.OneTrial | hex.cpp:388-390 | one trial keeps the board equal to the saved one off the legal moves and advances the count |
| MonteCarlo.RunTrials | hex.cpp:388-390 | a candidate's entry ends as its win count from the saved position |
| MonteCarlo.RecordScore | hex.cpp:387-390 | recording one candidate's count leaves every other candidate's entry unchanged |
| MonteCarlo.TallyCandidate | hex.cpp:387-390 | after `c + 1` candidates the table holds their scores and nothing else |
| MonteCarlo.TryAllCandidates | hex.cpp:385-390 | the table maps each legal move that ever won to its score |
| MonteCarlo.Restore | hex.cpp:392-393 | the restore loop gives back exactly the saved ownership |
| MonteCarlo.TableKeysAreIds | hex.cpp:385-390 | the table's keys are tile ids, below `UINT_MAX` |
| MonteCarlo.EmptyTableAllZero | hex.cpp:397-398 | the table is empty exactly when no candidate won a trial |
| MonteCarlo.ChoiceBeatsAll | hex.cpp:400-411 | the chosen id scores at least as much as every candidate, strictly more than lower ids |
| MonteCarlo.ChoiceIsBest | hex.cpp:395-411 | the arg-max result in terms of scores: sentinel iff all zero, else a legal move that is the lowest-id best |
| MonteCarlo.SelectTile | hex.cpp:366-412 | the board comes back unchanged; `UINT_MAX` iff no candidate ever won; otherwise an unowned tile with the highest score, ties to the lowest id |
| WinTable.Touch | hex.cpp:400-406 | `operator[]` adds the key it reads to the table, with count 0 if it was absent, and changes no count |
| WinTable.ScanLoop | hex.cpp:400-409 | the scan passes every key and keeps the first strict maximum among the ids it reached |
| WinTable.ScanMaxWins | hex.cpp:397-411 | empty table iff `UINT_MAX`; otherwise the lowest id with maximal count, and a key when all counts are positive |

## Left out

- Characters are Dafny `char`s, any Unicode scalar value, while the
  source's `char` is one byte. Characters outside the byte range have no
  counterpart in the source; `HexCodec.FromHex` sends them to `UINT_MAX`,
  as the `default` arm would.
- Console I/O is not modelled: prompts, hint messages, the "has won" and
  "has forfeit" announcements, `AsciiRenderer::Display` and `main`'s loop.
  The model keeps only their effect on the game state.
- `Player::SelectTeam` and `Player::SelectTile` (hex.cpp:308-327) read from
  the console and are not part of this model. Note that `SelectTile`
  combines the digits as `row * rows + column`, which agrees with the board
  layout only on square boards.
- The random engine and `std::shuffle` are replaced by the `shuffles`
  parameter. The model proves its results for every choice of
  permutations, not for a distribution.
- `ITERATIONS` is the parameter `iterations`, and win counts are unbounded
  naturals. The source's 1200 trials cannot overflow an `unsigned int`
  counter, so no wrap-around is modelled.
- Shared pointers and aliasing are not modelled. Tiles are ids into one
  ownership sequence. The `starts` and `ends` members of `MonteCarloAI` are
  the computer's edge lists, read where `Predict` uses them.
- Neighbour lists are not stored. `Boards.Neighbours` recomputes them from
  the id.
- The persistent `tileVisits` map of `DepthFirstSearch` is modelled as a
  set that starts empty on each `IsPath` call. The reset loop sets every
  tile id to `false`, so the two agree.
- Completeness of `IsPath` is not claimed. `Search.IncompleteWitness`
  shows that the first-neighbour search can miss a path.
- Boards.Construct: requires `1 <= rows`, `1 <= columns` and
  `rows * columns + columns <= 2^32`. Three cases are left out. With
  `columns == 0` the source builds an empty board: `size` is 0, every loop
  exits at once, and there is no tile to play. With `rows == 0` and
  `columns >= 1` the first-row loop indexes the empty tile vector. When
  the bound fails, the unsigned `size` and `i += columns` wrap around.
- WinTable.ScanMaxWins: requires every key below `UINT_MAX`, so the
  unsigned counter `i` cannot wrap. `SelectTile` only stores tile ids, which
  satisfy this.

Two behaviours of `SelectTile` worth knowing:

- It restores the board once, after all trials. `MonteCarlo.TrialOnSharedBoard`
  shows that skipping a per-trial restore changes no trial's outcome,
  because every trial overwrites all the legal moves.
- It returns `UINT_MAX` whenever no candidate wins a trial, even with one
  legal move left. `Update` then treats that as a forfeit.
