/** The `map<unsigned int, unsigned int> wins` table of `SelectTile` and the
    arg-max scan over it. Reading `wins[i]` through `operator[]` inserts key
    `i` with count 0 when it is absent, so the scan grows the table it
    iterates over. */
module WinTable {
  import opened Limits
  import opened Sequences

  /** The value `operator[]` yields for key `k`. */
  function Get(m: map<nat, nat>, k: nat): nat
  {
    if k in m then m[k] else 0
  }

  /** The table after `operator[]` has been applied to key `k`. */
  function Touch(m: map<nat, nat>, k: nat): (r: map<nat, nat>)
    ensures r.Keys == m.Keys + {k}
    ensures forall j :: j in r ==> r[j] == Get(m, j)
  {
    m[k := Get(m, k)]
  }

  /** A number above every key of a finite set. */
  ghost function KeyBound(s: set<nat>): (n: nat)
    ensures forall k :: k in s ==> k < n
    ensures s != {} ==> n > 0 && n - 1 in s
  {
    if s == {} then 0
    else
      var x :| x in s;
      var n := KeyBound(s - {x});
      assert forall k :: k in s ==> k == x || k in s - {x};
      if x < n then n else x + 1
  }

  /** The keys of `wins` at or above `i`. */
  function KeysFrom(wins: map<nat, nat>, i: nat): set<nat>
  {
    set k | k in wins.Keys && k >= i
  }

  /** The key set the scan has reached when its counter is `i`: every key
      below `i` has been touched, the original keys are all still there. */
  lemma ScanKeys(wins: map<nat, nat>, i: nat)
    ensures |wins.Keys + Below(i)| == i + |KeysFrom(wins, i)|
  {
    assert wins.Keys + Below(i) == Below(i) + KeysFrom(wins, i);
    assert Below(i) * KeysFrom(wins, i) == {};
  }

  /** Touching key `i` extends the touched range by one. */
  lemma TouchNext(wins: map<nat, nat>, m: map<nat, nat>, i: nat)
    requires m.Keys == wins.Keys + Below(i)
    ensures Touch(m, i).Keys == wins.Keys + Below(i + 1)
  {
  }

  /** While the table is larger than the counter, some original key lies
      at or above the counter, so the counter is below the key bound. */
  lemma KeyAhead(wins: map<nat, nat>, m: map<nat, nat>, i: nat)
    requires m.Keys == wins.Keys + Below(i) && i < |m|
    ensures i < KeyBound(wins.Keys)
  {
    assert |m| == |m.Keys|;
    ScanKeys(wins, i);
    var k :| k in KeysFrom(wins, i);
  }

  /** Once the counter has caught up with the table, every key lies below it. */
  lemma NoKeyAhead(wins: map<nat, nat>, m: map<nat, nat>, i: nat)
    requires m.Keys == wins.Keys + Below(i) && |m| <= i
    ensures forall k :: k in wins ==> k < i
  {
    assert |m| == |m.Keys|;
    ScanKeys(wins, i);
    assert |KeysFrom(wins, i)| == 0;
    forall k | k in wins
      ensures k < i
    {
      assert k !in KeysFrom(wins, i);
    }
  }

  /** What the scan knows when its counter is `i`: keys below `i` have been
      touched, no count has changed, and `maxWinsIndex` holds the first
      strict maximum among the ids below `i`. */
  predicate Scanned(wins: map<nat, nat>, m: map<nat, nat>, i: nat, maxWinsIndex: nat, maxWins: nat)
  {
    && 1 <= i
    && m.Keys == wins.Keys + Below(i)
    && (forall j :: j in m ==> m[j] == Get(wins, j))
    && maxWinsIndex < i && maxWins == Get(wins, maxWinsIndex)
    && (forall j :: 0 <= j < i ==> Get(wins, j) <= maxWins)
    && (forall j :: 0 <= j < maxWinsIndex ==> Get(wins, j) < maxWins)
  }

  /** Touching key `i` changes no count. */
  lemma TouchKeepsCounts(wins: map<nat, nat>, m: map<nat, nat>, i: nat)
    requires forall j :: j in m ==> m[j] == Get(wins, j)
    requires m.Keys >= wins.Keys
    ensures Get(m, i) == Get(wins, i)
    ensures forall j :: j in Touch(m, i) ==> Touch(m, i)[j] == Get(wins, j)
  {
  }

  /** Extending the maximum over `[0, i)` by the entry at `i`. */
  lemma MaxExtends(wins: map<nat, nat>, i: nat, best: nat)
    requires forall j :: 0 <= j < i ==> Get(wins, j) <= best
    ensures Get(wins, i) > best ==> forall j :: 0 <= j < i + 1 ==> Get(wins, j) <= Get(wins, i)
    ensures Get(wins, i) <= best ==> forall j :: 0 <= j < i + 1 ==> Get(wins, j) <= best
  {
  }

  /** One turn of the scan loop keeps `Scanned`. */
  lemma ScanStep(wins: map<nat, nat>, m: map<nat, nat>, i: nat, maxWinsIndex: nat, maxWins: nat)
    requires Scanned(wins, m, i, maxWinsIndex, maxWins)
    ensures Get(m, i) == Get(wins, i)
    ensures Get(m, i) > maxWins ==> Scanned(wins, Touch(m, i), i + 1, i, Get(Touch(m, i), i))
    ensures Get(m, i) <= maxWins ==> Scanned(wins, Touch(m, i), i + 1, maxWinsIndex, maxWins)
  {
    TouchNext(wins, m, i);
    TouchKeepsCounts(wins, m, i);
    MaxExtends(wins, i, maxWins);
  }

  /** Before the loop: key 0 has been touched and is the maximum so far. */
  lemma ScanStart(wins: map<nat, nat>)
    ensures Scanned(wins, Touch(wins, 0), 1, 0, Get(wins, 0))
  {
    TouchNext(wins, wins, 0);
    TouchKeepsCounts(wins, wins, 0);
  }

  /** After the loop: the counter has passed every key. */
  lemma ScanDone(wins: map<nat, nat>, m: map<nat, nat>, i: nat, maxWinsIndex: nat, maxWins: nat)
    requires Scanned(wins, m, i, maxWinsIndex, maxWins) && |m| <= i
    ensures forall k :: k in wins ==> k < i
    ensures maxWinsIndex < i
    ensures forall j :: 0 <= j < i ==> Get(wins, j) <= Get(wins, maxWinsIndex)
    ensures forall j :: 0 <= j < maxWinsIndex ==> Get(wins, j) < Get(wins, maxWinsIndex)
  {
    NoKeyAhead(wins, m, i);
  }

  /** The scan loop of `SelectTile`: start with key 0, then walk `i` upward
      while `i` is below the table's (growing) size, keeping the first
      strict maximum. */
  method ScanLoop(wins: map<nat, nat>) returns (maxWinsIndex: nat, ghost reached: nat)
    requires wins != map[]
    ensures forall k :: k in wins ==> k < reached
    ensures maxWinsIndex < reached && maxWinsIndex < KeyBound(wins.Keys)
    ensures forall j :: 0 <= j < reached ==> Get(wins, j) <= Get(wins, maxWinsIndex)
    ensures forall j :: 0 <= j < maxWinsIndex ==> Get(wins, j) < Get(wins, maxWinsIndex)
  {
    assert wins.Keys != {};
    ghost var bound := KeyBound(wins.Keys);
    var m := wins;
    var maxWins := Get(m, 0);
    ScanStart(wins);
    m := Touch(m, 0);
    maxWinsIndex := 0;
    var i := 1;
    while i < |m|
      invariant Scanned(wins, m, i, maxWinsIndex, maxWins)
      invariant i <= bound && maxWinsIndex < bound
      decreases bound - i
    {
      KeyAhead(wins, m, i);
      ScanStep(wins, m, i, maxWinsIndex, maxWins);
      var v := Get(m, i);
      m := Touch(m, i);
      if v > maxWins {
        maxWins := Get(m, i);
        maxWinsIndex := i;
      }
      i := i + 1;
    }
    ScanDone(wins, m, i, maxWinsIndex, maxWins);
    reached := i;
  }

  /** The tail of `SelectTile` (the checkmate test and the arg-max scan).
      An empty table gives the `UINT_MAX` sentinel. Otherwise the scan
      reaches every id from 0 to the largest key, so it returns the lowest
      id whose count is maximal; when every stored count is positive (as
      the increments guarantee) that id is a key of the table. */
  method ScanMaxWins(wins: map<nat, nat>) returns (index: uint32)
    requires forall k :: k in wins ==> k < UINT_MAX
    ensures wins == map[] <==> index == UINT_MAX
    ensures wins != map[] ==> forall k :: k in wins ==> wins[k] <= Get(wins, index)
    ensures wins != map[] ==> forall j :: 0 <= j < index ==> Get(wins, j) < Get(wins, index)
    ensures wins != map[] && (forall k :: k in wins ==> wins[k] > 0) ==> index in wins
  {
    if |wins| == 0 {
      return UINT_MAX;
    }
    var maxWinsIndex, reached := ScanLoop(wins);
    index := maxWinsIndex;
    forall k | k in wins
      ensures wins[k] <= Get(wins, index)
    {
      assert k < reached && wins[k] == Get(wins, k);
    }
    if forall k :: k in wins ==> wins[k] > 0 {
      assert Get(wins, index) > 0;
    }
  }
}
