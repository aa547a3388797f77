/** The match-game screen: the bookkeeping behind tile clicks, the two
    deferred settle steps a second pick schedules, restarting, the win check
    and the elapsed-time display.

    Tile positions index the board; flippedTiles, matchedTiles and
    justMatchedTiles are lists of positions in the order they were added.
    Clock readings (milliseconds) are passed in as integers. A scheduled
    settle step is recorded in `pending` and run by calling Settle. */
module Game {
  import opened Board
  import Decimal

  /** Which deferred continuation a second pick has scheduled, if any. */
  datatype Pending = Idle | MatchSettle | MismatchSettle

  predicate Distinct(s: seq<nat>) {
    forall i, j :: 0 <= i < j < |s| ==> s[i] != s[j]
  }

  predicate Indices(s: seq<nat>, n: nat) {
    forall i :: 0 <= i < |s| ==> s[i] < n
  }

  /** The k-th pair of the matched list shows one symbol on both tiles. */
  predicate PairAt(m: seq<nat>, tiles: seq<int>, k: nat)
    requires Indices(m, |tiles|) && 2 * k + 1 < |m|
  {
    tiles[m[2 * k]] == tiles[m[2 * k + 1]]
  }

  /** The matched list is made of consecutive pairs of positions whose
      tiles show the same symbol. */
  predicate PairedOff(m: seq<nat>, tiles: seq<int>)
    requires Indices(m, |tiles|)
  {
    |m| % 2 == 0 && forall k: nat :: k < |m| / 2 ==> PairAt(m, tiles, k)
  }

  function Sum(s: seq<nat>): nat {
    if s == [] then 0 else s[0] + Sum(s[1..])
  }

  /** Adding one to one entry adds one to the total. */
  lemma {:induction false} SumIncrement(s: seq<nat>, i: nat)
    requires i < |s|
    ensures Sum(s[i := s[i] + 1]) == Sum(s) + 1
  {
    if i > 0 {
      assert s[i := s[i] + 1][1..] == s[1..][i - 1 := s[i] + 1];
      SumIncrement(s[1..], i - 1);
    } else {
      assert s[i := s[i] + 1][1..] == s[1..];
    }
  }

  /** Appending a pair of distinct, unmatched positions that show the same
      symbol keeps the matched list distinct and paired off. */
  lemma AppendPair(m: seq<nat>, tiles: seq<int>, a: nat, b: nat)
    requires Indices(m, |tiles|) && Distinct(m) && PairedOff(m, tiles)
    requires a < |tiles| && b < |tiles| && a != b && a !in m && b !in m
    requires tiles[a] == tiles[b]
    ensures Indices(m + [a, b], |tiles|) && Distinct(m + [a, b]) && PairedOff(m + [a, b], tiles)
    ensures (m + [a, b])[|m|..] == [a, b]
  {
    var m' := m + [a, b];
    forall k: nat | k < |m'| / 2 ensures PairAt(m', tiles, k) {
      if k < |m| / 2 {
        assert PairAt(m, tiles, k);
      }
    }
  }

  /** A fresh score list: one zero per player. */
  function Zeros(n: nat): (z: seq<nat>)
    ensures |z| == n && Sum(z) == 0
    ensures forall i :: 0 <= i < n ==> z[i] == 0
  {
    if n == 0 then [] else [0] + Zeros(n - 1)
  }

  /** Closes the gap a missing position k leaves: every position above k
      moves down by one. */
  function Squeeze(s: seq<nat>, k: nat): (t: seq<nat>)
    ensures |t| == |s|
    ensures forall i :: 0 <= i < |s| ==> t[i] == if s[i] > k then s[i] - 1 else s[i]
  {
    seq(|s|, i requires 0 <= i < |s| => if s[i] > k then s[i] - 1 else s[i])
  }

  /** Squeezing out a position that does not occur keeps the positions
      distinct and brings them all below n - 1. */
  lemma SqueezeDistinct(s: seq<nat>, n: nat, k: nat)
    requires Distinct(s) && Indices(s, n) && k !in s && k < n
    ensures Distinct(Squeeze(s, k)) && Indices(Squeeze(s, k), n - 1)
  {
  }

  /** A list of distinct positions below n is no longer than n. */
  lemma {:induction false} DistinctBound(s: seq<nat>, n: nat)
    requires Distinct(s) && Indices(s, n)
    ensures |s| <= n
    decreases |s|
  {
    if s != [] {
      var last := s[|s| - 1];
      var front := s[..|s| - 1];
      assert last !in front;
      SqueezeDistinct(front, n, last);
      DistinctBound(Squeeze(front, last), n - 1);
    }
  }

  /** n distinct positions below n are all of them. */
  lemma {:induction false} DistinctCovers(s: seq<nat>, n: nat)
    requires Distinct(s) && Indices(s, n) && |s| == n
    ensures forall k: nat :: k < n ==> k in s
  {
    forall k: nat | k < n ensures k in s {
      if k !in s {
        SqueezeDistinct(s, n, k);
        DistinctBound(Squeeze(s, k), n - 1);
        assert false;
      }
    }
  }

  /** The whole seconds between two clock readings in milliseconds, rounded
      down (Math.floor of the quotient). */
  function ElapsedSeconds(startTime: int, endTime: int): (r: int)
    ensures 1000 * r <= endTime - startTime < 1000 * (r + 1)
  {
    (endTime - startTime) / 1000
  }

  /** `timeInSeconds % 60` as JavaScript computes it: the remainder of a
      division truncated toward zero, which takes the sign of the dividend. */
  function JsRemainder60(a: int): (r: int)
    ensures (a - r) % 60 == 0
    ensures a >= 0 ==> 0 <= r < 60
    ensures a < 0 ==> -60 < r <= 0
  {
    if a >= 0 then a % 60 else -((-a) % 60)
  }

  /** The clock display: minutes (rounded down), a colon, and the seconds,
      with a zero in front of seconds below ten. */
  function FormatElapsedTime(timeInSeconds: int): string {
    var minutes := timeInSeconds / 60;
    var seconds := JsRemainder60(timeInSeconds);
    Decimal.IntToString(minutes) + ":" + (if seconds < 10 then "0" else "") + Decimal.IntToString(seconds)
  }

  /** Seconds below 60, with a zero in front when below ten, print as
      exactly two digits that read back as the seconds. */
  lemma PaddedSeconds(seconds: nat)
    requires seconds < 60
    ensures var ss := (if seconds < 10 then "0" else "") + Decimal.IntToString(seconds);
      |ss| == 2 && Decimal.IsDigits(ss) && Decimal.Value(ss) == seconds
  {
    var d := Decimal.IntToString(seconds);
    var ss := (if seconds < 10 then "0" else "") + d;
    if seconds < 10 {
      assert d == [Decimal.DigitChar(seconds)];
      assert ss[..1] == "0";
      assert Decimal.Value(ss[..1]) == 0 by {
        assert ss[..1][..0] == [];
      }
    } else {
      assert d == Decimal.NatToString(seconds / 10) + [Decimal.DigitChar(seconds % 10)];
      assert |Decimal.NatToString(seconds / 10)| == 1;
      assert ss == d;
    }
  }

  /** For a non-negative time the display reads `m:ss`: the minutes as a
      numeral without a leading zero, a colon, then exactly two digits of seconds below 60, and
      reading both back gives 60 * m + ss == timeInSeconds. */
  lemma FormatElapsedTimeRoundTrip(timeInSeconds: nat)
    ensures var r := FormatElapsedTime(timeInSeconds);
      && |r| >= 4
      && r[|r| - 3] == ':'
      && Decimal.IsDigits(r[..|r| - 3])
      && (|r| > 4 ==> r[0] != '0')
      && Decimal.IsDigits(r[|r| - 2..])
      && Decimal.Value(r[..|r| - 3]) == timeInSeconds / 60
      && Decimal.Value(r[|r| - 2..]) == timeInSeconds % 60 < 60
      && 60 * Decimal.Value(r[..|r| - 3]) + Decimal.Value(r[|r| - 2..]) == timeInSeconds
  {
    var minutes := timeInSeconds / 60;
    var seconds := timeInSeconds % 60;
    var m := Decimal.IntToString(minutes);
    var ss := (if seconds < 10 then "0" else "") + Decimal.IntToString(seconds);
    PaddedSeconds(seconds);
    var r := FormatElapsedTime(timeInSeconds);
    assert r == m + ":" + ss;
    assert r[..|r| - 3] == m;
    assert r[|r| - 2..] == ss;
  }

  /** The settings the game screen is opened with. */
  datatype Config = Config(numberOfPlayers: nat, theme: Theme, gridSize: nat)

  /** The choices the setup form offers: one to four players, a 4x4 or 6x6
      board. */
  predicate SupportedConfig(c: Config) {
    1 <= c.numberOfPlayers <= 4 && (c.gridSize == 4 || c.gridSize == 6)
  }

  function TileCount(c: Config): nat {
    c.gridSize * c.gridSize
  }

  /** The screen's state variables, plus which settle step, if any, a second
      pick has scheduled. */
  datatype State = State(
    tiles: seq<int>,
    flippedTiles: seq<nat>,
    matchedTiles: seq<nat>,
    justMatchedTiles: seq<nat>,
    turn: nat,
    scores: seq<nat>,
    moves: nat,
    startTime: int,
    elapsedTime: int,
    gameOver: bool,
    pending: Pending)

  /** What holds of every state the handlers below can reach. */
  ghost predicate Consistent(c: Config, s: State) {
    && SupportedConfig(c)
    && |s.tiles| == TileCount(c)
    && |s.scores| == c.numberOfPlayers
    && s.turn < c.numberOfPlayers
    // the face-up tiles: at most two distinct positions
    && Indices(s.flippedTiles, |s.tiles|) && Distinct(s.flippedTiles)
    && |s.flippedTiles| <= 2
    && (s.pending == Idle <==> |s.flippedTiles| < 2)
    && (|s.flippedTiles| == 1 ==> s.flippedTiles[0] !in s.matchedTiles)
    // the matched tiles: distinct positions, in pairs showing one symbol
    && Indices(s.matchedTiles, |s.tiles|) && Distinct(s.matchedTiles)
    && PairedOff(s.matchedTiles, s.tiles)
    // every matched pair scored one point
    && 2 * Sum(s.scores) == |s.matchedTiles|
    // a pending match settle: the face-up pair is the pair just matched
    && (s.pending == MatchSettle ==>
          && |s.matchedTiles| >= 2
          && s.flippedTiles == s.matchedTiles[|s.matchedTiles| - 2..]
          && s.justMatchedTiles == s.flippedTiles)
    && (s.pending != MatchSettle ==> s.justMatchedTiles == [])
    // a pending mismatch settle: two unmatched tiles with different symbols
    && (s.pending == MismatchSettle ==>
          && s.flippedTiles[0] !in s.matchedTiles
          && s.flippedTiles[1] !in s.matchedTiles
          && s.tiles[s.flippedTiles[0]] != s.tiles[s.flippedTiles[1]])
    && (s.gameOver ==> |s.matchedTiles| == TileCount(c))
  }

  /** The screen as it is first shown, and as restart leaves it apart from
      the turn, with the board the shuffle produced. */
  function InitialState(c: Config, board: seq<int>): State {
    State(board, [], [], [], 0, Zeros(c.numberOfPlayers), 0, 0, 0, false, Idle)
  }

  /** A click on tile `index` is accepted: the tile is neither face up nor
      matched, and fewer than two tiles are face up. */
  predicate Selectable(s: State, index: nat) {
    index !in s.flippedTiles && index !in s.matchedTiles && |s.flippedTiles| != 2
  }

  /** An accepted pick turns tile `index` face up; the first pick of the
      game also records the start time. */
  function Picked(s: State, index: nat, now: int): State {
    s.(flippedTiles := s.flippedTiles + [index],
       startTime := if s.startTime == 0 then now else s.startTime)
  }

  /** Tiles `first` and `index` show one symbol: they join the matched
      list, the player on turn scores, the move is counted and the match
      settle step is scheduled. */
  function Scored(s: State, first: nat, index: nat): State
    requires s.turn < |s.scores|
  {
    s.(matchedTiles := s.matchedTiles + [first, index],
       justMatchedTiles := [first, index],
       scores := s.scores[s.turn := s.scores[s.turn] + 1],
       moves := s.moves + 1,
       pending := MatchSettle)
  }

  /** handleTileClick on tile `index` at clock reading `now`. */
  function ClickStep(c: Config, s: State, index: nat, now: int): (r: State)
    requires Consistent(c, s) && index < |s.tiles|
    ensures r.tiles == s.tiles && r.turn == s.turn
    ensures r.elapsedTime == s.elapsedTime && r.gameOver == s.gameOver
  {
    if !Selectable(s, index) then s
    else if |s.flippedTiles| == 0 then Picked(s, index, now)
    else
      var first := s.flippedTiles[0];
      if s.tiles[first] == s.tiles[index] then Scored(Picked(s, index, now), first, index)
      else Picked(s, index, now).(pending := MismatchSettle)
  }

  /** The continuation a second pick scheduled, run when its timeout fires. */
  function SettleStep(c: Config, s: State): (r: State)
    requires Consistent(c, s) && s.pending != Idle
    ensures r.flippedTiles == [] && r.justMatchedTiles == [] && r.pending == Idle
    ensures r.tiles == s.tiles && r.matchedTiles == s.matchedTiles && r.scores == s.scores
    ensures r.startTime == s.startTime && r.elapsedTime == s.elapsedTime && r.gameOver == s.gameOver
  {
    if s.pending == MatchSettle then
      s.(flippedTiles := [], justMatchedTiles := [], pending := Idle)
    else
      s.(flippedTiles := [], turn := (s.turn + 1) % c.numberOfPlayers,
         moves := s.moves + 1, pending := Idle)
  }

  /** restartGame with the board generateTiles produced. */
  function RestartStep(c: Config, s: State, board: seq<int>): (r: State)
    ensures r.tiles == board && r.flippedTiles == [] && r.matchedTiles == [] && r.justMatchedTiles == []
    ensures r.moves == 0 && r.startTime == 0 && r.elapsedTime == 0 && !r.gameOver && r.pending == Idle
    ensures |s.matchedTiles| != TileCount(c) ==> r.turn == 0
  {
    InitialState(c, board).(turn := if |s.matchedTiles| == TileCount(c) then s.turn else 0)
  }

  /** The win-check effect at clock reading `now`. */
  function WinCheckStep(c: Config, s: State, now: int): (r: State)
    ensures r.gameOver == (s.gameOver || |s.matchedTiles| == TileCount(c))
    ensures r.(gameOver := s.gameOver, elapsedTime := s.elapsedTime) == s
  {
    if |s.matchedTiles| == TileCount(c) then
      s.(gameOver := true,
         elapsedTime := if c.numberOfPlayers == 1 then ElapsedSeconds(s.startTime, now)
                        else s.elapsedTime)
    else s
  }

  /** Once every tile is matched, no tile can be selected. */
  lemma FullBoardLocks(c: Config, s: State, index: nat)
    requires Consistent(c, s) && index < |s.tiles|
    ensures |s.matchedTiles| == TileCount(c) ==> !Selectable(s, index)
  {
    if |s.matchedTiles| == TileCount(c) {
      DistinctCovers(s.matchedTiles, |s.tiles|);
    }
  }

  /** The screen as first shown is consistent. */
  lemma InitialConsistent(c: Config, board: seq<int>)
    requires SupportedConfig(c) && |board| == TileCount(c)
    ensures Consistent(c, InitialState(c, board))
  {
  }

  /** Clicks keep the state consistent: at most two distinct tiles face up,
      the matched list made of equal-symbol pairs, twice the total score
      equal to the number of matched tiles. The matched list only grows, by
      appending, and the board and configuration-sized lists are untouched. */
  lemma ClickConsistent(c: Config, s: State, index: nat, now: int)
    requires Consistent(c, s) && index < |s.tiles|
    ensures var r := ClickStep(c, s, index, now);
      && Consistent(c, r)
      && s.matchedTiles <= r.matchedTiles
      && r.tiles == s.tiles
      && r.gameOver == s.gameOver
  {
    FullBoardLocks(c, s, index);
    if Selectable(s, index) {
      if |s.flippedTiles| == 0 {
        FirstPickConsistent(c, s, index, now);
      } else if s.tiles[s.flippedTiles[0]] == s.tiles[index] {
        MatchConsistent(c, s, index, now);
      } else {
        MismatchConsistent(c, s, index, now);
      }
    }
  }

  /** An accepted first pick keeps the invariant. */
  lemma FirstPickConsistent(c: Config, s: State, index: nat, now: int)
    requires Consistent(c, s) && index < |s.tiles|
    requires Selectable(s, index) && |s.flippedTiles| == 0
    ensures Consistent(c, Picked(s, index, now))
  {
  }

  /** An accepted second pick showing the first pick's symbol keeps the
      invariant once the pair is matched and scored. */
  lemma MatchConsistent(c: Config, s: State, index: nat, now: int)
    requires Consistent(c, s) && index < |s.tiles|
    requires Selectable(s, index) && |s.flippedTiles| == 1
    requires s.tiles[s.flippedTiles[0]] == s.tiles[index]
    ensures Consistent(c, Scored(Picked(s, index, now), s.flippedTiles[0], index))
  {
    var first := s.flippedTiles[0];
    var r := Scored(Picked(s, index, now), first, index);
    FullBoardLocks(c, s, index);
    AppendPair(s.matchedTiles, s.tiles, first, index);
    SumIncrement(s.scores, s.turn);
    assert r.flippedTiles == [first, index] == r.justMatchedTiles;
    assert Distinct(r.flippedTiles) && Indices(r.flippedTiles, |r.tiles|);
  }

  /** An accepted second pick showing another symbol keeps the invariant
      once the mismatch settle step is scheduled. */
  lemma MismatchConsistent(c: Config, s: State, index: nat, now: int)
    requires Consistent(c, s) && index < |s.tiles|
    requires Selectable(s, index) && |s.flippedTiles| == 1
    requires s.tiles[s.flippedTiles[0]] != s.tiles[index]
    ensures Consistent(c, Picked(s, index, now).(pending := MismatchSettle))
  {
  }

  /** A click does nothing when the tile is already face up or matched,
      when two tiles are already face up, or when every tile is matched. */
  lemma ClickIgnored(c: Config, s: State, index: nat, now: int)
    requires Consistent(c, s) && index < |s.tiles|
    requires || index in s.flippedTiles || index in s.matchedTiles
             || |s.flippedTiles| == 2 || |s.matchedTiles| == TileCount(c)
    ensures ClickStep(c, s, index, now) == s
  {
    FullBoardLocks(c, s, index);
  }

  /** An accepted first pick turns one tile face up and changes nothing
      else but the start time, which it sets only when none was recorded. */
  lemma FirstPick(c: Config, s: State, index: nat, now: int)
    requires Consistent(c, s) && index < |s.tiles|
    requires Selectable(s, index) && s.flippedTiles == []
    ensures var r := ClickStep(c, s, index, now);
      && r.flippedTiles == [index]
      && r.pending == Idle
      && r.startTime == (if s.startTime == 0 then now else s.startTime)
      && r.(flippedTiles := s.flippedTiles, startTime := s.startTime) == s
  {
  }

  /** A second pick showing the same symbol as the first: both positions
      join the matched list, the player on turn scores one point and nobody
      else does, the move count goes up by one and the turn stays. The
      settle step that follows turns both tiles back into plain matched
      tiles and changes nothing else. */
  lemma MatchingPick(c: Config, s: State, index: nat, now: int)
    requires Consistent(c, s) && index < |s.tiles|
    requires Selectable(s, index) && |s.flippedTiles| == 1
    requires s.tiles[s.flippedTiles[0]] == s.tiles[index]
    ensures var first := s.flippedTiles[0];
      var r := ClickStep(c, s, index, now);
      && r.matchedTiles == s.matchedTiles + [first, index]
      && r.justMatchedTiles == [first, index]
      && |r.scores| == |s.scores|
      && r.scores[s.turn] == s.scores[s.turn] + 1
      && (forall p :: 0 <= p < |s.scores| && p != s.turn ==> r.scores[p] == s.scores[p])
      && r.moves == s.moves + 1
      && r.turn == s.turn
      && r.pending == MatchSettle
      && Consistent(c, r)
      && var t := SettleStep(c, r);
         && t.flippedTiles == [] && t.justMatchedTiles == []
         && t.matchedTiles == r.matchedTiles && t.scores == r.scores
         && t.turn == s.turn && t.moves == s.moves + 1
  {
    ClickConsistent(c, s, index, now);
  }

  /** A second pick showing a different symbol: no score, matched tile or
      move changes yet. The settle step that follows turns both tiles face
      down, passes the turn to the next player, wrapping round after the
      last, and counts the move. */
  lemma MismatchingPick(c: Config, s: State, index: nat, now: int)
    requires Consistent(c, s) && index < |s.tiles|
    requires Selectable(s, index) && |s.flippedTiles| == 1
    requires s.tiles[s.flippedTiles[0]] != s.tiles[index]
    ensures var r := ClickStep(c, s, index, now);
      && r.flippedTiles == s.flippedTiles + [index]
      && r.matchedTiles == s.matchedTiles && r.scores == s.scores
      && r.moves == s.moves && r.turn == s.turn
      && r.pending == MismatchSettle
      && Consistent(c, r)
      && var t := SettleStep(c, r);
         && t.flippedTiles == []
         && t.matchedTiles == s.matchedTiles && t.scores == s.scores
         && t.turn == (s.turn + 1) % c.numberOfPlayers
         && t.moves == s.moves + 1
  {
    ClickConsistent(c, s, index, now);
  }

  /** Settling keeps the state consistent, empties the face-up list and
      leaves the board, the matched list, the scores and the clock alone. */
  lemma SettleConsistent(c: Config, s: State)
    requires Consistent(c, s) && s.pending != Idle
    ensures var r := SettleStep(c, s);
      && Consistent(c, r)
      && r.flippedTiles == [] && r.pending == Idle
      && r.tiles == s.tiles && r.matchedTiles == s.matchedTiles && r.scores == s.scores
      && r.startTime == s.startTime && r.elapsedTime == s.elapsedTime
  {
  }

  /** Restarting with any board the shuffle can produce: the face-up,
      matched and just-matched lists are empty, every player's score is
      zero, the moves and both clock values are zero, the game is not over,
      and the turn stays with the player on turn only when every tile of
      the finished game was matched. */
  lemma RestartConsistent(c: Config, s: State, board: seq<int>)
    requires Consistent(c, s) && |board| == TileCount(c)
    ensures var r := RestartStep(c, s, board);
      && Consistent(c, r)
      && r.tiles == board
      && r.flippedTiles == [] && r.matchedTiles == [] && r.justMatchedTiles == []
      && |r.scores| == c.numberOfPlayers
      && (forall p :: 0 <= p < |r.scores| ==> r.scores[p] == 0)
      && r.moves == 0 && r.startTime == 0 && r.elapsedTime == 0
      && !r.gameOver && r.pending == Idle
      && r.turn == (if |s.matchedTiles| == TileCount(c) then s.turn else 0)
  {
    InitialConsistent(c, board);
  }

  /** The win check declares the game over exactly when every tile is
      matched, and never earlier; in a solo game it then freezes the clock at
      the whole seconds since the first pick. It changes nothing else. */
  lemma WinCheckConsistent(c: Config, s: State, now: int)
    requires Consistent(c, s)
    ensures var r := WinCheckStep(c, s, now);
      && Consistent(c, r)
      && (r.gameOver <==> |s.matchedTiles| == TileCount(c))
      && (r.gameOver && c.numberOfPlayers == 1 ==>
            1000 * r.elapsedTime <= now - s.startTime < 1000 * (r.elapsedTime + 1))
      && (c.numberOfPlayers != 1 || !r.gameOver ==> r.elapsedTime == s.elapsedTime)
      && r.(gameOver := s.gameOver, elapsedTime := s.elapsedTime) == s
  {
  }

  /** The start time, once recorded, is never overwritten by a click, a
      settle step or the win check; only a restart clears it. */
  lemma StartTimeKept(c: Config, s: State, index: nat, now: int)
    requires Consistent(c, s) && index < |s.tiles| && s.startTime != 0
    ensures ClickStep(c, s, index, now).startTime == s.startTime
    ensures s.pending != Idle ==> SettleStep(c, s).startTime == s.startTime
    ensures WinCheckStep(c, s, now).startTime == s.startTime
  {
  }

  /** Once the game is over, no click changes anything and a settle step
      left pending keeps the matched list and the start time. So nothing the
      win-check effect depends on changes again before a restart, and the
      effect does not run again. */
  lemma GameOverStable(c: Config, s: State, index: nat, now: int)
    requires Consistent(c, s) && index < |s.tiles| && s.gameOver
    ensures ClickStep(c, s, index, now) == s
    ensures s.pending != Idle ==>
      SettleStep(c, s).matchedTiles == s.matchedTiles && SettleStep(c, s).startTime == s.startTime
  {
    FullBoardLocks(c, s, index);
  }

  /** The game screen: its state variables, the pending settle step, and the
      settings it was opened with. */
  class MatchGame {
    const config: Config
    /** The symbols generateTiles pairs up, fixed by the theme and side. */
    const symbols: seq<int>
    var tiles: seq<int>
    var flippedTiles: seq<nat>
    var matchedTiles: seq<nat>
    var justMatchedTiles: seq<nat>
    var turn: nat
    var scores: seq<nat>
    var moves: nat
    var startTime: int
    var elapsedTime: int
    var gameOver: bool
    var pending: Pending

    /** The current values of the state variables. */
    function Snapshot(): State
      reads this
    {
      State(tiles, flippedTiles, matchedTiles, justMatchedTiles, turn, scores,
            moves, startTime, elapsedTime, gameOver, pending)
    }

    /** The invariant every handler keeps. It does not repeat that the
        board pairs up `symbols`: the board is set only by the constructor
        and Restart, which require exactly that, and every other handler
        leaves it unchanged (ClickConsistent, SettleConsistent,
        WinCheckConsistent), so BoardShape applies to it throughout. */
    ghost predicate Valid()
      reads this
    {
      Consistent(config, Snapshot()) && 2 * |symbols| == TileCount(config)
    }

    /** The screen as first shown, with the board the shuffle produced. */
    constructor (c: Config, board: seq<int>)
      requires SupportedConfig(c) && IsShuffledBoard(board, SymbolValues(c.theme, c.gridSize))
      ensures Valid() && config == c && symbols == SymbolValues(c.theme, c.gridSize)
      ensures Snapshot() == InitialState(c, board)
    {
      BoardLength(c.theme, c.gridSize, board);
      InitialConsistent(c, board);
      config, symbols := c, SymbolValues(c.theme, c.gridSize);
      new;
      ClearBoard(board);
      ResetCounters();
      turn := 0;
      assert Snapshot() == InitialState(c, board);
    }

    /** handleTileClick: the user clicks tile `index` at clock reading `now`. */
    method SelectTile(index: nat, now: int)
      requires Valid() && index < |tiles|
      modifies this
      ensures Valid()
      ensures Snapshot() == ClickStep(config, old(Snapshot()), index, now)
    {
      if index in flippedTiles || index in matchedTiles || |flippedTiles| == 2 {
        return;
      }
      var previous := flippedTiles;
      if previous == [] {
        FirstPickConsistent(config, Snapshot(), index, now);
        TurnUp(index, now);
      } else if tiles[previous[0]] == tiles[index] {
        MatchConsistent(config, Snapshot(), index, now);
        TurnUp(index, now);
        RecordMatch(previous[0], index);
      } else {
        MismatchConsistent(config, Snapshot(), index, now);
        TurnUp(index, now);
        pending := MismatchSettle;
      }
    }

    /** Internal step of SelectTile, not called by the host: the accepted
        pick turns tile `index` face up; the first pick of the game records
        the start time. */
    method TurnUp(index: nat, now: int)
      modifies this
      ensures Snapshot() == Picked(old(Snapshot()), index, now)
    {
      flippedTiles, startTime := flippedTiles + [index], if startTime == 0 then now else startTime;
    }

    /** Internal step of SelectTile, not called by the host: tiles `first`
        and `index` show one symbol, so the pair is matched and scored at
        once, and the match settle step is scheduled. */
    method RecordMatch(first: nat, index: nat)
      requires turn < |scores|
      modifies this
      ensures Snapshot() == Scored(old(Snapshot()), first, index)
    {
      matchedTiles, justMatchedTiles := matchedTiles + [first, index], [first, index];
      scores, moves, pending := scores[turn := scores[turn] + 1], moves + 1, MatchSettle;
    }

    /** The deferred continuation scheduled by the last second pick. */
    method Settle()
      requires Valid() && pending != Idle
      modifies this
      ensures Valid()
      ensures Snapshot() == SettleStep(config, old(Snapshot()))
    {
      SettleConsistent(config, Snapshot());
      if pending == MatchSettle {
        flippedTiles := [];
        justMatchedTiles := [];
      } else {
        flippedTiles := [];
        turn := (turn + 1) % config.numberOfPlayers;
        moves := moves + 1;
      }
      pending := Idle;
    }

    /** restartGame, with `board` the tiles generateTiles shuffled. */
    method Restart(board: seq<int>)
      requires Valid() && IsShuffledBoard(board, symbols)
      modifies this
      ensures Valid()
      ensures Snapshot() == RestartStep(config, old(Snapshot()), board)
    {
      ShuffledLength(board, symbols);
      ghost var after := RestartStep(config, Snapshot(), board);
      RestartConsistent(config, Snapshot(), board);
      var won := |matchedTiles| == TileCount(config);
      ClearBoard(board);
      ResetCounters();
      turn := if won then turn else 0;
      assert Snapshot() == after;
    }

    /** Internal step of Restart, not called by the host: the new board goes
        in with nothing face up or matched, and no settle step is left
        pending. */
    method ClearBoard(board: seq<int>)
      modifies this
      ensures Snapshot() == old(Snapshot()).(tiles := board, flippedTiles := [], matchedTiles := [],
                                             justMatchedTiles := [], pending := Idle)
    {
      tiles, flippedTiles, matchedTiles, justMatchedTiles, pending := board, [], [], [], Idle;
    }

    /** Internal step of Restart, not called by the host: every score, the
        move count and the clock go back to zero, and the game-over flag is
        lowered. */
    method ResetCounters()
      modifies this
      ensures Snapshot() == old(Snapshot()).(scores := Zeros(config.numberOfPlayers), moves := 0,
                                             startTime := 0, elapsedTime := 0, gameOver := false)
    {
      scores, moves, startTime, elapsedTime, gameOver := Zeros(config.numberOfPlayers), 0, 0, 0, false;
    }

    /** The win-check effect, run at clock reading `now`. */
    method CheckWin(now: int)
      requires Valid()
      modifies this
      ensures Valid()
      ensures Snapshot() == WinCheckStep(config, old(Snapshot()), now)
    {
      WinCheckConsistent(config, Snapshot(), now);
      if |matchedTiles| == TileCount(config) {
        if config.numberOfPlayers == 1 {
          elapsedTime := ElapsedSeconds(startTime, now);
        }
        gameOver := true;
      }
    }
  }
}
