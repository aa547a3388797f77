/** The end-of-game summary (GameOverModal): who won, in which order the
    players are listed, and the heading above the list.

    Scores arrive as a list indexed by player position; players are shown
    numbered from 1, so player k owns scores[k - 1]. */
module Ranking {
  import Decimal

  /** The highest score (Math.max over the list). */
  function MaxScore(scores: seq<int>): (m: int)
    requires |scores| > 0
    ensures exists i :: 0 <= i < |scores| && scores[i] == m
    ensures forall i :: 0 <= i < |scores| ==> scores[i] <= m
  {
    if |scores| == 1 then scores[0]
    else
      var rest := MaxScore(scores[..|scores| - 1]);
      assert forall i :: 0 <= i < |scores| - 1 ==> scores[..|scores| - 1][i] == scores[i];
      if scores[|scores| - 1] > rest then scores[|scores| - 1] else rest
  }

  /** Player k, numbered from 1, has the highest score. */
  predicate IsWinner(scores: seq<int>, k: int) {
    1 <= k <= |scores| && scores[k - 1] == MaxScore(scores)
  }

  /** The numbers of the players among the first n whose score is `top`,
      in ascending order: what the reduce has accumulated after n steps. */
  function WinnersAmong(scores: seq<int>, top: int, n: nat): seq<int>
    requires n <= |scores|
  {
    if n == 0 then []
    else WinnersAmong(scores, top, n - 1) + (if scores[n - 1] == top then [n] else [])
  }

  /** The winners list: the numbers of all players with the highest score,
      in ascending order; empty when there are no scores. */
  function Winners(scores: seq<int>): seq<int> {
    if scores == [] then [] else WinnersAmong(scores, MaxScore(scores), |scores|)
  }

  /** The players among the first n with score `top` are exactly the
      numbers k <= n whose score is `top`, strictly ascending. */
  lemma {:induction false} WinnersAmongExactly(scores: seq<int>, top: int, n: nat)
    requires n <= |scores|
    ensures forall k :: k in WinnersAmong(scores, top, n) <==> 1 <= k <= n && scores[k - 1] == top
    ensures forall i, j :: 0 <= i < j < |WinnersAmong(scores, top, n)| ==>
              WinnersAmong(scores, top, n)[i] < WinnersAmong(scores, top, n)[j]
  {
    if n > 0 {
      WinnersAmongExactly(scores, top, n - 1);
      var prev := WinnersAmong(scores, top, n - 1);
      forall i | 0 <= i < |prev| ensures prev[i] < n {
        assert prev[i] in prev;
      }
    }
  }

  /** The winners list holds exactly the players with the highest score, in
      ascending order of player number without repeats. */
  lemma WinnersExactly(scores: seq<int>)
    ensures forall k :: k in Winners(scores) <==> IsWinner(scores, k)
    ensures forall i, j :: 0 <= i < j < |Winners(scores)| ==> Winners(scores)[i] < Winners(scores)[j]
  {
    if scores != [] {
      WinnersAmongExactly(scores, MaxScore(scores), |scores|);
    }
  }

  /** With at least one player there is at least one winner, and every
      winner's score is at least every player's score. */
  lemma WinnersNonEmpty(scores: seq<int>)
    requires |scores| > 0
    ensures |Winners(scores)| > 0
    ensures forall k :: k in Winners(scores) ==>
              1 <= k <= |scores| && forall i :: 0 <= i < |scores| ==> scores[k - 1] >= scores[i]
  {
    WinnersExactly(scores);
    var i :| 0 <= i < |scores| && scores[i] == MaxScore(scores);
    assert IsWinner(scores, i + 1);
  }

  /** Two players tied on 3 ahead of a third on 1 are both winners; in
      [2, 5, 1, 5] the second and fourth players win. */
  lemma WinnersExamples()
    ensures Winners([3, 3, 1]) == [1, 2]
    ensures Winners([2, 5, 1, 5]) == [2, 4]
    ensures Winners([4]) == [1]
  {
    assert MaxScore([3, 3, 1]) == 3;
    assert MaxScore([2, 5, 1, 5]) == 5;
  }

  /** The reduce that builds the winners list: walk the scores in order and
      push each player number whose score equals the highest score. */
  method CollectWinners(scores: seq<int>) returns (acc: seq<int>)
    ensures acc == Winners(scores)
  {
    acc := [];
    var index := 0;
    while index < |scores|
      invariant 0 <= index <= |scores|
      invariant acc == WinnersAmong(scores, if scores == [] then 0 else MaxScore(scores), index)
    {
      if scores[index] == MaxScore(scores) {
        acc := acc + [index + 1];
      }
      index := index + 1;
    }
  }

  /** One row of the results list: a player number and that player's score. */
  datatype Player = Player(index: int, score: int)

  /** scores.map((score, index) => ({ index: index + 1, score })). */
  function Players(scores: seq<int>): (ps: seq<Player>)
    ensures |ps| == |scores|
    ensures forall i :: 0 <= i < |scores| ==> ps[i] == Player(i + 1, scores[i])
  {
    seq(|scores|, i requires 0 <= i < |scores| => Player(i + 1, scores[i]))
  }

  /** The sort comparator: a winner goes before a non-winner, and otherwise
      the higher score goes first. Negative means `a` goes before `b`. */
  function Compare(winners: seq<int>, a: Player, b: Player): int {
    var aIsWinner := a.index in winners;
    var bIsWinner := b.index in winners;
    if aIsWinner && !bIsWinner then -1
    else if !aIsWinner && bIsWinner then 1
    else b.score - a.score
  }

  /** The comparator is consistent: swapping its arguments negates it, and
      "not after" is transitive, strictly so when the first step is strict. */
  lemma CompareConsistent(w: seq<int>, a: Player, b: Player, c: Player)
    ensures Compare(w, a, b) == -Compare(w, b, a)
    ensures Compare(w, a, b) <= 0 && Compare(w, b, c) <= 0 ==> Compare(w, a, c) <= 0
    ensures Compare(w, a, b) < 0 && Compare(w, b, c) <= 0 ==> Compare(w, a, c) < 0
  {
  }

  /** No pair of rows is out of the comparator's order. */
  ghost predicate Sorted(w: seq<int>, s: seq<Player>) {
    forall i, j :: 0 <= i < j < |s| ==> Compare(w, s[i], s[j]) <= 0
  }

  /** Rows the comparator ranks equal keep ascending player numbers. */
  ghost predicate Stable(w: seq<int>, s: seq<Player>) {
    forall i, j :: 0 <= i < j < |s| && Compare(w, s[i], s[j]) == 0 ==> s[i].index < s[j].index
  }

  /** Places `p` after every row the comparator does not rank strictly
      after it. */
  function Insert(w: seq<int>, p: Player, sorted: seq<Player>): seq<Player> {
    if sorted == [] then [p]
    else if Compare(w, p, sorted[0]) < 0 then [p] + sorted
    else [sorted[0]] + Insert(w, p, sorted[1..])
  }

  /** A stable sort of `ps` by the comparator: each row in turn is inserted
      behind the rows it ties with, so ties keep their original order. */
  function SortPlayers(w: seq<int>, ps: seq<Player>): seq<Player> {
    if ps == [] then []
    else Insert(w, ps[|ps| - 1], SortPlayers(w, ps[..|ps| - 1]))
  }

  /** A row that the comparator puts no later than any row of a sorted,
      stable list, and that precedes in number those it ties with, can go
      in front of the list. */
  lemma ConsSorted(w: seq<int>, x: Player, t: seq<Player>)
    requires Sorted(w, t) && Stable(w, t)
    requires forall j :: 0 <= j < |t| ==> Compare(w, x, t[j]) <= 0
    requires forall j :: 0 <= j < |t| && Compare(w, x, t[j]) == 0 ==> x.index < t[j].index
    ensures Sorted(w, [x] + t) && Stable(w, [x] + t)
  {
    var r := [x] + t;
    forall i, j | 0 <= i < j < |r|
      ensures Compare(w, r[i], r[j]) <= 0
      ensures Compare(w, r[i], r[j]) == 0 ==> r[i].index < r[j].index
    {
      assert r[j] == t[j - 1];
      if i > 0 {
        assert r[i] == t[i - 1];
      }
    }
  }

  /** Inserting adds exactly the inserted row. */
  lemma {:induction false} InsertPermutes(w: seq<int>, p: Player, s: seq<Player>)
    ensures multiset(Insert(w, p, s)) == multiset(s) + multiset{p}
  {
    if s != [] && Compare(w, p, s[0]) >= 0 {
      InsertPermutes(w, p, s[1..]);
      assert s == [s[0]] + s[1..];
    }
  }

  /** When `p` does not go in front of a sorted, stable list, the list's
      first row can stay in front of the rest with `p` inserted. */
  lemma HeadStaysFirst(w: seq<int>, p: Player, s: seq<Player>)
    requires s != [] && Sorted(w, s) && Stable(w, s)
    requires forall i :: 0 <= i < |s| ==> s[i].index < p.index
    requires Compare(w, p, s[0]) >= 0
    ensures var t := Insert(w, p, s[1..]);
      && (forall j :: 0 <= j < |t| ==> Compare(w, s[0], t[j]) <= 0)
      && (forall j :: 0 <= j < |t| && Compare(w, s[0], t[j]) == 0 ==> s[0].index < t[j].index)
  {
    var rest := s[1..];
    var t := Insert(w, p, rest);
    InsertPermutes(w, p, rest);
    forall j | 0 <= j < |t|
      ensures Compare(w, s[0], t[j]) <= 0
      ensures Compare(w, s[0], t[j]) == 0 ==> s[0].index < t[j].index
    {
      assert t[j] in multiset(t);
      if t[j] == p {
        CompareConsistent(w, p, s[0], p);
      } else {
        assert t[j] in multiset(rest);
        var k :| 0 <= k < |rest| && rest[k] == t[j];
        assert s[k + 1] == t[j];
      }
    }
  }

  /** Inserting a row whose number is above every number in a sorted,
      stable list adds exactly that row and keeps the list sorted and
      stable. */
  lemma {:induction false} InsertSorted(w: seq<int>, p: Player, s: seq<Player>)
    requires Sorted(w, s) && Stable(w, s)
    requires forall i :: 0 <= i < |s| ==> s[i].index < p.index
    ensures multiset(Insert(w, p, s)) == multiset(s) + multiset{p}
    ensures Sorted(w, Insert(w, p, s)) && Stable(w, Insert(w, p, s))
  {
    InsertPermutes(w, p, s);
    if s == [] {
    } else if Compare(w, p, s[0]) < 0 {
      forall j | 0 <= j < |s| ensures Compare(w, p, s[j]) < 0 {
        CompareConsistent(w, p, s[0], s[j]);
      }
      ConsSorted(w, p, s);
    } else {
      var rest := s[1..];
      assert Sorted(w, rest) && Stable(w, rest) by {
        assert forall i :: 0 <= i < |rest| ==> rest[i] == s[i + 1];
      }
      InsertSorted(w, p, rest);
      HeadStaysFirst(w, p, s);
      ConsSorted(w, s[0], Insert(w, p, rest));
    }
  }

  /** Rows in strictly ascending number order sort into a sorted, stable
      reordering of themselves. */
  lemma {:induction false} SortPlayersCorrect(w: seq<int>, ps: seq<Player>)
    requires forall i, j :: 0 <= i < j < |ps| ==> ps[i].index < ps[j].index
    ensures multiset(SortPlayers(w, ps)) == multiset(ps)
    ensures Sorted(w, SortPlayers(w, ps)) && Stable(w, SortPlayers(w, ps))
  {
    if ps != [] {
      var front := ps[..|ps| - 1];
      var last := ps[|ps| - 1];
      SortPlayersCorrect(w, front);
      var s := SortPlayers(w, front);
      forall i | 0 <= i < |s| ensures s[i].index < last.index {
        assert s[i] in multiset(front);
        var k :| 0 <= k < |front| && front[k] == s[i];
      }
      InsertSorted(w, last, s);
      assert ps == front + [last];
    }
  }

  /** sortedPlayers: the rows of all players, ordered by the comparator with
      the winners list computed from the same scores. */
  function SortedPlayers(scores: seq<int>): seq<Player> {
    SortPlayers(Winners(scores), Players(scores))
  }

  /** The results list holds every player's row exactly once; winners come
      before non-winners; scores never increase down the list; and players
      with equal scores appear in ascending order of player number. */
  lemma SortedPlayersOrder(scores: seq<int>)
    ensures var r := SortedPlayers(scores);
      && multiset(r) == multiset(Players(scores))
      && (forall i, j :: 0 <= i < j < |r| && r[j].index in Winners(scores) ==> r[i].index in Winners(scores))
      && (forall i, j :: 0 <= i < j < |r| ==> r[i].score >= r[j].score)
      && (forall i, j :: 0 <= i < j < |r| && r[i].score == r[j].score ==> r[i].index < r[j].index)
  {
    SortPlayersCorrect(Winners(scores), Players(scores));
    OrderedRows(scores, SortedPlayers(scores));
  }

  /** Any reordering of the players' rows that the comparator sorts stably
      lists winners first, never increases in score and keeps equal scores
      in ascending player number. */
  lemma OrderedRows(scores: seq<int>, r: seq<Player>)
    requires multiset(r) == multiset(Players(scores))
    requires Sorted(Winners(scores), r) && Stable(Winners(scores), r)
    ensures forall i, j :: 0 <= i < j < |r| && r[j].index in Winners(scores) ==> r[i].index in Winners(scores)
    ensures forall i, j :: 0 <= i < j < |r| ==> r[i].score >= r[j].score
    ensures forall i, j :: 0 <= i < j < |r| && r[i].score == r[j].score ==> r[i].index < r[j].index
  {
    PlayerRows(scores, r);
    forall i, j | 0 <= i < j < |r|
      ensures r[j].index in Winners(scores) ==> r[i].index in Winners(scores)
      ensures r[i].score >= r[j].score
      ensures r[i].score == r[j].score ==> r[i].index < r[j].index
    {
      RowPair(scores, r[i], r[j]);
    }
  }

  /** Two rows of one game, the first not ranked after the second (and
      before it when the comparator ties): a winner is never preceded by a
      non-winner, the score does not increase, and equal scores keep
      ascending player numbers. */
  lemma RowPair(scores: seq<int>, a: Player, b: Player)
    requires 1 <= a.index <= |scores| && a.score == scores[a.index - 1]
    requires 1 <= b.index <= |scores| && b.score == scores[b.index - 1]
    requires Compare(Winners(scores), a, b) <= 0
    requires Compare(Winners(scores), a, b) == 0 ==> a.index < b.index
    ensures b.index in Winners(scores) ==> a.index in Winners(scores)
    ensures a.score >= b.score
    ensures a.score == b.score ==> a.index < b.index
  {
    var w := Winners(scores);
    WinnersExactly(scores);
    if a.index in w && b.index !in w {
      assert a.score == MaxScore(scores) >= b.score;
      assert a.score != b.score;
    }
  }

  /** Dropping the first row keeps a list sorted and stable. */
  lemma TailSorted(w: seq<int>, a: seq<Player>)
    requires a != [] && Sorted(w, a) && Stable(w, a)
    ensures Sorted(w, a[1..]) && Stable(w, a[1..])
  {
    assert forall i :: 0 <= i < |a| - 1 ==> a[1..][i] == a[i + 1];
  }

  /** Two sorted, stable orderings of the same rows, no two of which share
      a player number, start with the same row. */
  lemma SameFirst(w: seq<int>, a: seq<Player>, b: seq<Player>)
    requires a != [] && multiset(a) == multiset(b)
    requires forall i, j :: 0 <= i < j < |a| ==> a[i].index != a[j].index
    requires Sorted(w, a) && Stable(w, a) && Sorted(w, b) && Stable(w, b)
    ensures b != [] && a[0] == b[0]
  {
    assert |a| == |multiset(a)| == |b|;
    assert a[0] in multiset(b) && b[0] in multiset(a);
    var k :| 0 <= k < |a| && a[k] == b[0];
    var m :| 0 <= m < |b| && b[m] == a[0];
    if k != 0 {
      // a ranks a[0] ahead of a[k] == b[0], and b ranks b[0] ahead of b[m] == a[0]
      CompareConsistent(w, a[0], a[k], a[0]);
      assert false;
    }
  }

  /** Dropping the first row removes one copy of it. */
  lemma DropFirst(a: seq<Player>)
    requires a != []
    ensures multiset(a[1..]) == multiset(a) - multiset{a[0]}
  {
    assert a == [a[0]] + a[1..];
  }

  /** Two sorted, stable orderings of the same rows, no two of which share
      a player number, are the same list. */
  lemma {:induction false} SortedStableUnique(w: seq<int>, a: seq<Player>, b: seq<Player>)
    requires multiset(a) == multiset(b)
    requires forall i, j :: 0 <= i < j < |a| ==> a[i].index != a[j].index
    requires Sorted(w, a) && Stable(w, a) && Sorted(w, b) && Stable(w, b)
    ensures a == b
  {
    assert |a| == |multiset(a)| == |b|;
    if a != [] {
      SameFirst(w, a, b);
      DropFirst(a);
      DropFirst(b);
      TailSorted(w, a);
      TailSorted(w, b);
      SortedStableUnique(w, a[1..], b[1..]);
    }
  }

  /** Each row occurs at most once among the players' rows. */
  lemma PlayersOnce(scores: seq<int>, x: Player)
    ensures multiset(Players(scores))[x] <= 1
  {
    var ps := Players(scores);
    if 1 <= x.index <= |ps| {
      var k := x.index - 1;
      assert ps == ps[..k] + [ps[k]] + ps[k + 1..];
      assert forall y :: y in ps[..k] || y in ps[k + 1..] ==> y.index != x.index;
    } else {
      assert x !in ps;
    }
  }

  /** A row at two positions occurs at least twice. */
  lemma TwoCopies(r: seq<Player>, i: nat, j: nat)
    requires i < j < |r| && r[i] == r[j]
    ensures multiset(r)[r[i]] >= 2
  {
    assert r == r[..j] + r[j..];
    assert r[..j][i] == r[i];
    assert r[j..][0] == r[j];
  }

  /** A reordering of the players' rows holds each player's own row, and
      no player number twice. */
  lemma PlayerRows(scores: seq<int>, r: seq<Player>)
    requires multiset(r) == multiset(Players(scores))
    ensures forall i :: 0 <= i < |r| ==> 1 <= r[i].index <= |scores| && r[i].score == scores[r[i].index - 1]
    ensures forall i, j :: 0 <= i < j < |r| ==> r[i].index != r[j].index
  {
    var ps := Players(scores);
    forall i | 0 <= i < |r| ensures 1 <= r[i].index <= |scores| && r[i] == ps[r[i].index - 1] {
      assert r[i] in multiset(ps);
      var k :| 0 <= k < |ps| && ps[k] == r[i];
    }
    forall i, j | 0 <= i < j < |r| ensures r[i].index != r[j].index {
      if r[i].index == r[j].index {
        TwoCopies(r, i, j);
        PlayersOnce(scores, r[i]);
        assert false;
      }
    }
  }

  /** The results order is fully determined: any reordering of the players'
      rows that lists winners first, never increases in score and keeps
      equal scores in ascending player number is exactly sortedPlayers, so
      every stable sort with this comparator yields it. */
  lemma SortedPlayersUnique(scores: seq<int>, r: seq<Player>)
    requires multiset(r) == multiset(Players(scores))
    requires forall i, j :: 0 <= i < j < |r| && r[j].index in Winners(scores) ==> r[i].index in Winners(scores)
    requires forall i, j :: 0 <= i < j < |r| ==> r[i].score >= r[j].score
    requires forall i, j :: 0 <= i < j < |r| && r[i].score == r[j].score ==> r[i].index < r[j].index
    ensures r == SortedPlayers(scores)
  {
    var w := Winners(scores);
    SortPlayersCorrect(w, Players(scores));
    PlayerRows(scores, r);
    WinnersExactly(scores);
    forall i, j | 0 <= i < j < |r|
      ensures Compare(w, r[i], r[j]) <= 0
      ensures Compare(w, r[i], r[j]) == 0 ==> r[i].index < r[j].index
    {
      if Compare(w, r[i], r[j]) == 0 {
        assert r[i].score == r[j].score;
      }
    }
    SortedStableUnique(w, r, SortedPlayers(scores));
  }

  /** The heading above the results: solo games always read "You did it!";
      otherwise a sole winner is named, and several winners make a tie. */
  function Heading(numberOfPlayers: int, winners: seq<int>): string {
    if numberOfPlayers == 1 then "You did it!"
    else if |winners| == 1 then "Player " + Decimal.IntToString(winners[0]) + " wins!"
    else "It's a tie!"
  }

  /** With the winners computed from the scores: a solo game reads "You did
      it!"; otherwise the heading names player k exactly when k alone has
      the highest score, and reads "It's a tie!" exactly when two players
      share the highest score. */
  lemma HeadingChoice(numberOfPlayers: int, scores: seq<int>, k: nat)
    requires |scores| > 0
    ensures var h := Heading(numberOfPlayers, Winners(scores));
      && (numberOfPlayers == 1 ==> h == "You did it!")
      && (numberOfPlayers != 1 ==>
            (h == "Player " + Decimal.IntToString(k) + " wins!" <==>
               IsWinner(scores, k) && forall j :: IsWinner(scores, j) ==> j == k))
      && (numberOfPlayers != 1 ==>
            (h == "It's a tie!" <==> exists i, j :: i != j && IsWinner(scores, i) && IsWinner(scores, j)))
  {
    var w := Winners(scores);
    WinnersExactly(scores);
    WinnersNonEmpty(scores);
    if numberOfPlayers != 1 {
      if |w| == 1 {
        assert w[0] in w;
        var h := Heading(numberOfPlayers, w);
        if h == "Player " + Decimal.IntToString(k) + " wins!" {
          WinsHeadingInjective(w[0], k);
        }
        assert h != "It's a tie!" by {
          assert h[0] == 'P';
        }
        forall i, j | IsWinner(scores, i) && IsWinner(scores, j) ensures i == j {
          assert i in w && j in w;
        }
      } else {
        assert |w| >= 2;
        assert w[0] in w && w[1] in w && w[0] < w[1];
        assert IsWinner(scores, w[0]) && IsWinner(scores, w[1]);
        assert "It's a tie!"[0] != 'P';
      }
    }
  }

  /** Headings that name different players differ. */
  lemma WinsHeadingInjective(a: nat, b: nat)
    requires "Player " + Decimal.IntToString(a) + " wins!" == "Player " + Decimal.IntToString(b) + " wins!"
    ensures a == b
  {
    var sa := Decimal.IntToString(a);
    var sb := Decimal.IntToString(b);
    var h := "Player " + sa + " wins!";
    assert |sa| == |sb|;
    assert sa == h[7..7 + |sa|];
    assert sb == h[7..7 + |sb|];
  }
}
