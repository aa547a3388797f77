/** Board construction for the match game (generateTiles): half a board's
    worth of symbols, each placed twice, in an order chosen by a shuffle.
    A symbol is an int. Under the numbers theme the symbols are 0 .. k-1;
    under the icons theme a symbol is the position of its icon in the icon
    list of IconCount entries,
    and the game only ever compares two tiles' icons for identity, so equal
    positions are exactly equal icons. */
module Board {

  datatype Theme = Numbers | Icons

  /** How many icons the icons theme can draw from. */
  const IconCount: nat := 32

  function Min(a: int, b: int): int {
    if a <= b then a else b
  }

  /** The keys 0 .. k-1 of an array of length k, in order. */
  function Range(k: nat): (r: seq<int>)
    ensures |r| == k
    ensures forall i :: 0 <= i < k ==> r[i] == i
  {
    if k == 0 then [] else Range(k - 1) + [k - 1]
  }

  /** The symbols a board of side gridSize is built from: half as many as
      there are tiles, and under the icons theme no more than the icon list
      holds, since taking a prefix of a list stops at its end. Only the sides
      4 and 6 are offered; an odd side would make the symbol count
      fractional, and building the array of that length throws. */
  function SymbolValues(theme: Theme, gridSize: nat): (r: seq<int>)
    requires gridSize == 4 || gridSize == 6
    ensures |r| == (if theme == Numbers then gridSize * gridSize / 2
                    else Min(gridSize * gridSize / 2, IconCount))
    ensures forall i :: 0 <= i < |r| ==> r[i] == i
  {
    var half := gridSize * gridSize / 2;
    if theme == Numbers then Range(half) else Range(Min(half, IconCount))
  }

  /** A board the shuffle can produce from the symbol list: any reordering of
      the list followed by a second copy of it. */
  ghost predicate IsShuffledBoard(board: seq<int>, values: seq<int>) {
    multiset(board) == multiset(values + values)
  }

  /** Each key of Range(k) occurs in it once, and nothing else occurs. */
  lemma {:induction false} RangeCount(k: nat, s: int)
    ensures multiset(Range(k))[s] == if 0 <= s < k then 1 else 0
  {
    if k > 0 {
      var shorter := Range(k - 1);
      RangeCount(k - 1, s);
      assert Range(k) == shorter + [k - 1];
      assert multiset(shorter + [k - 1]) == multiset(shorter) + multiset([k - 1]);
    }
  }

  /** A reordering of two copies of 0 .. half-1 has 2 * half entries, each
      key twice, and nothing else. */
  lemma PairedRangeShape(half: nat, board: seq<int>)
    requires multiset(board) == multiset(Range(half) + Range(half))
    ensures |board| == 2 * half
    ensures forall s :: multiset(board)[s] == if 0 <= s < half then 2 else 0
    ensures forall i :: 0 <= i < |board| ==> 0 <= board[i] < half
  {
    assert |board| == |multiset(board)|;
    forall s ensures multiset(board)[s] == if 0 <= s < half then 2 else 0 {
      RangeCount(half, s);
    }
    forall i | 0 <= i < |board| ensures 0 <= board[i] < half {
      assert board[i] in multiset(board);
    }
  }

  /** For the two supported sides the symbol list is 0 .. half-1 under
      either theme, since 18 symbols fit in the icon list. */
  lemma SmallBoardValues(theme: Theme, gridSize: nat)
    requires gridSize == 4 || gridSize == 6
    ensures gridSize * gridSize == 2 * (gridSize * gridSize / 2)
    ensures SymbolValues(theme, gridSize) == Range(gridSize * gridSize / 2)
  {
    if gridSize == 4 { assert gridSize * gridSize == 16; } else { assert gridSize * gridSize == 36; }
  }

  /** A shuffle keeps the number of tiles: two per symbol. */
  lemma ShuffledLength(board: seq<int>, values: seq<int>)
    requires IsShuffledBoard(board, values)
    ensures |board| == 2 * |values|
  {
    assert |board| == |multiset(board)|;
  }

  /** A shuffled board of side 4 or 6 has one tile per grid cell, twice as
      many as there are symbols. */
  lemma BoardLength(theme: Theme, gridSize: nat, board: seq<int>)
    requires gridSize == 4 || gridSize == 6
    requires IsShuffledBoard(board, SymbolValues(theme, gridSize))
    ensures |board| == gridSize * gridSize == 2 * |SymbolValues(theme, gridSize)|
  {
    SmallBoardValues(theme, gridSize);
    assert |board| == |multiset(board)|;
  }

  /** Whatever order the shuffle picks, a board of side 4 or 6 has
      gridSize * gridSize tiles, each of the gridSize * gridSize / 2 symbols
      sits on exactly two of them, and no other symbol appears. */
  lemma BoardShape(theme: Theme, gridSize: nat, board: seq<int>)
    requires gridSize == 4 || gridSize == 6
    requires IsShuffledBoard(board, SymbolValues(theme, gridSize))
    ensures |board| == gridSize * gridSize
    ensures var half := gridSize * gridSize / 2;
      && (forall s :: multiset(board)[s] == if 0 <= s < half then 2 else 0)
      && (forall i :: 0 <= i < |board| ==> 0 <= board[i] < half)
  {
    var half := gridSize * gridSize / 2;
    SmallBoardValues(theme, gridSize);
    PairedRangeShape(half, board);
  }
}
