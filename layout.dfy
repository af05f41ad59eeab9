/** How many columns the board is laid out in. */
module Layout {

  /** The ceiling of the square root of a whole number: the least `r` whose square
      reaches `n`. */
  function CeilSqrt(n: nat): (r: nat)
    ensures n <= r * r
    ensures r == 0 || (r - 1) * (r - 1) < n
  {
    if n == 0 then 0
    else
      var k := CeilSqrt(n - 1);
      if n <= k * k then k
      else
        assert k * k == n - 1;
        assert (k + 1) * (k + 1) == k * k + 2 * k + 1;
        k + 1
  }

  /** The column count: at least three, otherwise the ceiling of the square root
      of the number of cards, so a square grid of that side holds every card and
      one column fewer would not. */
  function Columns(totalCards: nat): (c: nat)
    ensures c >= 3 && totalCards <= c * c
    ensures c == 3 || (c - 1) * (c - 1) < totalCards
    ensures totalCards <= 9 ==> c == 3
  {
    var r := CeilSqrt(totalCards);
    if 3 > r then 3
    else
      NineBelowSquare(r - 1);
      r
  }

  /** A side of at least three holds at least nine cards. */
  lemma NineBelowSquare(x: nat)
    ensures x >= 3 ==> 9 <= x * x
  {
    if x >= 3 {
      assert 3 * x <= x * x;
    }
  }
}
