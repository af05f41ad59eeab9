/** A whole game with the shipped pairs, driven through the class's operations. */
module Scenario {
  import opened Cards
  import opened Game

  /** Whatever the shuffle, clicking the six pairs' cards two by two in creation
      order matches every pair, and only the sixth match completes the game. */
  method PlayInOrder(order: seq<nat>) returns (outcomes: seq<FlipOutcome>)
    requires IsArrangement(order, 12)
    ensures |outcomes| == 6
    ensures forall k :: 0 <= k < 6 ==> outcomes[k] == Matched(k == 5)
  {
    var g := new Game(SourcePairs, order);
    outcomes := [];
    for k := 0 to 6
      invariant g.Valid() && g.pairs == SourcePairs && g.totalCards == 12
      invariant g.matchedPairs == k && g.flippedCards == []
      invariant forall c :: 0 <= c < 12 ==> g.flipped[c] == (c < 2 * k)
      invariant |outcomes| == k && forall j :: 0 <= j < k ==> outcomes[j] == Matched(j == 5)
    {
      var second := MatchPair(g, k);
      outcomes := outcomes + [second];
    }
  }

  /** Click the two cards generated from property `k` while the cards of the
      earlier properties are the only ones face up. */
  method MatchPair(g: Game, k: nat) returns (second: FlipOutcome)
    requires g.Valid() && g.pairs == SourcePairs && g.totalCards == 12 && k < 6
    requires g.matchedPairs == k && g.flippedCards == []
    requires forall c :: 0 <= c < 12 ==> g.flipped[c] == (c < 2 * k)
    modifies g, g.flipped
    ensures g.Valid() && g.pairs == SourcePairs && g.totalCards == 12
    ensures g.matchedPairs == k + 1 && g.flippedCards == []
    ensures forall c :: 0 <= c < 12 ==> g.flipped[c] == (c < 2 * k + 2)
    ensures second == Matched(k == 5)
  {
    var first := g.Flip(2 * k);
    assert g.flippedCards == [2 * k] && g.matchedPairs == k;
    assert (2 * k) / 2 == k && (2 * k + 1) / 2 == k;
    SourceMatchIffSamePair(g.values, 2 * k, 2 * k + 1);
    second := g.Flip(2 * k + 1);
  }

  /** Two cards of different pairs: the second click reports a mismatch, a third
      click is refused while the two are pending, and the resolving step turns
      both face down again. */
  method MismatchThenResolve(order: seq<nat>) returns (second: FlipOutcome, third: FlipOutcome)
    requires IsArrangement(order, 12)
    ensures second == Mismatched && third == Ignored
  {
    var g := new Game(SourcePairs, order);
    var first := g.Flip(0);
    SourceMatchIffSamePair(g.values, 0, 2);
    second := g.Flip(2);
    third := g.Flip(4);
    g.ResolveMismatch();
    assert g.Valid() && g.flippedCards == [] && g.matchedPairs == 0;
  }
}
