/** The matching game's board: one flipped flag per card, the cards turned up and
    not yet resolved (at most two), and the number of pairs matched so far. */
module Game {
  import opened Seqs
  import opened Cards

  /** How many flags are up. */
  function CountTrue(s: seq<bool>): (n: nat)
    ensures n <= |s|
    ensures n == |s| <==> forall i :: 0 <= i < |s| ==> s[i]
    ensures n == 0 <==> forall i :: 0 <= i < |s| ==> !s[i]
  {
    if s == [] then 0 else (if s[0] then 1 else 0) + CountTrue(s[1..])
  }

  /** Setting one flag changes the count by at most one, as that flag's change says. */
  lemma {:induction false} CountTrueUpdate(s: seq<bool>, i: nat, v: bool)
    requires i < |s|
    ensures CountTrue(s[i := v]) == CountTrue(s) - (if s[i] then 1 else 0) + (if v then 1 else 0)
  {
    if i == 0 {
      assert s[i := v][1..] == s[1..];
    } else {
      assert s[i := v][1..] == s[1..][i - 1 := v];
      CountTrueUpdate(s[1..], i - 1, v);
    }
  }

  /** `s` lists each of the card ids 0..n-1 exactly once: a board order. */
  predicate IsArrangement(s: seq<nat>, n: nat)
  {
    |s| == n && (forall i :: 0 <= i < n ==> s[i] < n) && Distinct(s)
  }

  /** The board after re-appending its cards in the order `order` picks them. */
  function Permute(s: seq<nat>, order: seq<nat>): seq<nat>
    requires forall i :: 0 <= i < |order| ==> order[i] < |s|
  {
    seq(|order|, i requires 0 <= i < |order| => s[order[i]])
  }

  /** Reordering an arrangement by an arrangement gives an arrangement. */
  lemma PermuteArrangement(s: seq<nat>, order: seq<nat>, n: nat)
    requires IsArrangement(s, n) && IsArrangement(order, n)
    ensures IsArrangement(Permute(s, order), n)
  {
    var r := Permute(s, order);
    forall i, j | 0 <= i < j < n ensures r[i] != r[j] {
      assert order[i] != order[j];
    }
  }

  function Elements(s: seq<nat>): set<nat>
  {
    set x | x in s
  }

  /** A list without repetitions has as many elements as entries. */
  lemma {:induction false} DistinctElements(s: seq<nat>)
    requires Distinct(s)
    ensures |Elements(s)| == |s|
  {
    if s != [] {
      var t := s[1..];
      assert Distinct(t);
      DistinctElements(t);
      assert Elements(s) == {s[0]} + Elements(t);
      assert s[0] !in Elements(t);
    }
  }

  /** The ids 0..n-1 in creation order. */
  function Ids(n: nat): (r: seq<nat>)
    ensures IsArrangement(r, n)
  {
    seq(n, i requires 0 <= i < n => i as nat)
  }

  lemma SubsetSize(a: set<nat>, b: set<nat>)
    requires a <= b
    ensures |a| <= |b|
  {
    assert b == a + (b - a);
    assert a * (b - a) == {};
  }

  /** Pigeonhole: an arrangement of n lists every id below n. */
  lemma ArrangementCovers(s: seq<nat>, n: nat, x: nat)
    requires IsArrangement(s, n) && x < n
    ensures x in s
  {
    DistinctElements(s);
    DistinctElements(Ids(n));
    assert Ids(n)[x] == x;
    var rest := Elements(Ids(n)) - {x};
    assert |rest| == n - 1;
    if x !in s {
      forall y | y in Elements(s) ensures y in rest {
        var i :| 0 <= i < |s| && s[i] == y;
        assert Ids(n)[y] == y;
      }
      SubsetSize(Elements(s), rest);
      assert false;
    }
  }

  /** In a list without repetitions every element occurs once. */
  lemma {:induction false} DistinctMultiplicity(s: seq<nat>, x: nat)
    requires Distinct(s)
    ensures multiset(s)[x] == if x in s then 1 else 0
  {
    if s != [] {
      var t := s[1..];
      assert s == [s[0]] + t;
      assert Distinct(t);
      DistinctMultiplicity(t, x);
    }
  }

  /** Any two arrangements of the same cards are permutations of each other. */
  lemma ArrangementsArePermutations(s: seq<nat>, t: seq<nat>, n: nat)
    requires IsArrangement(s, n) && IsArrangement(t, n)
    ensures multiset(s) == multiset(t)
  {
    forall x: nat ensures multiset(s)[x] == multiset(t)[x] {
      DistinctMultiplicity(s, x);
      DistinctMultiplicity(t, x);
      if x < n {
        ArrangementCovers(s, n, x);
        ArrangementCovers(t, n, x);
      }
    }
  }

  /** The counting invariant over a snapshot of the game: every pending card is
      face up, two pending cards are two different cards that do not match (a
      match is resolved at once), and the face-up cards are the matched pairs
      plus the pending ones. */
  predicate Consistent(pairs: PairTable, values: seq<string>, flags: seq<bool>, pending: seq<nat>, matched: nat)
  {
    && |values| == |flags|
    && |pending| <= 2
    && (forall k :: 0 <= k < |pending| ==> pending[k] < |flags| && flags[pending[k]])
    && (|pending| == 2 ==> pending[0] != pending[1] && !IsMatch(pairs, values[pending[0]], values[pending[1]]))
    && CountTrue(flags) == 2 * matched + |pending|
  }

  /** Under the invariant the matched pairs never outnumber the pairs on the board,
      and all are matched exactly when every card is face up and none is pending. */
  lemma MatchedWithinDeck(pairs: PairTable, values: seq<string>, flags: seq<bool>, pending: seq<nat>, matched: nat)
    requires Consistent(pairs, values, flags, pending, matched) && |flags| % 2 == 0
    ensures matched <= |flags| / 2
    ensures matched == |flags| / 2 <==> pending == [] && forall i :: 0 <= i < |flags| ==> flags[i]
  {
  }

  /** An accepted click keeps the invariant, whichever way the check goes: a
      first card becomes pending, a matching second card joins the matched pairs,
      a mismatching one stays pending beside the first. */
  lemma ConsistentAfterFlip(pairs: PairTable, values: seq<string>, flags: seq<bool>, pending: seq<nat>, matched: nat, c: nat)
    requires Consistent(pairs, values, flags, pending, matched)
    requires c < |flags| && !flags[c] && |pending| < 2
    ensures pending == [] ==> Consistent(pairs, values, flags[c := true], [c], matched)
    ensures |pending| == 1 && IsMatch(pairs, values[pending[0]], values[c]) ==>
      Consistent(pairs, values, flags[c := true], [], matched + 1)
    ensures |pending| == 1 && !IsMatch(pairs, values[pending[0]], values[c]) ==>
      Consistent(pairs, values, flags[c := true], pending + [c], matched)
  {
    CountTrueUpdate(flags, c, true);
  }

  /** What a click on a card led to. */
  datatype FlipOutcome =
    | Ignored             // the gate refused the click
    | FaceUp              // the first card of a pair is up
    | Matched(complete: bool)  // the second card matched; `complete` is the completion test
    | Mismatched          // the second card did not match; ResolveMismatch is due

  class Game {
    /** The city-to-country object. */
    const pairs: PairTable
    /** `values[c]` is the value written on card `c`; cards are numbered in creation order. */
    const values: seq<string>
    const totalCards: nat
    /** `flipped[c]` is card `c`'s flipped mark. */
    const flipped: array<bool>
    /** The cards in display order. */
    var board: seq<nat>
    /** The cards turned up and not yet resolved, in the order they were turned. */
    var flippedCards: seq<nat>
    var matchedPairs: nat

    /** The structure every operation keeps, reset included. */
    ghost predicate WellFormed()
      reads this
    {
      && IsDeckOf(values, pairs)
      && totalCards == |values| == flipped.Length
      && IsArrangement(board, totalCards)
      && |flippedCards| <= 2
      && (forall k :: 0 <= k < |flippedCards| ==> flippedCards[k] < totalCards)
    }

    /** The structure together with the counting invariant. */
    ghost predicate Valid()
      reads this, flipped
    {
      WellFormed() && Consistent(pairs, values, flipped[..], flippedCards, matchedPairs)
    }

    /** The completion test: every pair matched. Under the invariant it holds
        exactly when every card is face up and none is pending. */
    predicate IsComplete(): (r: bool)
      reads this, flipped
      ensures Valid() ==> (r <==> flippedCards == [] && forall c :: 0 <= c < totalCards ==> flipped[c])
    {
      assert Valid() ==> (matchedPairs == totalCards / 2 <==> flippedCards == [] && forall c :: 0 <= c < totalCards ==> flipped[c]) by {
        if Valid() {
          MatchedWithinDeck(pairs, values, flipped[..], flippedCards, matchedPairs);
        }
      }
      matchedPairs == totalCards / 2
    }

    /** Under the invariant the matched pairs never outnumber the pairs on the
        board. */
    lemma MatchedWithinPairs()
      requires Valid()
      ensures matchedPairs <= totalCards / 2
    {
      MatchedWithinDeck(pairs, values, flipped[..], flippedCards, matchedPairs);
    }

    /** Page load: generate the cards from `pairs`, shuffle them into the order
        `order`, count them; nothing is flipped or matched. */
    constructor (pairs: PairTable, order: seq<nat>)
      requires IsArrangement(order, 2 * |pairs|)
      ensures Valid() && fresh(flipped)
      ensures this.pairs == pairs && IsDeckOf(values, pairs)
      ensures totalCards == 2 * |pairs| && totalCards / 2 == |pairs|
      ensures board == order
      ensures forall c :: 0 <= c < totalCards ==> !flipped[c]
      ensures flippedCards == [] && matchedPairs == 0
    {
      this.pairs := pairs;
      var deck := GenerateCards(pairs);
      values := deck;
      totalCards := |deck|;
      flipped := new bool[|deck|](_ => false);
      board := Ids(|deck|);
      flippedCards := [];
      matchedPairs := 0;
      new;
      Shuffle(order);
      assert Permute(Ids(|deck|), order) == order;
    }

    /** Re-append the cards in the order `order` picks them from the board. */
    method Shuffle(order: seq<nat>)
      requires WellFormed() && IsArrangement(order, totalCards)
      modifies this
      ensures WellFormed()
      ensures board == Permute(old(board), order)
      ensures multiset(board) == multiset(old(board))
      ensures flippedCards == old(flippedCards) && matchedPairs == old(matchedPairs)
      ensures old(Valid()) ==> Valid()
    {
      PermuteArrangement(board, order, totalCards);
      ArrangementsArePermutations(board, Permute(board, order), totalCards);
      board := Permute(board, order);
    }

    /** A click on card `c`: accepted only when `c` is face down and fewer than two
        cards are pending; an accepted card is turned up and appended to the
        pending list, and the second pending card is checked at once. */
    method Flip(c: nat) returns (outcome: FlipOutcome)
      requires WellFormed() && c < totalCards
      modifies this, flipped
      ensures WellFormed() && board == old(board)
      ensures old(flipped[c]) || old(|flippedCards|) >= 2 ==>
        && outcome == Ignored
        && flipped[..] == old(flipped[..])
        && flippedCards == old(flippedCards)
        && matchedPairs == old(matchedPairs)
      ensures !old(flipped[c]) && old(|flippedCards|) < 2 ==> flipped[..] == old(flipped[..])[c := true]
      ensures !old(flipped[c]) && old(flippedCards) == [] ==>
        outcome == FaceUp && flippedCards == [c] && matchedPairs == old(matchedPairs)
      ensures !old(flipped[c]) && old(|flippedCards|) == 1 ==>
        var first := old(flippedCards[0]);
        if IsMatch(pairs, values[first], values[c]) then
          && matchedPairs == old(matchedPairs) + 1
          && flippedCards == []
          && outcome == Matched(matchedPairs == totalCards / 2)
        else
          && matchedPairs == old(matchedPairs)
          && flippedCards == [first, c]
          && outcome == Mismatched
      ensures old(Valid()) ==> Valid()
    {
      ghost var flags0 := flipped[..];
      if !flipped[c] && |flippedCards| < 2 {
        if Valid() {
          ConsistentAfterFlip(pairs, values, flags0, flippedCards, matchedPairs, c);
        }
        flipped[c] := true;
        assert flipped[..] == flags0[c := true];
        flippedCards := flippedCards + [c];
        if |flippedCards| == 2 {
          outcome := CheckMatch();
        } else {
          outcome := FaceUp;
        }
      } else {
        outcome := Ignored;
      }
    }

    /** Compare the two pending cards' values both ways round. */
    method CheckMatch() returns (outcome: FlipOutcome)
      requires WellFormed() && |flippedCards| == 2
      modifies this
      ensures WellFormed() && board == old(board)
      ensures IsMatch(pairs, values[old(flippedCards[0])], values[old(flippedCards[1])]) ==>
        && matchedPairs == old(matchedPairs) + 1
        && flippedCards == []
        && outcome == Matched(matchedPairs == totalCards / 2)
      ensures !IsMatch(pairs, values[old(flippedCards[0])], values[old(flippedCards[1])]) ==>
        && matchedPairs == old(matchedPairs)
        && flippedCards == old(flippedCards)
        && outcome == Mismatched
    {
      var card1 := values[flippedCards[0]];
      var card2 := values[flippedCards[1]];
      if IsMatch(pairs, card1, card2) {
        var complete := HandleMatch();
        outcome := Matched(complete);
      } else {
        outcome := Mismatched;
      }
    }

    /** A match: one more matched pair, the pending list emptied, both cards left
        face up; then the completion test. */
    method HandleMatch() returns (complete: bool)
      requires WellFormed()
      modifies this
      ensures WellFormed() && board == old(board)
      ensures matchedPairs == old(matchedPairs) + 1 && flippedCards == []
      ensures complete <==> matchedPairs == totalCards / 2
    {
      matchedPairs := matchedPairs + 1;
      complete := IsComplete();
      flippedCards := [];
    }

    /** The delayed step after a mismatch: turn every pending card face down and
        empty the pending list. */
    method ResolveMismatch()
      requires WellFormed()
      modifies this, flipped
      ensures WellFormed() && board == old(board)
      ensures matchedPairs == old(matchedPairs) && flippedCards == []
      ensures forall d :: 0 <= d < totalCards ==> flipped[d] == (old(flipped[d]) && d !in old(flippedCards))
      ensures old(Valid()) ==> Valid()
    {
      ghost var flags0 := flipped[..];
      var k := 0;
      while k < |flippedCards|
        invariant 0 <= k <= |flippedCards|
        invariant forall d :: 0 <= d < totalCards ==> flipped[d] == (flags0[d] && d !in flippedCards[..k])
        invariant old(Valid()) ==> CountTrue(flipped[..]) == CountTrue(flags0) - k
        modifies flipped
      {
        var card := flippedCards[k];
        ghost var before := flipped[..];
        flipped[card] := false;
        if old(Valid()) {
          assert card !in flippedCards[..k];
          assert before[card];
          assert flipped[..] == before[card := false];
          CountTrueUpdate(before, card, false);
        }
        assert flippedCards[..k + 1] == flippedCards[..k] + [card];
        k := k + 1;
      }
      assert flippedCards[..k] == flippedCards;
      flippedCards := [];
    }

    /** Replay: no pair matched, every card face down, the board reshuffled into
        `order`. The pending list is left as it was, so the invariant holds again
        exactly when nothing was pending. */
    method Reset(order: seq<nat>)
      requires WellFormed() && IsArrangement(order, totalCards)
      modifies this, flipped
      ensures WellFormed()
      ensures matchedPairs == 0 && flippedCards == old(flippedCards)
      ensures forall d :: 0 <= d < totalCards ==> !flipped[d]
      ensures board == Permute(old(board), order)
      ensures multiset(board) == multiset(old(board))
      ensures Valid() <==> flippedCards == []
    {
      matchedPairs := 0;
      for d := 0 to totalCards
        invariant forall e :: 0 <= e < d ==> !flipped[e]
        modifies flipped
      {
        flipped[d] := false;
      }
      Shuffle(order);
    }
  }
}
