/** The card values of the game: the city-to-country object, the deck built from
    it, and the test that decides whether two face-up cards form a pair. */
module Cards {
  import opened Wrappers
  import opened Seqs

  /** One own property of the city-to-country object: a city key and its country. */
  datatype Entry = Entry(city: string, country: string)

  /** The object's properties, in key order (the order `for ... in` visits them). */
  type PairTable = seq<Entry>

  /** An object's keys are unique. */
  predicate DistinctCities(pairs: PairTable)
  {
    forall i, j :: 0 <= i < j < |pairs| ==> pairs[i].city != pairs[j].city
  }

  /** Property access `pairs[key]`: the country stored under the city `key`, or
      nothing (`undefined`) when no city is called `key`. */
  function Lookup(pairs: PairTable, key: string): (r: Option<string>)
    ensures r.None? <==> forall i :: 0 <= i < |pairs| ==> pairs[i].city != key
    ensures r.Some? ==> exists i :: 0 <= i < |pairs| && pairs[i] == Entry(key, r.value)
    ensures DistinctCities(pairs) ==>
      forall i :: 0 <= i < |pairs| && pairs[i].city == key ==> r == Some(pairs[i].country)
  {
    if |pairs| == 0 then None
    else if pairs[0].city == key then Some(pairs[0].country)
    else
      Lookup(pairs[1..], key)
  }

  /** Without repeated keys, a lookup of `city` finds `country` exactly when the
      object lists that property. */
  lemma LookupFindsEntry(pairs: PairTable, city: string, country: string)
    ensures Lookup(pairs, city) == Some(country) ==> Entry(city, country) in pairs
    ensures DistinctCities(pairs) && Entry(city, country) in pairs ==> Lookup(pairs, city) == Some(country)
  {
    if Entry(city, country) in pairs {
      var i :| 0 <= i < |pairs| && pairs[i] == Entry(city, country);
      assert pairs[i].city == city;
    }
  }

  /** The two-way match test: two face-up values match when either one is the
      city whose country is the other, i.e. when the two values are a listed
      property in one order or the other. */
  predicate IsMatch(pairs: PairTable, a: string, b: string): (r: bool)
    ensures r ==> Entry(a, b) in pairs || Entry(b, a) in pairs
    ensures DistinctCities(pairs) ==> (r <==> Entry(a, b) in pairs || Entry(b, a) in pairs)
  {
    LookupFindsEntry(pairs, a, b);
    LookupFindsEntry(pairs, b, a);
    Lookup(pairs, a) == Some(b) || Lookup(pairs, b) == Some(a)
  }

  /** The test gives the same answer whichever of the two cards was turned first. */
  lemma MatchSymmetric(pairs: PairTable, a: string, b: string)
    ensures IsMatch(pairs, a, b) == IsMatch(pairs, b, a)
  {
  }

  /** `deck` is what card generation produces from `pairs`: for each property in
      key order, a city card followed by its country card. */
  predicate IsDeckOf(deck: seq<string>, pairs: PairTable)
  {
    && |deck| == 2 * |pairs|
    && forall k :: 0 <= k < |pairs| ==> deck[2 * k] == pairs[k].city && deck[2 * k + 1] == pairs[k].country
  }

  /** In a deck without repeated values, a value identifies its card. */
  lemma SameValueSameCard(deck: seq<string>, a: nat, b: nat)
    requires Distinct(deck) && a < |deck| && b < |deck| && deck[a] == deck[b]
    ensures a == b
  {
  }

  /** Card generation: walks the properties in key order and appends a city card
      and then a country card for each. */
  method GenerateCards(pairs: PairTable) returns (deck: seq<string>)
    ensures IsDeckOf(deck, pairs)
  {
    deck := [];
    for k := 0 to |pairs|
      invariant |deck| == 2 * k
      invariant forall m :: 0 <= m < k ==> deck[2 * m] == pairs[m].city && deck[2 * m + 1] == pairs[m].country
    {
      deck := deck + [pairs[k].city, pairs[k].country];
    }
  }

  /** Card `i` of a generated deck is the city (even `i`) or the country (odd `i`)
      of property `i / 2`. */
  lemma DeckSlot(deck: seq<string>, pairs: PairTable, i: nat)
    requires IsDeckOf(deck, pairs) && i < |deck|
    ensures i / 2 < |pairs|
    ensures deck[i] == if i % 2 == 0 then pairs[i / 2].city else pairs[i / 2].country
  {
    var k := i / 2;
    assert i == 2 * k || i == 2 * k + 1;
    assert deck[2 * k] == pairs[k].city && deck[2 * k + 1] == pairs[k].country;
  }

  /** Distinct card values imply distinct keys. */
  lemma DistinctValuesCities(deck: seq<string>, pairs: PairTable)
    requires IsDeckOf(deck, pairs) && Distinct(deck)
    ensures DistinctCities(pairs)
  {
    forall a, b | 0 <= a < b < |pairs| ensures pairs[a].city != pairs[b].city {
      assert deck[2 * a] == pairs[a].city && deck[2 * b] == pairs[b].city;
    }
  }

  /** A lookup that succeeds on a card of a deck without repeated values finds the
      country card printed right after that city card. */
  lemma LookupFindsPartner(deck: seq<string>, pairs: PairTable, i: nat, j: nat)
    requires IsDeckOf(deck, pairs) && Distinct(deck)
    requires i < |deck| && j < |deck|
    requires Lookup(pairs, deck[i]) == Some(deck[j])
    ensures i % 2 == 0 && j == i + 1
  {
    var e :| 0 <= e < |pairs| && pairs[e] == Entry(deck[i], deck[j]);
    assert deck[2 * e] == deck[i] && deck[2 * e + 1] == deck[j];
    SameValueSameCard(deck, i, 2 * e);
    SameValueSameCard(deck, j, 2 * e + 1);
  }

  /** When no value appears on two cards, two different cards of a generated deck
      match exactly when they were generated from the same property. */
  lemma MatchIffSamePair(deck: seq<string>, pairs: PairTable, i: nat, j: nat)
    requires IsDeckOf(deck, pairs) && Distinct(deck)
    requires i < |deck| && j < |deck| && i != j
    ensures IsMatch(pairs, deck[i], deck[j]) <==> i / 2 == j / 2
  {
    if i / 2 == j / 2 {
      DistinctValuesCities(deck, pairs);
      var k := i / 2;
      DeckSlot(deck, pairs, i);
      DeckSlot(deck, pairs, j);
      assert Lookup(pairs, pairs[k].city) == Some(pairs[k].country);
    } else {
      if Lookup(pairs, deck[i]) == Some(deck[j]) {
        LookupFindsPartner(deck, pairs, i, j);
      }
      if Lookup(pairs, deck[j]) == Some(deck[i]) {
        LookupFindsPartner(deck, pairs, j, i);
      }
    }
  }

  /** The six properties the game ships with. */
  const SourcePairs: PairTable := [
    Entry("melbourne", "australia"),
    Entry("beijing", "china"),
    Entry("brasilia", "brazil"),
    Entry("cairo", "Egypt"),
    Entry("madrid", "spain"),
    Entry("newyork", "USA")
  ]

  /** With the shipped properties, two cards match exactly when they come from the
      same property, so every card has exactly one partner. */
  lemma SourceMatchIffSamePair(deck: seq<string>, i: nat, j: nat)
    requires IsDeckOf(deck, SourcePairs)
    requires i < |deck| && j < |deck| && i != j
    ensures IsMatch(SourcePairs, deck[i], deck[j]) <==> i / 2 == j / 2
  {
    var expected := ["melbourne", "australia", "beijing", "china", "brasilia", "brazil",
                     "cairo", "Egypt", "madrid", "spain", "newyork", "USA"];
    assert deck == expected by {
      forall m | 0 <= m < 12 ensures deck[m] == expected[m] {
        DeckSlot(deck, SourcePairs, m);
      }
    }
    assert Distinct(expected);
    MatchIffSamePair(deck, SourcePairs, i, j);
  }
}
