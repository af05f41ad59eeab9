# Flip-card matching game — a verified model

The game in `script.js` lays out one card per city and one per country. The player turns cards up two at a time, and a city and its country form a pair. This project models the game's core in Dafny and proves what the code promises:

- **Deck.** Generation walks the city-to-country object in key order. It emits a city card and then a country card for each key (`Cards`).
- **Board.** `Game.Game` is a class. It holds a flipped flag per card (an array), the list of pending cards (at most two), the matched-pair counter and the display order. Its methods are:
  - the click gate;
  - the two-way match test;
  - match handling with the completion test;
  - the delayed unflip after a mismatch, as an explicit step;
  - replay.

  One invariant ties these together. The number of face-up cards equals twice the matched pairs plus the pending cards. A click (`Flip`), the mismatch step (`ResolveMismatch`) and a reshuffle (`Shuffle`) preserve it. `CheckMatch` and `HandleMatch` are steps inside a click and do not keep it on their own. Replay (`Reset`) restores it only when nothing is pending.
- **Scenarios.** `Scenario` drives whole games with the six shipped pairs through the class.
- **Timer text.** `Clock` covers the `MM:SS` text shown by the timer and the win screen. It also covers the score service's reading of that text back into seconds, for a round-trip property.
- **Layout.** `Layout` gives the column count of the grid.
- **Contact form.** `Email` checks the contact form's e-mail pattern. The regular expression is written out as character classes and structure.

Cards are numbered 0..n-1 in creation order, and `values[c]` is the value printed on card `c`. A shuffle rearranges only the display order `board`. The pending list holds card numbers, so it still names the same cards after replay reshuffles the board.

## Model

| member | source | states |
|---|---|---|
| `Cards.Lookup` | script.js:125 | Property access `pairs[key]`: nothing exactly when no key equals `key`. Otherwise the country stored under that key, which is the key's unique country when keys are distinct. |
| `Cards.IsMatch` | script.js:125 | The two-way match test: either card's value is the key whose country is the other card's value. A match means the two values are a listed property, in one order or the other. Without repeated keys, a listed property in either order is always a match. |
| `Cards.MatchSymmetric` | script.js:125 | The match test gives the same answer whichever card was turned first. |
| `Cards.GenerateCards` | script.js:59-66 | The deck has 2·(number of pairs) cards. Card 2k is the k-th city and card 2k+1 its country. |
| `Cards.DeckSlot` | script.js:59-66 | Card i of a generated deck is the city (even i) or the country (odd i) of pair i/2. |
| `Cards.MatchIffSamePair` | script.js:121-130 | With no value printed twice, two different cards match exactly when they were generated from the same pair. |
| `Cards.SourceMatchIffSamePair` | script.js:6-14 | For the six shipped pairs, two different cards match exactly when they come from the same pair. |
| `Game.PermuteArrangement` | script.js:88-93 | Re-appending the board's cards in the order of a permutation gives an arrangement of the same card ids. |
| `Game.ArrangementsArePermutations` | script.js:88-93 | Two arrangements of the same n cards have the same multiset of cards. |
| `Game.MatchedWithinDeck` | script.js:108-166 | Under the counting invariant, matched pairs never exceed half the deck. They equal half the deck exactly when no card is pending and every card is face up. |
| `Game.ConsistentAfterFlip` | script.js:107-166 | An accepted click keeps the counting invariant whichever way it goes. A first card becomes the one pending card. A matching second card adds one matched pair with nothing pending. A mismatching second card leaves two non-matching cards pending. |
| `Game.Game.IsComplete` | script.js:144 | The win test `matchedPairs === totalCards / 2`. Under the invariant it holds exactly when every card is face up and none is pending. |
| `Game.Game.MatchedWithinPairs` | script.js:108-166 | Under the invariant `matchedPairs` never exceeds `totalCards / 2`. |
| `Game.Game.constructor` | script.js:27-33 | Page load: the generated deck, `totalCards` = 2·(number of pairs) so `totalCards / 2` is the number of pairs, the board in the given shuffle order, nothing flipped, pending or matched. The invariant holds. |
| `Game.Game.Shuffle` | script.js:88-93 | The board is re-appended in the order given, as a permutation of the same cards. Nothing else changes, so the invariant is kept. |
| `Game.Game.Flip` | script.js:107-116 | A click on a face-up card, or while two cards are pending, changes nothing. Otherwise the card turns face up and joins the pending list. A second pending card is checked at once: on a match the counter rises by one and the list empties; on a mismatch both stay pending. The invariant is preserved. |
| `Game.Game.CheckMatch` | script.js:121-130 | Matching values go to match handling. Otherwise the two cards stay pending and the counter is unchanged. |
| `Game.Game.HandleMatch` | script.js:133-151 | The counter rises by exactly one and the pending list empties, with every flag left as it was. The completion result is true exactly when the counter reaches `totalCards / 2`. |
| `Game.Game.ResolveMismatch` | script.js:154-166 | Exactly the pending cards turn face down, the pending list empties and the counter is unchanged. The invariant is preserved. |
| `Game.Game.Reset` | script.js:261-267 | The counter becomes 0, every card turns face down and the board is reshuffled as a permutation of the same cards. The pending list is untouched, so the invariant holds afterwards exactly when nothing was pending. |
| `Scenario.PlayInOrder` | script.js:105-151 | With the shipped pairs and any shuffle, clicking the pairs' cards two by two yields six matches, and only the last one completes the game. |
| `Scenario.MismatchThenResolve` | script.js:105-166 | Two cards of different pairs give a mismatch. A third click is refused while they are pending. |
| `Clock.ClockFields` | script.js:176-178 | The seconds field is below 60, and minutes·60 + seconds equals the whole seconds elapsed. |
| `Clock.Decimal` | script.js:179 | `String(n)` is a non-empty string of digits. It is one digit exactly when n < 10 and at most two when n < 100. |
| `Clock.DecimalRoundTrip` | script.js:179 | Reading the digits of `String(n)` back gives n. |
| `Clock.PadTwo` | script.js:179 | `padStart(2, '0')` puts zeros in front up to length two and never truncates: the original text is the suffix. |
| `Clock.FormatElapsed` | script.js:176-179 | The timer text is at least five characters long with ':' third from the end. It is exactly five characters (`MM:SS`) when minutes are below 100. |
| `Clock.FormatRoundTrip` | script.js:176-179 | The score service's `convertToSeconds` (lines 122-125 of the score service's `gas.js`) applied to the timer text gives back the whole seconds elapsed. |
| `Layout.CeilSqrt` | script.js:99 | The least r whose square reaches n. |
| `Layout.Columns` | script.js:99 | At least three columns. A square grid of that side holds every card, one column fewer would not unless the minimum of three applies, and up to nine cards use three columns. |
| `Email.LocalRun` | script.js:275 | The run of `[a-zA-Z0-9._-]` characters at the start of the string, ending at the first character outside the class. |
| `Email.LastIndexOf` | script.js:275 | The last position of a character, or nothing when it is absent. |
| `Email.MatchesPattern` | script.js:275 | The regular expression `^[a-zA-Z0-9._-]+@[a-zA-Z0-9.-]+\.[a-zA-Z]{2,6}$` written out: some '@' and last '.' cut the string into the three runs. Every match has exactly one '@', at least six characters, only characters of the two classes and no space. |
| `Email.IsValidEmail` | script.js:274-277 | The hand-written check accepts exactly the strings the regular expression matches. |
| `Email.Refused` | script.js:274-277 | The empty string, any string with a space and any string with two '@' are refused. |

## Left out

- DOM and presentation are not modelled: element creation, class lists, background images, grid styles and the CSS `animationend`/`transitionend` listeners. The completion test runs right after the match (`HandleMatch`) rather than at the end of the transition.
- `Clock.FormatElapsed`: elapsed time is taken as non-negative, as from a clock that never goes back. When `Date.now()` falls behind `startTime`, JavaScript's truncating `%` and flooring `Math.floor` print text such as "-1:-2" for -1500 ms. That text is not modelled.
- `setTimeout`, `setInterval`/`clearInterval` and `Date.now()` are not modelled:
  - elapsed milliseconds are a parameter of `Clock.FormatElapsed`;
  - the one-second delayed unflip is the explicit step `ResolveMismatch`;
  - starting the timer in replay is not modelled.
- The `Math.random()` comparator shuffle is replaced by a permutation supplied as an input (`order`).
- `Layout.Columns`: `Math.sqrt`/`Math.ceil` on floating point is modelled as an exact integer ceiling square root. Rounding in the floating-point square root is not modelled.
- `Clock.Decimal`: `String(n)` is modelled for whole numbers written in plain decimal. The exponential notation JavaScript uses for numbers of 1e21 and above is not modelled.
- `Clock.ConvertToSeconds`: `parseInt` is modelled for the digits case only. Leading whitespace, a sign and a NaN result in arithmetic (NaN is modelled as nothing) are not modelled.
- `Cards.Lookup`: property lookup covers the object's own keys only. Keys inherited from `Object.prototype` (such as `constructor`) are not modelled.
- `sendTimeToServer`, the contact form's `fetch`, its promise chains and alerts are not modelled, because they are network and asynchronous code.
- The relay worker and the percentile/ranking logic of the score service are not modelled. Only its `convertToSeconds` is used, as the inverse of the timer text.
- The intro and win modals, the privacy-policy checkbox and the hiding of the replay button are not modelled, because they are user-interface wiring.
