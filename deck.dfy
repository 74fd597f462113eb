/** The deck engine: the transfer of one card from the head of the deck to
    the head of the discard pile (`deck.shift()` / `discard.unshift(next)`,
    game.js:351-352 and 365-366), and what a run of draws produces. */
module Deck {
  import opened Wrappers

  /** The two piles; `discard` is most recent first. */
  datatype Piles<T> = Piles(deck: seq<T>, discard: seq<T>)

  /** The cards the two piles hold together, counted with repetition. */
  ghost function Held<T>(p: Piles<T>): multiset<T> {
    multiset(p.deck) + multiset(p.discard)
  }

  /** The sequence read back to front: the order in which the discard pile
      received its cards. */
  function Reverse<T>(s: seq<T>): (r: seq<T>)
    ensures |r| == |s|
  {
    if s == [] then [] else Reverse(s[1..]) + [s[0]]
  }

  /** Reversing a sequence with one more element at its end puts that
      element first. */
  lemma {:induction false} ReverseSnoc<T>(s: seq<T>, x: T)
    ensures Reverse(s + [x]) == [x] + Reverse(s)
  {
    if s != [] {
      ReverseSnoc(s[1..], x);
      assert (s + [x])[1..] == s[1..] + [x];
    } else {
      assert Reverse([x]) == Reverse<T>([]) + [x];
    }
  }

  /** Reading a pile the other way round keeps its cards and how often each
      occurs. */
  lemma {:induction false} ReverseMultiset<T>(s: seq<T>)
    ensures multiset(Reverse(s)) == multiset(s)
  {
    if s != [] {
      ReverseMultiset(s[1..]);
      assert s == [s[0]] + s[1..];
    }
  }

  /** Reading the drawn cards oldest first and then the deck gives back the
      order the deck had when it was dealt. */
  function DealtOrder<T>(p: Piles<T>): seq<T> {
    Reverse(p.discard) + p.deck
  }

  /** One draw. The guard is the corrected behaviour of the arrival step: on
      an empty deck nothing moves (see ShiftUnshift for the code as written). */
  function Draw<T>(p: Piles<T>): (r: Piles<T>)
    ensures p.deck == [] ==> r == p
    ensures p.deck != [] ==> r.deck == p.deck[1..] && |r.discard| == |p.discard| + 1 &&
                             r.discard[0] == p.deck[0] && r.discard[1..] == p.discard
  {
    if p.deck == [] then p else Piles(p.deck[1..], [p.deck[0]] + p.discard)
  }

  /** A draw moves a card, it never loses or invents one. */
  lemma DrawKeepsCards<T>(p: Piles<T>)
    ensures Held(Draw(p)) == Held(p)
    ensures |Draw(p).deck| + |Draw(p).discard| == |p.deck| + |p.discard|
  {
    if p.deck != [] {
      assert p.deck == [p.deck[0]] + p.deck[1..];
      assert Draw(p).discard == [p.deck[0]] + p.discard;
    }
  }

  /** A draw keeps the order in which the cards were dealt. */
  lemma DrawKeepsOrder<T>(p: Piles<T>)
    ensures DealtOrder(Draw(p)) == DealtOrder(p)
  {
    if p.deck != [] {
      var r := Draw(p);
      assert r.discard == [p.deck[0]] + p.discard;
      assert r.discard[1..] == p.discard;
      assert Reverse(r.discard) == Reverse(p.discard) + [p.deck[0]];
      assert p.deck == [p.deck[0]] + r.deck;
    }
  }

  /** `k` draws in a row. */
  function DrawTimes<T>(p: Piles<T>, k: nat): Piles<T> {
    if k == 0 then p else Draw(DrawTimes(p, k - 1))
  }

  /** Starting from a freshly dealt deck `s` and an empty discard pile, after
      `k` draws the deck is what remains of `s` and the discard pile is the
      first `k` cards of `s`, most recent first; once the deck is empty
      further draws change nothing and the discard pile is `s` reversed. */
  lemma {:induction false} DrawsFromFreshDeck<T>(s: seq<T>, k: nat)
    ensures var m := if k <= |s| then k else |s|;
      DrawTimes(Piles(s, []), k) == Piles(s[m..], Reverse(s[..m]))
  {
    if k == 0 {
      assert s[..0] == [] && s[0..] == s;
    } else {
      DrawsFromFreshDeck(s, k - 1);
      var m := if k - 1 <= |s| then k - 1 else |s|;
      DrawFromFreshDeck(s, m);
    }
  }

  /** One draw after m cards of a fresh deck `s` were drawn. */
  lemma DrawFromFreshDeck<T>(s: seq<T>, m: nat)
    requires m <= |s|
    ensures var m' := if m < |s| then m + 1 else m;
      Draw(Piles(s[m..], Reverse(s[..m]))) == Piles(s[m'..], Reverse(s[..m']))
  {
    if m < |s| {
      assert s[..m + 1] == s[..m] + [s[m]];
      ReverseSnoc(s[..m], s[m]);
      assert s[m..][1..] == s[m + 1..];
    }
  }



  /** The arrival step as written: `deck.shift()` yields `undefined` (None)
      on an empty deck and `discard.unshift` stores it all the same. The
      discard pile is a sequence of JavaScript values, cards or `undefined`. */
  function ShiftUnshift<T>(deck: seq<T>, discard: seq<Option<T>>): (r: (seq<T>, seq<Option<T>>))
    ensures deck != [] ==> r == (deck[1..], [Some(deck[0])] + discard)
  {
    var next := if deck == [] then None else Some(deck[0]);
    var rest := if deck == [] then [] else deck[1..];
    (rest, [next] + discard)
  }

  function AsValues<T>(s: seq<T>): (r: seq<Option<T>>)
    ensures |r| == |s| && forall k :: 0 <= k < |s| ==> r[k] == Some(s[k])
  {
    seq(|s|, k requires 0 <= k < |s| => Some(s[k]))
  }

  /** Wrapping commutes with putting a card on top. */
  lemma AsValuesCons<T>(x: T, s: seq<T>)
    ensures AsValues([x] + s) == [Some(x)] + AsValues(s)
  {
    var l, r := AsValues([x] + s), [Some(x)] + AsValues(s);
    assert forall k :: 0 <= k < |l| ==> l[k] == r[k];
  }

  /** On a non-empty deck the code as written agrees with Draw. */
  lemma ShiftUnshiftAgreesOnCards<T>(p: Piles<T>)
    requires p.deck != []
    ensures ShiftUnshift(p.deck, AsValues(p.discard)) == (Draw(p).deck, AsValues(Draw(p).discard))
  {
    AsValuesCons(p.deck[0], p.discard);
  }

  /** On an empty deck the code as written grows the discard pile by an
      `undefined` entry that is no card, where Draw leaves both piles alone. */
  lemma ShiftUnshiftOnEmptyDeck<T>(discard: seq<T>)
    ensures var r := ShiftUnshift([], AsValues(discard));
      r.0 == [] && |r.1| == |discard| + 1 && r.1[0] == None
    ensures Draw(Piles([], discard)) == Piles([], discard)
  {
  }
}
