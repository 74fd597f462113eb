/** The card stacks drawn on the board (game.js:223-246, 373-433): how many
    layers each pile shows and which layer index each one gets. The CSS
    offsets attached to a layer are not modelled; what matters here is that
    every layer index finds an entry in the 20-entry offset table built by
    makeJitter(20). */
module Stack {
  import opened Wrappers
  import opened Content

  /** At most this many layers of a pile are drawn. */
  const MaxVisible: nat := 20
  /** Layer indices are capped at this value. */
  const TopLayer: nat := 19
  /** Entries in the table of per-layer offsets. */
  const JitterSize: nat := 20

  /** One element of a drawn pile. */
  datatype Slot =
    | DropZone                        // placeholder of an empty pile
    | Back(layer: nat)                // a face-down card of the deck pile
    | Blank(layer: nat)               // a face-up card below the top one
    | Face(layer: nat, q: string)     // the top discarded card, question shown

  /** Number of layers drawn for a pile of n cards. */
  function VisibleCount(n: nat): (r: nat)
    ensures r <= n && r <= MaxVisible
    ensures r == n || r == MaxVisible
  {
    if n < MaxVisible then n else MaxVisible
  }

  /** Layer index of the card at a given depth below the top. */
  function LayerIndex(depth: nat): (r: nat)
    ensures r <= depth && r <= TopLayer && r < JitterSize
    ensures r == depth || r == TopLayer
  {
    if depth < TopLayer then depth else TopLayer
  }

  /** Layers of a built pile, read from its slots (0 for the drop zone). */
  function LayerOf(s: Slot): nat {
    if s.DropZone? then 0 else s.layer
  }

  /** The face-down deck pile, bottom first: depths n - 1 down to 0. An empty
      pile shows the drop zone instead. Every layer has an offset entry, and
      a pile of at most MaxVisible cards (all the board ever asks for) gets
      strictly decreasing layers, so each later card is stacked above the
      earlier ones (its z-index is 1000 minus its layer). */
  method BuildBackStack(n: nat) returns (cards: seq<Slot>)
    ensures n == 0 ==> cards == [DropZone]
    ensures n > 0 ==> |cards| == n
    ensures n > 0 ==> forall k :: 0 <= k < n ==> cards[k] == Back(LayerIndex(n - 1 - k))
    ensures forall k :: 0 <= k < |cards| ==> LayerOf(cards[k]) < JitterSize
    ensures n <= MaxVisible ==> forall k :: 0 < k < |cards| ==> LayerOf(cards[k]) < LayerOf(cards[k - 1])
  {
    if n == 0 {
      return [DropZone];
    }
    cards := [];
    var depth: int := n - 1;
    while depth >= 0
      invariant -1 <= depth < n
      invariant |cards| == n - 1 - depth
      invariant forall k :: 0 <= k < |cards| ==> cards[k] == Back(LayerIndex(n - 1 - k))
    {
      cards := cards + [Back(LayerIndex(depth))];
      depth := depth - 1;
    }
  }

  /** The discard pile: max(1, n) face-up layers, bottom first, whose last
      element (depth 0) shows the top card's question. Without a top card
      the drop zone is shown instead. */
  method BuildFaceStack(top: Option<Card>, n: nat) returns (cards: seq<Slot>)
    ensures top.None? ==> cards == [DropZone]
    ensures top.Some? ==> |cards| == if n == 0 then 1 else n
    ensures top.Some? ==> cards[|cards| - 1] == Face(0, top.value.q)
    ensures top.Some? ==> forall k :: 0 <= k < |cards| - 1 ==> cards[k] == Blank(LayerIndex(|cards| - 1 - k))
    ensures forall k :: 0 <= k < |cards| ==> LayerOf(cards[k]) < JitterSize
    ensures n <= MaxVisible ==> forall k :: 0 < k < |cards| ==> LayerOf(cards[k]) < LayerOf(cards[k - 1])
  {
    if top.None? {
      return [DropZone];
    }
    var count: nat := if n < 1 then 1 else n;
    cards := [];
    var depth: nat := count - 1;
    while depth > 0
      invariant depth < count
      invariant |cards| == count - 1 - depth
      invariant forall k :: 0 <= k < |cards| ==> cards[k] == Blank(LayerIndex(count - 1 - k))
    {
      cards := cards + [Blank(LayerIndex(depth))];
      depth := depth - 1;
    }
    // depth 0 is the top card, the last one pushed
    cards := cards + [Face(LayerIndex(0), top.value.q)];
  }
}
