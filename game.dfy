/** The game controller, the ConversationCards class of game.js, with its
    rendering reduced to the choice of the screen shown. Each event handler
    of the page is a method; the methods require the screen on which their
    button exists, and their `modifies` clauses name the fields they may
    change. The animated draw is split into its start (the click) and its
    arrival (the code after the timers). */
module Game {
  import opened Wrappers
  import opened Content
  import opened Deck
  import opened Shuffle
  import Stack

  /** The screen rendered last. Blank: nothing rendered yet, which is where
      the page stays when the first render throws. */
  datatype View = Blank | Home | TopicSelect | Board | End

  /** A page option counts only when it is a non-empty string. */
  predicate Given(opt: Option<string>) {
    opt.Some? && opt.value != ""
  }

  class ConversationCards {
    /** The content document, loaded once and never changed. */
    const content: Document
    var levelId: Option<string>
    var topicId: Option<string>
    /** The cards still to draw, next first. */
    var deck: seq<Card>
    /** The cards drawn so far, latest first. */
    var discard: seq<Card>
    var showHelp: bool
    /** The single-flight lock of the animated draw. */
    var isAnimating: bool
    /** The card shown on the flying element while an animated draw waits
        for its arrival; None when no arrival is pending. */
    var inFlight: Option<Card>
    var view: View

    /** The order of the deck right after the last shuffle. */
    ghost var shuffled: seq<Card>

    /** The cards drawn (oldest first) followed by the deck are the order the
        last shuffle left; help is only on while there is a top card. */
    ghost predicate PilesOk()
      reads this`deck, this`discard, this`showHelp, this`shuffled
    {
      DealtOrder(Piles(deck, discard)) == shuffled
      && (showHelp ==> discard != [])
    }

    /** Only a locked draw can be in flight. */
    ghost predicate LockOk()
      reads this`inFlight, this`isAnimating
    {
      inFlight.Some? ==> isAnimating
    }

    /** A screen is only shown when the lookups its render makes succeed. */
    ghost predicate ScreenOk()
      reads this`view, this`levelId, this`topicId
    {
      (view.TopicSelect? ==> GetLevel(content, levelId).Ok?)
      && (view.Board? || view.End? ==> GetTopic(content, levelId, topicId).Ok?)
    }

    /** The end screen means the deck is used up and no draw is running. */
    ghost predicate EndOk()
      reads this`view, this`deck, this`isAnimating
    {
      view.End? ==> deck == [] && !isAnimating
    }

    /** The last deal was a shuffle of the selected topic's cards, whenever
        a topic is selected: every way of selecting a topic deals it, and
        choosing a level clears the topic. */
    ghost predicate DealOk()
      reads this`levelId, this`topicId, this`shuffled
    {
      GetTopic(content, levelId, topicId).Ok? ==>
        IsShuffleOf(GetTopic(content, levelId, topicId).value.cards, shuffled)
    }

    /** What every handler keeps. */
    ghost predicate Valid()
      reads this
    {
      PilesOk() && LockOk() && ScreenOk() && EndOk() && DealOk()
    }

    /** The piles always hold exactly the cards of the last deal. */
    lemma PilesHoldTheDeal()
      requires PilesOk()
      ensures Held(Piles(deck, discard)) == multiset(shuffled)
    {
      ReverseMultiset(discard);
    }

    /** On the board and on the end screen, deck and discard pile together
        hold exactly the cards of the selected topic, each as often as the
        topic has it. */
    lemma PilesHoldTheTopic()
      requires Valid() && (view.Board? || view.End?)
      ensures Held(Piles(deck, discard)) == multiset(GetTopic(content, levelId, topicId).value.cards)
    {
      PilesHoldTheDeal();
      ShuffleOrdersArePermutations(GetTopic(content, levelId, topicId).value.cards, shuffled);
    }

    /** The top card of the discard pile, if any (`discard[0] || null`). */
    function Top(): (r: Option<Card>)
      reads this`discard
      ensures r.Some? <==> discard != []
      ensures r.Some? ==> r.value == discard[0]
    {
      if discard == [] then None else Some(discard[0])
    }

    /** `new` followed by `init()` on an already loaded document: the page
        options are stored when non-empty; with both a level and a topic the
        deck is dealt and the board shown, with a level only the topic
        screen, otherwise the home screen. A failing lookup throws before
        anything is rendered. */
    constructor (doc: Document, optLevel: Option<string>, optTopic: Option<string>)
      ensures Valid()
      ensures content == doc
      ensures levelId == (if Given(optLevel) then optLevel else None)
      ensures topicId == (if Given(optTopic) then optTopic else None)
      ensures discard == [] && !showHelp && !isAnimating && inFlight.None?
      ensures Given(optLevel) && Given(optTopic) ==>
        match GetTopic(doc, levelId, topicId)
        case Ok(topic) => view == Board && multiset(deck) == multiset(topic.cards)
        case Err(_) => view == Blank && deck == []
      ensures Given(optLevel) && !Given(optTopic) ==>
        deck == [] && view == (if GetLevel(doc, levelId).Ok? then TopicSelect else Blank)
      ensures !Given(optLevel) ==> deck == [] && view == Home
    {
      content := doc;
      levelId := if Given(optLevel) then optLevel else None;
      topicId := if Given(optTopic) then optTopic else None;
      deck := [];
      discard := [];
      showHelp := false;
      isAnimating := false;
      inFlight := None;
      view := Blank;
      shuffled := [];
      new;
      if levelId.Some? && topicId.Some? {
        var ok := StartDeck();
        if ok {
          view := Board;
        }
      } else if levelId.Some? {
        GetTopicSpec(content, levelId, topicId);
        if GetLevel(content, levelId).Ok? {
          view := TopicSelect;
        }
      } else {
        GetLevelSpec(content, levelId);
        GetTopicSpec(content, levelId, topicId);
        view := Home;
      }
    }

    /** `startDeck`: deal the current topic anew. The deck becomes a shuffle
        of a copy of the topic's cards (by ShuffleOrdersArePermutations, any
        permutation of them and nothing else), replacing whatever the piles
        held, and help is switched off. When the lookup throws nothing
        changes. */
    method StartDeck() returns (ok: bool)
      modifies this`deck, this`discard, this`showHelp, this`shuffled
      ensures ok <==> GetTopic(content, levelId, topicId).Ok?
      ensures ok ==> PilesOk() && discard == [] && !showHelp && shuffled == deck
      ensures ok ==> IsShuffleOf(GetTopic(content, levelId, topicId).value.cards, deck) && DealOk()
      ensures ok ==> multiset(deck) == multiset(GetTopic(content, levelId, topicId).value.cards)
      ensures !ok ==> deck == old(deck) && discard == old(discard) && showHelp == old(showHelp)
      ensures !ok ==> shuffled == old(shuffled)
    {
      var r := GetTopic(content, levelId, topicId);
      if r.Err? {
        return false;
      }
      var cards := r.value.cards;
      var order := ShuffledCopy(cards);
      assert DealtOrder(Piles(order, [])) == order by {
        assert Reverse<Card>([]) == [];
      }
      deck := order;
      discard := [];
      showHelp := false;
      shuffled := order;
      ok := true;
    }

    /** `deck.shift()` and `discard.unshift(next)` followed by switching help
        off, as both draw paths do; on an empty deck nothing moves. */
    method Transfer()
      requires PilesOk()
      modifies this`deck, this`discard, this`showHelp
      ensures PilesOk()
      ensures Piles(deck, discard) == Draw(old(Piles(deck, discard)))
      ensures Held(Piles(deck, discard)) == old(Held(Piles(deck, discard)))
      ensures !showHelp
    {
      DrawKeepsCards(Piles(deck, discard));
      DrawKeepsOrder(Piles(deck, discard));
      var p := Draw(Piles(deck, discard));
      deck := p.deck;
      discard := p.discard;
      showHelp := false;
    }

    /** The click on the deck pile (`drawNextAnimated` up to its first
        timer). A click while the lock is held does nothing. On an empty
        deck the end screen is shown. Otherwise the lock is taken; with both
        piles on the page the head card starts flying and its arrival is
        left pending, without them (`anchored` false) the draw completes at
        once (`drawNextImmediate`) and the lock is released. */
    method RequestDraw(anchored: bool)
      requires Valid() && view.Board?
      modifies this`deck, this`discard, this`showHelp, this`view, this`isAnimating, this`inFlight
      ensures Valid()
      ensures old(isAnimating) ==> unchanged(this)
      ensures !old(isAnimating) && old(deck) == [] ==>
        view == End && deck == old(deck) && discard == old(discard) &&
        showHelp == old(showHelp) && !isAnimating && inFlight.None?
      ensures !old(isAnimating) && old(deck) != [] && anchored ==>
        isAnimating && inFlight == Some(old(deck)[0]) && view == old(view) &&
        deck == old(deck) && discard == old(discard) && showHelp == old(showHelp)
      ensures !old(isAnimating) && old(deck) != [] && !anchored ==>
        deck == old(deck)[1..] && discard == [old(deck)[0]] + old(discard) &&
        !showHelp && view == Board && !isAnimating && inFlight.None?
    {
      if isAnimating {
        return;
      }
      if deck == [] {
        view := End;
        return;
      }
      isAnimating := true;
      if anchored {
        inFlight := Some(deck[0]);
      } else {
        Transfer();
        view := Board;
        isAnimating := false;
      }
    }

    /** The arrival of a flying card, with the lock released whatever the
        render does. The card moved is the head of the deck as it is now:
        when the deck was dealt anew during the flight it is not the card
        that was flying, and when the new deck is empty nothing moves. The
        board is shown when its lookups succeed; otherwise the screen stays
        as it was. */
    method Arrive()
      requires Valid() && inFlight.Some?
      modifies this`deck, this`discard, this`showHelp, this`view, this`isAnimating, this`inFlight
      ensures Valid()
      ensures Piles(deck, discard) == Draw(old(Piles(deck, discard)))
      ensures !showHelp && !isAnimating && inFlight.None?
      ensures view == if GetTopic(content, levelId, topicId).Ok? then Board else old(view)
    {
      Transfer();
      if GetTopic(content, levelId, topicId).Ok? {
        view := Board;
      }
      isAnimating := false;
      inFlight := None;
    }

    /** The arrival as game.js:351-361 has it: the lock is released only
        after the board rendered, so when the render throws (the topic was
        cleared by choosing a level during the flight) the lock stays held
        with nothing in flight. The transfer itself is the guarded one of
        Arrive; the unguarded shift on an empty deck is ShiftUnshift. */
    method ArriveAsWritten()
      requires Valid() && inFlight.Some?
      modifies this`deck, this`discard, this`showHelp, this`view, this`isAnimating, this`inFlight
      ensures Valid()
      ensures Piles(deck, discard) == Draw(old(Piles(deck, discard)))
      ensures !showHelp && inFlight.None?
      ensures GetTopic(content, levelId, topicId).Ok? ==> view == Board && !isAnimating
      ensures GetTopic(content, levelId, topicId).Err? ==> view == old(view) && isAnimating
    {
      Transfer();
      inFlight := None;
      if GetTopic(content, levelId, topicId).Ok? {
        view := Board;
        isAnimating := false;
      }
    }

    /** The help button of the board: disabled while no card has been drawn,
        otherwise it flips whether the help of the top card is shown. */
    method ToggleHelp()
      requires Valid() && view.Board?
      modifies this`showHelp
      ensures Valid()
      ensures discard == [] ==> showHelp == old(showHelp)
      ensures discard != [] ==> showHelp == !old(showHelp)
    {
      if Top().None? {
        return;
      }
      showHelp := !showHelp;
    }

    /** The two piles as the board draws them: each shows at most
        MaxVisible layers; the deck face down, the discard pile face up with
        the top card's question on its last layer; an empty pile shows its
        drop zone. Every layer finds an offset entry, and each later layer
        is stacked above the earlier ones. */
    method Stacks() returns (left: seq<Stack.Slot>, right: seq<Stack.Slot>)
      ensures deck == [] ==> left == [Stack.DropZone]
      ensures deck != [] ==> |left| == Stack.VisibleCount(|deck|)
      ensures forall k :: 0 <= k < |left| && deck != [] ==> left[k].Back?
      ensures discard == [] ==> right == [Stack.DropZone]
      ensures discard != [] ==> |right| == Stack.VisibleCount(|discard|)
      ensures discard != [] ==> right[|right| - 1] == Stack.Face(0, discard[0].q)
      ensures forall k :: 0 <= k < |left| ==> Stack.LayerOf(left[k]) < Stack.JitterSize
      ensures forall k :: 0 <= k < |right| ==> Stack.LayerOf(right[k]) < Stack.JitterSize
      ensures forall k :: 0 < k < |left| ==> Stack.LayerOf(left[k]) < Stack.LayerOf(left[k - 1])
      ensures forall k :: 0 < k < |right| ==> Stack.LayerOf(right[k]) < Stack.LayerOf(right[k - 1])
    {
      left := Stack.BuildBackStack(Stack.VisibleCount(|deck|));
      right := Stack.BuildFaceStack(Top(), Stack.VisibleCount(|discard|));
    }

    /** "Ricomincia" on the board or on the end screen: deal the same topic
        anew and show the board. Whatever the piles held before is
        replaced, not added to. */
    method Restart()
      requires Valid() && (view.Board? || view.End?)
      modifies this`deck, this`discard, this`showHelp, this`shuffled, this`view
      ensures Valid() && view == Board
      ensures discard == [] && !showHelp
      ensures multiset(deck) == multiset(GetTopic(content, levelId, topicId).value.cards)
    {
      assert ScreenOk();
      var ok := StartDeck();
      assert ok && PilesOk() && DealOk();
      view := Board;
    }

    /** "Temi" on the board, "Cambia tema" on the end screen. */
    method ShowTopics()
      requires Valid() && (view.Board? || view.End?)
      modifies this`view
      ensures Valid() && view == TopicSelect
    {
      view := TopicSelect;
    }

    /** "Menu" on the topic screen, the board and the end screen. */
    method ShowHome()
      requires Valid() && (view.TopicSelect? || view.Board? || view.End?)
      modifies this`view
      ensures Valid() && view == Home
    {
      view := Home;
    }

    /** A level button of the home screen: select the level, forget the
        topic, show the level's topics. */
    method ChooseLevel(k: nat)
      requires Valid() && view.Home? && k < |content.levels|
      modifies this`levelId, this`topicId, this`view
      ensures Valid() && view == TopicSelect
      ensures levelId == Some(content.levels[k].id) && topicId.None?
      ensures GetLevel(content, levelId).Ok? && GetLevel(content, levelId).value.id == content.levels[k].id
      ensures GetTopic(content, levelId, topicId) == Err(TopicNotFound)
    {
      levelId := Some(content.levels[k].id);
      topicId := None;
      assert content.levels[k] in content.levels;
      GetLevelSpec(content, levelId);
      GetTopicSpec(content, levelId, topicId);
      view := TopicSelect;
    }

    /** A topic button of the topic screen: select the topic, deal its cards
        and show the board. The deck comes from the first topic of the level
        with that id. */
    method ChooseTopic(k: nat)
      requires Valid() && view.TopicSelect? && k < |GetLevel(content, levelId).value.topics|
      modifies this`deck, this`discard, this`showHelp, this`shuffled, this`view, this`topicId
      ensures Valid() && view == Board
      ensures topicId == Some(GetLevel(content, levelId).value.topics[k].id)
      ensures GetTopic(content, levelId, topicId).Ok?
      ensures multiset(deck) == multiset(GetTopic(content, levelId, topicId).value.cards)
      ensures discard == [] && !showHelp
    {
      var topic := GetLevel(content, levelId).value.topics[k];
      topicId := Some(topic.id);
      ListedTopicFound(content, levelId, k);
      var ok := StartDeck();
      assert ok;
      view := Board;
    }

    /** Two clicks on the help button give back the screen as it was. */
    method ToggleHelpTwice()
      requires Valid() && view.Board?
      modifies this`showHelp
      ensures Valid() && showHelp == old(showHelp)
    {
      ToggleHelp();
      ToggleHelp();
    }

    /** The stuck lock: a draw starts flying, the player goes to the menu and
        picks a level (which clears the topic), then the card arrives. Its
        render throws, the lock is never released, and from then on every
        click on the deck does nothing. */
    method StuckLockScenario(k: nat)
      requires Valid() && view.Board? && !isAnimating && deck != [] && k < |content.levels|
      modifies this
      ensures Valid() && isAnimating && inFlight.None?
    {
      RequestDraw(true);
      ShowHome();
      ChooseLevel(k);
      ArriveAsWritten();
    }
  }
}
