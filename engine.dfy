/**
 * The GameManager class of js/gameManager.js. Its fields are the engine's
 * state; `State()` abstracts them to a Rules.GameState. The public
 * methods are proved to perform the corresponding step of module Rules on
 * state and trace; the helpers state their part of a step, and the timer,
 * emit and lookup methods state their own effect. The callbacks'
 * own effects are out of reach: each notification is recorded on the ghost
 * `trace` instead. The 600 ms wait of a mismatch is split off as
 * `HideMismatch`, the one-second interval body as `Tick`.
 */
module Engine {
  import opened Wrappers
  import opened Cards
  import opened Deck
  import opened Rules

  const OddSizeMessage := "Total card count must be even (pairs)."

  /** The constructor's only check: the card count must be even. Dimensions are not checked otherwise. */
  function SizeCheck(cols: int, rows: int): (r: Result<int>)
    ensures r.Failure? <==> (cols * rows) % 2 != 0
    ensures r.Failure? ==> r.error == OddSizeMessage
    ensures r.Success? ==> r.value == cols * rows
  {
    if (cols * rows) % 2 != 0 then Failure(OddSizeMessage) else Success(cols * rows)
  }

  /**
   * The check rejects exactly the grids whose two sides are both odd,
   * whatever their sign: a zero or negative side passes whenever the
   * other side or it is even, and a zero side always passes.
   */
  lemma SizeCheckAcceptsDegenerate()
    ensures forall cols, rows :: SizeCheck(cols, rows).Success? <==> (cols % 2 == 0 || rows % 2 == 0)
    ensures forall rows :: SizeCheck(0, rows) == Success(0)
  {
    forall cols, rows ensures SizeCheck(cols, rows).Success? <==> (cols % 2 == 0 || rows % 2 == 0) {
      ProductParity(cols, rows);
    }
  }

  /** A product is even exactly when a factor is, negative factors included. */
  lemma ProductParity(a: int, b: int)
    ensures (a * b) % 2 == 0 <==> (a % 2 == 0 || b % 2 == 0)
  {
    var x, y := a / 2, b / 2;
    if a % 2 == 0 {
      assert a * b == 2 * (x * b);
    } else if b % 2 == 0 {
      assert a * b == 2 * (a * y);
    } else {
      assert a == 2 * x + 1 && b == 2 * y + 1;
      assert a * b == (2 * x + 1) * b == 2 * x * b + b;
      assert a * b == 2 * (x * b + y) + 1;
    }
  }

  /** `new GameManager({cols, rows})`: the error path is the exception the constructor throws. */
  method NewGame(cols: int := 4, rows: int := 4) returns (r: Result<GameManager>)
    ensures r.Failure? <==> (cols * rows) % 2 != 0
    ensures r.Failure? ==> r.error == OddSizeMessage
    ensures r.Success? ==> fresh(r.value) && r.value.Valid()
    ensures r.Success? ==> forall k :: 0 <= k < |r.value.deck| ==> fresh(r.value.deck[k])
    ensures r.Success? ==> r.value.cols == cols && r.value.rows == rows && r.value.trace == []
    ensures r.Success? ==> Dealt(r.value.State().cards, cols * rows)
    ensures r.Success? ==>
              r.value.State() == GameState(r.value.State().cards, [], 0, 0, cols * rows, 0, false, 0, 0, map[])
  {
    match SizeCheck(cols, rows)
    case Failure(e) =>
      r := Failure(e);
    case Success(_) =>
      var g := new GameManager(cols, rows);
      r := Success(g);
  }

  /** `raw.map((v, idx) => new Card(idx, v))`: one fresh card per value, numbered by position. */
  method NumberCards(raw: seq<Color>) returns (cards: seq<Card>)
    ensures |cards| == |raw|
    ensures forall k :: 0 <= k < |raw| ==> fresh(cards[k])
    ensures forall k :: 0 <= k < |raw| ==> cards[k].id == k && cards[k].value == raw[k] && !cards[k].matched
  {
    cards := [];
    var idx := 0;
    while idx < |raw|
      invariant 0 <= idx <= |raw|
      invariant |cards| == idx
      invariant forall k :: 0 <= k < idx ==> fresh(cards[k])
      invariant forall k :: 0 <= k < idx ==> cards[k].id == k && cards[k].value == raw[k] && !cards[k].matched
    {
      var c := new Card(idx, raw[idx]);
      cards := cards + [c];
      idx := idx + 1;
    }
  }

  /** The deck-building part of `_createDeck`: values, doubled, shuffled, then numbered cards. */
  method DealCards(totalCards: int) returns (cards: seq<Card>)
    ensures forall k :: 0 <= k < |cards| ==> fresh(cards[k])
    ensures Dealt(Views(cards), totalCards)
  {
    var values := BuildValues(totalCards);
    var raw := Doubled(values);
    var arr := new Color[|raw|](k requires 0 <= k < |raw| => raw[k]);
    assert arr[..] == raw;
    Shuffle(arr);
    cards := NumberCards(arr[..]);
    ghost var dealt := Views(cards);
    assert forall k :: 0 <= k < |dealt| ==> dealt[k] == CardView(k, arr[k], false);
    DealtFrom(dealt, arr[..], totalCards);
  }

  /** Cards whose views are numbered by position are numbered by position. */
  lemma NumberedFrom(cards: seq<Card>)
    requires Indexed(Views(cards))
    ensures forall k :: 0 <= k < |cards| ==> cards[k].id == k
  {
    forall k | 0 <= k < |cards| ensures cards[k].id == k {
      assert Views(cards)[k] == cards[k].View();
    }
  }

  class GameManager {
    var cols: int
    var rows: int
    var totalCards: int
    var deck: seq<Card>
    var flipped: seq<Card>
    var moves: nat
    var matchedPairs: nat
    var callbacks: map<string, nat>
    /** Whether an interval is registered (`_timer !== null`). */
    var timer: bool
    var seconds: nat
    var running: bool
    /** The views of the deck's cards, kept equal to what the cards hold. */
    ghost var views: seq<CardView>
    /** The ids of the face-up cards, in the order they were turned. */
    ghost var faceUp: seq<int>
    /** Mismatch continuations scheduled and not yet run. */
    ghost var pendingHides: nat
    /** How often the current game has been decided as won. */
    ghost var wins: nat
    /** Every handler call, in order. */
    ghost var trace: seq<Delivery>

    ghost function State(): GameState
      reads this
    {
      GameState(views, faceUp, moves, matchedPairs, totalCards,
                seconds, running, pendingHides, wins, callbacks)
    }

    /** The cards hold what `views` says. */
    ghost predicate Linked()
      reads this`deck, this`views, deck
    {
      |deck| == |views| && forall k :: 0 <= k < |deck| ==> deck[k].View() == views[k]
    }

    /**
     * How the objects hang together: the cards linked to their views and
     * numbered by position, a registered interval exactly while the clock
     * runs, and face-up cards taken from the deck.
     */
    ghost predicate Wired()
      reads this, deck
    {
      Linked() && Numbered() && timer == running && FaceUpInDeck()
    }

    /** Every card's id is its position. */
    ghost predicate Numbered()
      reads this`deck
    {
      forall k :: 0 <= k < |deck| ==> deck[k].id == k
    }

    /** The face-up cards are the deck's cards at the face-up ids. */
    ghost predicate FaceUpInDeck()
      reads this`deck, this`flipped, this`faceUp
    {
      |flipped| == |faceUp|
      && forall i :: 0 <= i < |flipped| ==> 0 <= faceUp[i] < |deck| && flipped[i] == deck[faceUp[i]]
    }

    /** The rules' invariant on the abstract state, and the objects wired to it. */
    ghost predicate Valid()
      reads this, deck
    {
      Inv(State()) && Wired()
    }

    function CurrentStatus(): (st: Status)
      reads this
      ensures st == StatusOf(State())
    {
      Status(moves, matchedPairs, totalCards, seconds)
    }

    /** The constructor after its parity check (see NewGame). */
    constructor (cols: int, rows: int)
      requires (cols * rows) % 2 == 0
      ensures Valid()
      ensures forall k :: 0 <= k < |deck| ==> fresh(deck[k])
      ensures this.cols == cols && this.rows == rows && trace == []
      ensures Dealt(State().cards, cols * rows)
      ensures State() == GameState(State().cards, [], 0, 0, cols * rows, 0, false, 0, 0, map[])
    {
      this.cols := cols;
      this.rows := rows;
      totalCards := cols * rows;
      deck := [];
      flipped := [];
      moves := 0;
      matchedPairs := 0;
      callbacks := map[];
      timer := false;
      seconds := 0;
      running := false;
      views := [];
      faceUp := [];
      pendingHides := 0;
      wins := 0;
      trace := [];
      new;
      ghost var s := State();
      // The JavaScript constructor resets the interval, the seconds and `running` once more
      // after dealing; they already hold those values here.
      ghost var t0 := trace;
      CreateDeck();
      ghost var d := DealStep(s, views);
      assert d.out == [] by {
        assert s.handlers == map[];
      }
      assert trace == t0 + d.out;
    }

    /** `on`: register `cb` for `event`, replacing any earlier handler. */
    method On(event: string, cb: Option<nat>)
      requires Valid()
      modifies this`callbacks
      ensures Valid()
      ensures State() == Rules.On(old(State()), event, cb)
    {
      match cb
      case Some(h) => callbacks := callbacks[event := h];
      case None => callbacks := callbacks - {event};
    }

    /** `_emit`: call the handler registered for `event`, if any. */
    method Emit(event: string, ghost payload: Payload)
      modifies this`trace
      ensures trace == old(trace) + Deliver(callbacks, event, payload)
      ensures State() == old(State())
      ensures old(Wired()) ==> Wired()
    {
      if event in callbacks {
        trace := trace + [Delivery(callbacks[event], event, payload)];
      }
    }

    /** `_createDeck`: cyclic pair values, doubled, shuffled, numbered, and counters reset. */
    method CreateDeck()
      requires !timer
      modifies this`deck, this`views, this`moves, this`matchedPairs, this`flipped, this`faceUp,
               this`seconds, this`running, this`wins, this`trace
      ensures Valid()
      ensures forall k :: 0 <= k < |deck| ==> fresh(deck[k])
      ensures Dealt(State().cards, totalCards)
      ensures State() == DealStep(old(State()), State().cards).state
      ensures trace == old(trace) + DealStep(old(State()), State().cards).out
    {
      ghost var s := State();
      ResetDeck();
      ghost var d := DealStep(s, views);
      ghost var t1 := trace;
      ghost var shown := Deliver(s.handlers, "render", DeckShown(views));
      ghost var updated := Deliver(s.handlers, "update", StatusShown(StatusOf(d.state)));
      Emit("render", DeckShown(views));
      assert trace == t1 + shown;
      Emit("update", StatusShown(CurrentStatus()));
      assert trace == t1 + shown + updated;
      AppendAssoc(t1, shown, updated);
    }

    /** The state-changing half of `_createDeck`: a new deck and every counter back to zero. */
    method ResetDeck()
      requires !timer
      modifies this`deck, this`views, this`moves, this`matchedPairs, this`flipped, this`faceUp,
               this`seconds, this`running, this`wins
      ensures Valid() && !timer
      ensures forall k :: 0 <= k < |deck| ==> fresh(deck[k])
      ensures Dealt(views, totalCards)
      ensures State() == DealStep(old(State()), views).state
    {
      var cards := DealCards(totalCards);
      Install(cards);
    }

    /** `this.deck = ...` and the counter resets of `_createDeck`, given the dealt cards. */
    method Install(cards: seq<Card>)
      requires !timer && Dealt(Views(cards), totalCards)
      modifies this`deck, this`views, this`moves, this`matchedPairs, this`flipped, this`faceUp,
               this`seconds, this`running, this`wins
      ensures Valid() && !timer && deck == cards
      ensures Dealt(views, totalCards)
      ensures State() == DealStep(old(State()), views).state
    {
      ghost var s := State();
      ghost var dealt := Views(cards);
      DealEstablishesInv(s, dealt);
      NumberedFrom(cards);
      deck := cards;
      views := dealt;
      moves := 0;
      matchedPairs := 0;
      flipped := [];
      faceUp := [];
      seconds := 0;
      running := false;
      wins := 0;
      assert State() == DealStep(s, dealt).state;
    }

    /** `startTimer`: a no-op while the clock runs; otherwise start it and register the interval. */
    method StartTimer()
      modifies this`running, this`timer
      ensures running
      ensures old(running) ==> timer == old(timer)
      ensures !old(running) ==> timer
    {
      if running {
        return;
      }
      running := true;
      timer := true;
    }

    /** `stopTimer`: stop the clock and clear any registered interval. */
    method StopTimer()
      modifies this`running, this`timer
      ensures !running && !timer
    {
      running := false;
      if timer {
        timer := false;
      }
    }

    /** One firing of the interval registered by StartTimer. */
    method Tick()
      requires Valid()
      modifies this`seconds, this`trace
      ensures Valid()
      ensures State() == TickStep(old(State())).state
      ensures trace == old(trace) + TickStep(old(State())).out
    {
      ghost var s := State();
      TickPreservesInv(s);
      if timer {
        seconds := seconds + 1;
        assert State() == TickStep(s).state;
        Emit("update", StatusShown(CurrentStatus()));
      }
    }

    /** `flip`, up to its `await`: start the clock, look the card up, and ignore it or turn it up. */
    method Flip(cardId: int)
      requires Valid()
      modifies this, deck
      ensures Valid() && deck == old(deck) && cols == old(cols) && rows == old(rows)
      ensures State() == FlipStep(old(State()), cardId).state
      ensures trace == old(trace) + FlipStep(old(State()), cardId).out
    {
      ghost var s := State();
      if !running {
        StartTimer();
      }
      assert State() == Rules.StartTimer(s);
      var card := Lookup(cardId);
      if card == null {
        FlipIgnored(s, cardId);
        return;
      }
      FlipAccepted(s, cardId);
      TurnUp(card);
    }

    /**
     * `deck.find` by id and the two checks after it: the card, or null when
     * it is unknown, matched, or already face-up.
     */
    method Lookup(cardId: int) returns (card: Card?)
      requires Valid()
      ensures card == null <==> !Accepted(State(), cardId)
      ensures card != null ==> 0 <= cardId < |deck| && card == deck[cardId] && card.id == cardId
    {
      IndexOfIndexed(views, cardId);
      assert Ids(deck) == CardIds(views);
      var found := IndexOf(Ids(deck), cardId);
      if found.None? {
        return null;
      }
      card := deck[found.value];
      assert Ids(flipped) == faceUp;
      if card.matched || cardId in Ids(flipped) {
        card := null;
      }
    }

    /** The part of `flip` after the checks: push and show the card, then settle. */
    method TurnUp(card: Card)
      requires Valid() && running
      requires 0 <= card.id < |deck| && deck[card.id] == card
      requires Accepted(State(), card.id)
      modifies this, deck
      ensures Valid() && deck == old(deck) && cols == old(cols) && rows == old(rows)
      ensures State() == TurnStep(old(State()), card.id).state
      ensures trace == old(trace) + TurnStep(old(State()), card.id).out
    {
      ghost var s := State();
      TurnPreservesInv(s, card.id);
      ghost var t := s.(flipped := s.flipped + [card.id]);
      ghost var shown := Deliver(s.handlers, "render", FlipShown(s.cards, t.flipped));
      ghost var t1 := trace;
      Show(card);
      Settle();
      AppendAssoc(t1, shown, SettleStep(t).out);
    }

    /** `if (this.flipped.length === 2)`: count and compare a pair, or report the status. */
    method Settle()
      requires Wired() && running && (|flipped| == 2 ==> flipped[0] != flipped[1])
      modifies this, deck
      ensures Wired() && deck == old(deck) && cols == old(cols) && rows == old(rows)
      ensures State() == SettleStep(old(State())).state
      ensures trace == old(trace) + SettleStep(old(State())).out
    {
      if |flipped| == 2 {
        ComparePair();
      } else {
        Emit("update", StatusShown(CurrentStatus()));
      }
    }

    /** `flipped.push(card)` and the `render` that shows it face-up. */
    method Show(card: Card)
      requires Wired() && 0 <= card.id < |deck| && deck[card.id] == card && card.id !in faceUp
      modifies this`flipped, this`faceUp, this`trace
      ensures Wired()
      ensures |flipped| >= 1 && flipped[|flipped| - 1] == card
      ensures forall i :: 0 <= i < |flipped| - 1 ==> flipped[i] != card
      ensures State() == old(State()).(flipped := old(State()).flipped + [card.id])
      ensures trace == old(trace) + Deliver(callbacks, "render", FlipShown(views, faceUp))
    {
      flipped := flipped + [card];
      faceUp := faceUp + [card.id];
      Emit("render", FlipShown(views, faceUp));
    }

    /** The two-card branch of `flip` (js/gameManager.js:129-151): count the move and compare values. */
    method ComparePair()
      requires Wired() && running && |flipped| == 2 && flipped[0] != flipped[1]
      modifies this, deck
      ensures Wired() && deck == old(deck) && cols == old(cols) && rows == old(rows)
      ensures State() == PairStep(old(State())).state
      ensures trace == old(trace) + PairStep(old(State())).out
    {
      ghost var s := State();
      ghost var u := s.(moves := s.moves + 1);
      moves := moves + 1;
      assert State() == u;
      var a, b := flipped[0], flipped[1];
      assert a.value == s.cards[s.flipped[0]].value && b.value == s.cards[s.flipped[1]].value;
      if a.value == b.value {
        assert PairStep(s) == ResolveMatch(u);
        MarkMatched();
      } else {
        pendingHides := pendingHides + 1;
        assert State() == PairStep(s).state;
      }
    }

    /** The matching branch of `flip`: both cards matched, pair counted, face-up list cleared, win decided. */
    method MarkMatched()
      requires Wired() && running && |flipped| == 2 && flipped[0] != flipped[1]
      modifies this`views, this`matchedPairs, this`flipped, this`faceUp, this`running, this`timer,
               this`wins, this`trace, flipped[0], flipped[1]
      ensures Wired()
      ensures State() == ResolveMatch(old(State())).state
      ensures trace == old(trace) + ResolveMatch(old(State())).out
    {
      ghost var s := State();
      ghost var marked := s.cards[s.flipped[0] := s.cards[s.flipped[0]].WithMatched()]
                                 [s.flipped[1] := s.cards[s.flipped[1]].WithMatched()];
      ghost var t := s.(cards := marked, flipped := [], matchedPairs := s.matchedPairs + 1);
      MatchCards();
      matchedPairs := matchedPairs + 1;
      flipped := [];
      faceUp := [];
      assert State() == t;
      ghost var t1 := trace;
      ghost var updated := Deliver(s.handlers, "update", StatusShown(StatusOf(t)));
      Emit("update", StatusShown(CurrentStatus()));
      assert trace == t1 + updated;
      DecideWin();
      AppendAssoc(t1, updated, WinStep(t).out);
    }

    /** `a.setMatched(true); b.setMatched(true)` on the two face-up cards. */
    method MatchCards()
      requires Wired() && |faceUp| == 2 && faceUp[0] != faceUp[1]
      modifies this`views, flipped[0], flipped[1]
      ensures Wired()
      ensures views == old(views)[faceUp[0] := old(views)[faceUp[0]].WithMatched()]
                                 [faceUp[1] := old(views)[faceUp[1]].WithMatched()]
    {
      var a, b := flipped[0], flipped[1];
      a.SetMatched(true);
      b.SetMatched(true);
      views := views[faceUp[0] := views[faceUp[0]].WithMatched()][faceUp[1] := views[faceUp[1]].WithMatched()];
      assert Linked() by {
        forall k | 0 <= k < |deck| ensures deck[k].View() == views[k] {
          if k != a.id && k != b.id {
            assert deck[k] != a && deck[k] != b;
          }
        }
      }
    }

    /** The win check of `flip` (js/gameManager.js:140-143): on the last pair stop the clock and emit `win`. */
    method DecideWin()
      requires Wired() && flipped == []
      modifies this`running, this`timer, this`wins, this`trace
      ensures Wired()
      ensures State() == WinStep(old(State())).state
      ensures trace == old(trace) + WinStep(old(State())).out
    {
      if totalCards % 2 == 0 && matchedPairs == totalCards / 2 {
        StopTimer();
        wins := wins + 1;
        Emit("win", StatusShown(CurrentStatus()));
      }
    }

    /** The continuation of a mismatched `flip` after its 600 ms wait. */
    method HideMismatch()
      requires Valid() && pendingHides > 0
      modifies this`flipped, this`faceUp, this`pendingHides, this`trace
      ensures Valid()
      ensures State() == HideStep(old(State())).state
      ensures trace == old(trace) + HideStep(old(State())).out
    {
      ghost var s := State();
      ghost var h := HideStep(s);
      TurnDown();
      ghost var t1 := trace;
      ghost var shown := Deliver(s.handlers, "render", FlipShown(s.cards, []));
      ghost var updated := Deliver(s.handlers, "update", StatusShown(StatusOf(h.state)));
      Emit("render", FlipShown(views, []));
      assert trace == t1 + shown;
      Emit("update", StatusShown(CurrentStatus()));
      assert trace == t1 + shown + updated;
      AppendAssoc(t1, shown, updated);
    }

    /** `this.flipped = []` after the wait: both cards face-down again, one continuation done. */
    method TurnDown()
      requires Valid() && pendingHides > 0
      modifies this`flipped, this`faceUp, this`pendingHides
      ensures Valid()
      ensures State() == HideStep(old(State())).state
    {
      ghost var s := State();
      HidePreservesInv(s);
      pendingHides := pendingHides - 1;
      flipped := [];
      faceUp := [];
      assert State() == HideStep(s).state;
    }

    /**
     * `restart`: stop the clock, take the new or previous dimensions, and deal
     * again, without the constructor's parity check. Pending mismatch
     * continuations are not cancelled.
     */
    method Restart(cols: Option<int>, rows: Option<int>)
      modifies this
      ensures this.cols == (if cols.Some? then cols.value else old(this.cols))
      ensures this.rows == (if rows.Some? then rows.value else old(this.rows))
      ensures Valid()
      ensures forall k :: 0 <= k < |deck| ==> fresh(deck[k])
      ensures Dealt(State().cards, this.cols * this.rows)
      ensures State() == DealStep(RestartState(old(State()), this.cols, this.rows), State().cards).state
      ensures trace == old(trace) + DealStep(RestartState(old(State()), this.cols, this.rows), State().cards).out
    {
      Resize(cols, rows);
      CreateDeck();
    }

    /** The first half of `restart`: the clock stopped and the card count recomputed from the dimensions. */
    method Resize(cols: Option<int>, rows: Option<int>)
      modifies this`running, this`timer, this`cols, this`rows, this`totalCards
      ensures !timer
      ensures this.cols == (if cols.Some? then cols.value else old(this.cols))
      ensures this.rows == (if rows.Some? then rows.value else old(this.rows))
      ensures State() == RestartState(old(State()), this.cols, this.rows)
    {
      StopTimer();
      this.cols := if cols.Some? then cols.value else this.cols;
      this.rows := if rows.Some? then rows.value else this.rows;
      totalCards := this.cols * this.rows;
    }
  }
}
