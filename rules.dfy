/**
 * The rules of js/gameManager.js as functions on an abstract game state.
 * Each engine operation is one step: the state it leaves behind and the
 * notifications it delivers. The class in engine.dfy is proved to perform
 * exactly these steps; the lemmas here state what the steps guarantee.
 */
module Rules {
  import opened Wrappers
  import opened Cards
  import opened Deck

  /**
   * The `_status()` snapshot. Its `totalPairs` is
   * `totalCards / 2` on floating-point numbers, which is fractional for an
   * odd card count; the card count is kept so that value stays exact.
   */
  datatype Status = Status(moves: nat, matchedPairs: nat, totalCards: int, seconds: nat)

  /** What a notification carries: the whole deck, the deck with the face-up ids, or a status. */
  datatype Payload =
    | DeckShown(cards: seq<CardView>)
    | FlipShown(cards: seq<CardView>, flippedIds: seq<int>)
    | StatusShown(status: Status)

  /** One call of a registered handler (named by a number) for one event name. */
  datatype Delivery = Delivery(handler: nat, event: string, payload: Payload)

  /**
   * The engine's state. `flipped` holds the ids of the face-up cards in the
   * order they were turned; `pendingHides` counts the mismatch
   * continuations scheduled and not yet run; `wins` counts the times the
   * current game has been decided as won; `handlers` maps each event name
   * to the handler registered for it.
   */
  datatype GameState = GameState(
    cards: seq<CardView>,
    flipped: seq<int>,
    moves: nat,
    matchedPairs: nat,
    totalCards: int,
    seconds: nat,
    running: bool,
    pendingHides: nat,
    wins: nat,
    handlers: map<string, nat>)

  datatype Step = Step(state: GameState, out: seq<Delivery>)

  /** `_emit`: a notification reaches the handler only if one is registered. */
  function Deliver(handlers: map<string, nat>, event: string, payload: Payload): (d: seq<Delivery>)
    ensures event !in handlers ==> d == []
    ensures event in handlers ==> d == [Delivery(handlers[event], event, payload)]
  {
    if event in handlers then [Delivery(handlers[event], event, payload)] else []
  }

  /** `on`: a handler replaces any earlier one; a falsy callback (None) registers nothing. */
  function On(s: GameState, event: string, cb: Option<nat>): (t: GameState)
    ensures cb.Some? ==> event in t.handlers && t.handlers[event] == cb.value
    ensures cb.None? ==> event !in t.handlers
    ensures forall e :: e != event ==> (e in t.handlers <==> e in s.handlers)
    ensures forall e :: e != event && e in s.handlers ==> t.handlers[e] == s.handlers[e]
    ensures t == s.(handlers := t.handlers)
  {
    match cb
    case Some(h) => s.(handlers := s.handlers[event := h])
    case None => s.(handlers := s.handlers - {event})
  }

  function StatusOf(s: GameState): Status
  {
    Status(s.moves, s.matchedPairs, s.totalCards, s.seconds)
  }

  /** `matchedPairs === totalCards / 2`: an integer never equals a fractional half. */
  predicate WinReached(matchedPairs: nat, totalCards: int)
  {
    totalCards % 2 == 0 && matchedPairs == totalCards / 2
  }

  function CardIds(cards: seq<CardView>): (ids: seq<int>)
    ensures |ids| == |cards|
    ensures forall k :: 0 <= k < |cards| ==> ids[k] == cards[k].id
  {
    seq(|cards|, k requires 0 <= k < |cards| => cards[k].id)
  }

  /** The face values, position by position. */
  function Values(cards: seq<CardView>): (vs: seq<Color>)
    ensures |vs| == |cards|
  {
    if cards == [] then [] else [cards[0].value] + Values(cards[1..])
  }

  lemma {:induction false} ValuesAt(cards: seq<CardView>, k: nat)
    requires k < |cards|
    ensures Values(cards)[k] == cards[k].value
  {
    if k > 0 {
      ValuesAt(cards[1..], k - 1);
    }
  }

  /** Cards numbered in order over a shuffled list are a fresh deal of that list. */
  lemma DealtFrom(cards: seq<CardView>, raw: seq<Color>, totalCards: int)
    requires |cards| == |raw| && forall k :: 0 <= k < |raw| ==> cards[k] == CardView(k, raw[k], false)
    requires multiset(raw) == multiset(Doubled(PairValues(PairCount(totalCards))))
    ensures Dealt(cards, totalCards)
  {
    assert Values(cards) == raw by {
      forall k | 0 <= k < |cards| ensures Values(cards)[k] == raw[k] {
        ValuesAt(cards, k);
      }
    }
    assert |raw| == |multiset(raw)|;
  }

  /** Decks that agree on every value have the same values, whatever their flags. */
  lemma {:induction false} ValuesAgree(cards: seq<CardView>, other: seq<CardView>)
    requires |cards| == |other|
    requires forall k :: 0 <= k < |cards| ==> cards[k].value == other[k].value
    ensures Values(cards) == Values(other)
  {
    if cards != [] {
      assert cards[0].value == other[0].value;
      ValuesAgree(cards[1..], other[1..]);
    }
  }

  /** `Array.prototype.find` on ids: the first position holding `id`, if any. */
  function IndexOf(ids: seq<int>, id: int): (r: Option<nat>)
    ensures r.None? <==> id !in ids
    ensures r.Some? ==> r.value < |ids| && ids[r.value] == id
    ensures r.Some? ==> forall k :: 0 <= k < r.value ==> ids[k] != id
  {
    if ids == [] then None
    else if ids[0] == id then Some(0)
    else match IndexOf(ids[1..], id)
      case None => None
      case Some(k) => Some(k + 1)
  }

  /** The number of matched cards. */
  function MatchedCount(cards: seq<CardView>): nat
  {
    if cards == [] then 0 else (if cards[0].matched then 1 else 0) + MatchedCount(cards[1..])
  }

  /** Every card sits at the position equal to its id. */
  predicate Indexed(cards: seq<CardView>)
  {
    forall k :: 0 <= k < |cards| ==> cards[k].id == k
  }

  /** The deck's values are two copies of the pair values for `totalCards`, in some order. */
  predicate PairedValues(cards: seq<CardView>, totalCards: int)
  {
    |cards| == 2 * PairCount(totalCards)
    && multiset(Values(cards)) == multiset(Doubled(PairValues(PairCount(totalCards))))
  }

  /** A freshly dealt deck: paired values, ids in order, nothing matched. */
  predicate Dealt(cards: seq<CardView>, totalCards: int)
  {
    PairedValues(cards, totalCards)
    && Indexed(cards)
    && forall k :: 0 <= k < |cards| ==> !cards[k].matched
  }

  /** The face-up ids are distinct, denote cards of the deck, and none is matched. */
  predicate FlippedOk(cards: seq<CardView>, flipped: seq<int>)
  {
    (forall i :: 0 <= i < |flipped| ==> 0 <= flipped[i] < |cards| && !cards[flipped[i]].matched)
    && (forall i, j :: 0 <= i < j < |flipped| ==> flipped[i] != flipped[j])
  }

  /** The invariant every engine state satisfies between calls. */
  predicate Inv(s: GameState)
  {
    PairedValues(s.cards, s.totalCards)
    && Indexed(s.cards)
    && FlippedOk(s.cards, s.flipped)
    && (|s.flipped| >= 2 ==> s.pendingHides > 0)
    && MatchedCount(s.cards) == 2 * s.matchedPairs
    && s.matchedPairs <= s.moves
    && s.wins == (if 0 < s.matchedPairs && WinReached(s.matchedPairs, s.totalCards) then 1 else 0)
  }

  function StartTimer(s: GameState): GameState
  {
    s.(running := true)
  }

  function StopTimer(s: GameState): GameState
  {
    s.(running := false)
  }

  /** `_createDeck`, given the shuffled deck it produced. */
  function DealStep(s: GameState, cards: seq<CardView>): Step
    requires Dealt(cards, s.totalCards)
  {
    var t := s.(cards := cards, flipped := [], moves := 0, matchedPairs := 0,
                seconds := 0, running := false, wins := 0);
    Step(t, Deliver(s.handlers, "render", DeckShown(cards))
            + Deliver(s.handlers, "update", StatusShown(StatusOf(t))))
  }

  /** `restart` before it deals: the clock stops and the card count is recomputed, unchecked. */
  function RestartState(s: GameState, cols: int, rows: int): GameState
  {
    StopTimer(s).(totalCards := cols * rows)
  }

  /** A flip that is not ignored: the card exists, is unmatched and is not face-up. */
  predicate Accepted(s: GameState, id: int)
    requires Indexed(s.cards)
  {
    0 <= id < |s.cards| && !s.cards[id].matched && id !in s.flipped
  }

  /** The synchronous part of `flip`, up to its `await`. */
  function FlipStep(s: GameState, id: int): Step
    requires Inv(s)
  {
    var started := StartTimer(s);
    match IndexOf(CardIds(s.cards), id)
    case None => Step(started, [])
    case Some(k) =>
      if s.cards[k].matched || id in s.flipped then Step(started, [])
      else TurnStep(started, id)
  }

  /** An accepted flip: turn the card up and show it, then settle. */
  function TurnStep(s: GameState, id: int): Step
    requires Inv(s) && Accepted(s, id)
  {
    var t := s.(flipped := s.flipped + [id]);
    var r := SettleStep(t);
    Step(r.state, Deliver(s.handlers, "render", FlipShown(s.cards, t.flipped)) + r.out)
  }

  /** After the push: with two cards face-up count and resolve the pair, otherwise report the status. */
  function SettleStep(s: GameState): Step
    requires |s.flipped| == 2 ==> 0 <= s.flipped[0] < |s.cards| && 0 <= s.flipped[1] < |s.cards|
  {
    if |s.flipped| == 2 then PairStep(s)
    else Step(s, Deliver(s.handlers, "update", StatusShown(StatusOf(s))))
  }

  /** Two cards face-up: count the move, then resolve a match or leave the mismatch for later. */
  function PairStep(s: GameState): Step
    requires |s.flipped| == 2 && 0 <= s.flipped[0] < |s.cards| && 0 <= s.flipped[1] < |s.cards|
  {
    var t := s.(moves := s.moves + 1);
    if s.cards[s.flipped[0]].value == s.cards[s.flipped[1]].value then ResolveMatch(t)
    else Step(t.(pendingHides := s.pendingHides + 1), [])
  }

  /** The matching branch of `flip`: mark both face-up cards, count, clear, and decide the win. */
  function ResolveMatch(s: GameState): Step
    requires |s.flipped| == 2 && 0 <= s.flipped[0] < |s.cards| && 0 <= s.flipped[1] < |s.cards|
  {
    var a, b := s.flipped[0], s.flipped[1];
    var cards := s.cards[a := s.cards[a].WithMatched()][b := s.cards[b].WithMatched()];
    var t := s.(cards := cards, flipped := [], matchedPairs := s.matchedPairs + 1);
    var updated := Deliver(s.handlers, "update", StatusShown(StatusOf(t)));
    var w := WinStep(t);
    Step(w.state, updated + w.out)
  }

  /** The end of a match: on the last pair stop the clock and announce the win. */
  function WinStep(s: GameState): Step
  {
    if WinReached(s.matchedPairs, s.totalCards) then
      var w := StopTimer(s).(wins := s.wins + 1);
      Step(w, Deliver(s.handlers, "win", StatusShown(StatusOf(w))))
    else
      Step(s, [])
  }

  /** The continuation of `flip` after its 600 ms wait on a mismatch. */
  function HideStep(s: GameState): Step
    requires s.pendingHides > 0
  {
    var t := s.(flipped := [], pendingHides := s.pendingHides - 1);
    Step(t, Deliver(s.handlers, "render", FlipShown(s.cards, []))
            + Deliver(s.handlers, "update", StatusShown(StatusOf(t))))
  }

  /** One firing of the one-second interval; it exists only while the clock runs. */
  function TickStep(s: GameState): Step
  {
    if s.running then
      var t := s.(seconds := s.seconds + 1);
      Step(t, Deliver(s.handlers, "update", StatusShown(StatusOf(t))))
    else
      Step(s, [])
  }

  /** Appending notifications one call at a time is appending them all at once. */
  lemma AppendAssoc(a: seq<Delivery>, b: seq<Delivery>, c: seq<Delivery>)
    ensures a + b + c == a + (b + c)
  {
  }

  // ---------------------------------------------------------------------
  // Facts about the matched count

  lemma {:induction false} MatchedCountBound(cards: seq<CardView>)
    ensures MatchedCount(cards) <= |cards|
  {
    if cards != [] {
      MatchedCountBound(cards[1..]);
    }
  }

  lemma {:induction false} MatchedCountNone(cards: seq<CardView>)
    requires forall k :: 0 <= k < |cards| ==> !cards[k].matched
    ensures MatchedCount(cards) == 0
  {
    if cards != [] {
      MatchedCountNone(cards[1..]);
    }
  }

  /** An unmatched card keeps the count below the deck size. */
  lemma {:induction false} MatchedCountBelow(cards: seq<CardView>, k: nat)
    requires k < |cards| && !cards[k].matched
    ensures MatchedCount(cards) < |cards|
  {
    if k == 0 {
      MatchedCountBound(cards[1..]);
    } else {
      MatchedCountBelow(cards[1..], k - 1);
    }
  }

  /** Matching one unmatched card raises the count by exactly one. */
  lemma {:induction false} MatchedCountMark(cards: seq<CardView>, k: nat)
    requires k < |cards| && !cards[k].matched
    ensures MatchedCount(cards[k := cards[k].WithMatched()]) == MatchedCount(cards) + 1
  {
    var marked := cards[k := cards[k].WithMatched()];
    if k == 0 {
      assert marked[1..] == cards[1..];
    } else {
      assert marked[1..] == cards[1..][k - 1 := cards[k].WithMatched()];
      MatchedCountMark(cards[1..], k - 1);
    }
  }

  /** Marking two distinct unmatched cards keeps ids and values and adds two to the matched count. */
  lemma MarkPair(cards: seq<CardView>, totalCards: int, a: nat, b: nat)
    requires PairedValues(cards, totalCards) && Indexed(cards)
    requires a < |cards| && b < |cards| && a != b && !cards[a].matched && !cards[b].matched
    ensures var twice := cards[a := cards[a].WithMatched()][b := cards[b].WithMatched()];
      && PairedValues(twice, totalCards) && Indexed(twice)
      && MatchedCount(twice) == MatchedCount(cards) + 2
      && twice[a].matched && twice[b].matched
  {
    var once := cards[a := cards[a].WithMatched()];
    var twice := once[b := once[b].WithMatched()];
    assert once[b] == cards[b];
    MatchedCountMark(cards, a);
    MatchedCountMark(once, b);
    assert forall k :: 0 <= k < |twice| ==> twice[k].id == cards[k].id && twice[k].value == cards[k].value;
    ValuesAgree(twice, cards);
  }

  // ---------------------------------------------------------------------
  // Lookup

  /** With ids equal to positions, `find` by id is indexing, and misses exactly the ids outside the deck. */
  lemma IndexOfIndexed(cards: seq<CardView>, id: int)
    requires Indexed(cards)
    ensures IndexOf(CardIds(cards), id) == if 0 <= id < |cards| then Some(id) else None
  {
    var r := IndexOf(CardIds(cards), id);
    if 0 <= id < |cards| {
      assert CardIds(cards)[id] == id;
    }
  }

  // ---------------------------------------------------------------------
  // Invariant preservation

  /** A fresh deal satisfies the invariant. */
  lemma DealEstablishesInv(s: GameState, cards: seq<CardView>)
    requires Dealt(cards, s.totalCards)
    ensures Inv(DealStep(s, cards).state)
    ensures DealStep(s, cards).state.cards == cards
  {
    MatchedCountNone(cards);
  }

  /** Under the invariant, a won game has every card matched. */
  lemma WonAllMatched(s: GameState)
    requires Inv(s) && 0 < s.matchedPairs && WinReached(s.matchedPairs, s.totalCards)
    ensures forall k :: 0 <= k < |s.cards| ==> s.cards[k].matched
  {
    assert |s.cards| == 2 * s.matchedPairs;
    forall k | 0 <= k < |s.cards| ensures s.cards[k].matched {
      if !s.cards[k].matched {
        MatchedCountBelow(s.cards, k);
      }
    }
  }

  /** Resolving a match of two distinct unmatched cards keeps the invariant. */
  lemma ResolveMatchPreservesInv(s: GameState, id: int)
    requires Inv(s) && Accepted(s, id) && |s.flipped| == 1
    ensures Inv(ResolveMatch(s.(flipped := s.flipped + [id], moves := s.moves + 1)).state)
  {
    var a, b := s.flipped[0], id;
    var twice := s.cards[a := s.cards[a].WithMatched()][b := s.cards[b].WithMatched()];
    var m := s.(cards := twice, flipped := [], matchedPairs := s.matchedPairs + 1, moves := s.moves + 1);
    assert ResolveMatch(s.(flipped := s.flipped + [id], moves := s.moves + 1)).state == WinStep(m).state;
    MarkPair(s.cards, s.totalCards, a, b);
    assert s.wins == 0 by {
      if 0 < s.matchedPairs && WinReached(s.matchedPairs, s.totalCards) {
        WonAllMatched(s);
      }
    }
    WinStepPreservesInv(m);
  }

  /** Deciding the win restores the invariant's win count once a pair has been added. */
  lemma WinStepPreservesInv(m: GameState)
    requires PairedValues(m.cards, m.totalCards) && Indexed(m.cards) && m.flipped == []
    requires MatchedCount(m.cards) == 2 * m.matchedPairs && 0 < m.matchedPairs <= m.moves
    requires m.wins == 0
    ensures Inv(WinStep(m).state)
  {
  }

  /** Turning an accepted card up, and resolving a pair, keeps the invariant. */
  lemma TurnPreservesInv(s: GameState, id: int)
    requires Inv(s) && Accepted(s, id)
    ensures Inv(TurnStep(s, id).state)
  {
    var t := s.(flipped := s.flipped + [id]);
    assert FlippedOk(t.cards, t.flipped);
    assert TurnStep(s, id).state == SettleStep(t).state;
    if |t.flipped| == 2 {
      PairPreservesInv(s, id);
    }
  }

  /** A second face-up card: a match is resolved, a mismatch waits for its continuation. */
  lemma PairPreservesInv(s: GameState, id: int)
    requires Inv(s) && Accepted(s, id) && |s.flipped| == 1
    ensures var t := s.(flipped := s.flipped + [id]);
      Inv(PairStep(t).state)
  {
    var t := s.(flipped := s.flipped + [id]);
    var u := t.(moves := s.moves + 1);
    if s.cards[s.flipped[0]].value == s.cards[id].value {
      assert PairStep(t) == ResolveMatch(u);
      ResolveMatchPreservesInv(s, id);
    } else {
      assert PairStep(t).state == u.(pendingHides := s.pendingHides + 1);
    }
  }

  /** Every flip, accepted or ignored, keeps the invariant. */
  lemma FlipPreservesInv(s: GameState, id: int)
    requires Inv(s)
    ensures Inv(FlipStep(s, id).state)
  {
    IndexOfIndexed(s.cards, id);
    if Accepted(s, id) {
      TurnPreservesInv(StartTimer(s), id);
    }
  }

  /** The mismatch continuation keeps the invariant. */
  lemma HidePreservesInv(s: GameState)
    requires Inv(s) && s.pendingHides > 0
    ensures Inv(HideStep(s).state)
  {
  }

  /** A tick keeps the invariant. */
  lemma TickPreservesInv(s: GameState)
    requires Inv(s)
    ensures Inv(TickStep(s).state)
  {
  }

  // ---------------------------------------------------------------------
  // What one flip does

  /** An accepted flip is the clock start followed by turning the card up. */
  lemma FlipAccepted(s: GameState, id: int)
    requires Inv(s) && Accepted(s, id)
    ensures Inv(StartTimer(s)) && Accepted(StartTimer(s), id)
    ensures FlipStep(s, id) == TurnStep(StartTimer(s), id)
  {
    IndexOfIndexed(s.cards, id);
  }

  /** A flip of an unknown, matched or face-up card only starts the clock. */
  lemma FlipIgnored(s: GameState, id: int)
    requires Inv(s) && !Accepted(s, id)
    ensures FlipStep(s, id) == Step(s.(running := true), [])
  {
    IndexOfIndexed(s.cards, id);
  }

  /**
   * A flip counts a move exactly when it makes the face-up list exactly two
   * long; otherwise no counter changes.
   */
  lemma FlipCountsMoves(s: GameState, id: int)
    requires Inv(s)
    ensures var r := FlipStep(s, id).state;
      if Accepted(s, id) && |s.flipped| == 1 then r.moves == s.moves + 1
      else r.moves == s.moves && r.matchedPairs == s.matchedPairs && r.seconds == s.seconds
  {
    if Accepted(s, id) {
      FlipAccepted(s, id);
      var st := StartTimer(s);
      var t := st.(flipped := st.flipped + [id]);
      assert TurnStep(st, id).state == SettleStep(t).state;
      if |t.flipped| == 2 {
        PairCountsMove(t);
      }
    } else {
      FlipIgnored(s, id);
    }
  }

  /** Resolving two face-up cards counts exactly one move, match or not. */
  lemma PairCountsMove(t: GameState)
    requires |t.flipped| == 2 && 0 <= t.flipped[0] < |t.cards| && 0 <= t.flipped[1] < |t.cards|
    ensures PairStep(t).state.moves == t.moves + 1
  {
    var u := t.(moves := t.moves + 1);
    if t.cards[t.flipped[0]].value == t.cards[t.flipped[1]].value {
      assert PairStep(t) == ResolveMatch(u);
    }
  }

  /** A flip that turns a second card of the same value resolves it at once. */
  lemma FlipMatch(s: GameState, id: int)
    requires Inv(s) && Accepted(s, id) && |s.flipped| == 1
    requires s.cards[s.flipped[0]].value == s.cards[id].value
    ensures var r := FlipStep(s, id).state;
      && r.flipped == []
      && r.matchedPairs == s.matchedPairs + 1
      && r.moves == s.moves + 1
      && |r.cards| == |s.cards|
      && r.cards[s.flipped[0]].matched && r.cards[id].matched
      && (forall k :: 0 <= k < |s.cards| && k != id && k != s.flipped[0] ==> r.cards[k] == s.cards[k])
      && r.pendingHides == s.pendingHides
  {
    IndexOfIndexed(s.cards, id);
  }

  /**
   * A mismatch has two phases: the flip counts the move and leaves both cards
   * face-up; the continuation then turns them down and changes nothing else.
   */
  lemma FlipMismatchThenHide(s: GameState, id: int)
    requires Inv(s) && Accepted(s, id) && |s.flipped| == 1
    requires s.cards[s.flipped[0]].value != s.cards[id].value
    ensures var r := FlipStep(s, id).state;
      && r.flipped == [s.flipped[0], id]
      && r.cards == s.cards
      && r.moves == s.moves + 1
      && r.matchedPairs == s.matchedPairs
      && r.pendingHides == s.pendingHides + 1
      && var h := HideStep(r).state;
         h.flipped == [] && h.cards == s.cards
         && h.moves == r.moves && h.matchedPairs == r.matchedPairs
         && h.seconds == r.seconds && h.running == r.running
  {
    IndexOfIndexed(s.cards, id);
  }

  /**
   * While a mismatched pair waits to be hidden, a third different card is not
   * blocked: it is turned face-up too, and no move is counted for it.
   */
  lemma ThirdCardWhilePending(s: GameState, id: int)
    requires Inv(s) && Accepted(s, id) && |s.flipped| == 2
    ensures var r := FlipStep(s, id).state;
      r.flipped == s.flipped + [id] && |r.flipped| == 3
      && r.moves == s.moves && r.matchedPairs == s.matchedPairs && r.cards == s.cards
  {
    IndexOfIndexed(s.cards, id);
  }

  // ---------------------------------------------------------------------
  // Winning and the clock

  /** Matching the last pair stops the clock, counts the win and announces it after the update. */
  lemma LastMatchWins(u: GameState)
    requires |u.flipped| == 2 && 0 <= u.flipped[0] < |u.cards| && 0 <= u.flipped[1] < |u.cards|
    requires WinReached(u.matchedPairs + 1, u.totalCards)
    ensures var r := ResolveMatch(u);
      && !r.state.running && r.state.wins == u.wins + 1
      && ("win" in u.handlers ==>
            |r.out| >= 1
            && r.out[|r.out| - 1] == Delivery(u.handlers["win"], "win", StatusShown(StatusOf(r.state))))
  {
    var a, b := u.flipped[0], u.flipped[1];
    var m := u.(cards := u.cards[a := u.cards[a].WithMatched()][b := u.cards[b].WithMatched()],
                flipped := [], matchedPairs := u.matchedPairs + 1);
    var w := StopTimer(m).(wins := m.wins + 1);
    var won := Deliver(u.handlers, "win", StatusShown(StatusOf(w)));
    var updated := Deliver(u.handlers, "update", StatusShown(StatusOf(m)));
    assert WinStep(m) == Step(w, won);
    assert ResolveMatch(u) == Step(w, updated + won);
  }

  /** A second card of the same value is turned up, counted and resolved as a match. */
  lemma TurnResolves(st: GameState, id: int)
    requires Inv(st) && Accepted(st, id) && |st.flipped| == 1
    requires st.cards[st.flipped[0]].value == st.cards[id].value
    ensures var u := st.(flipped := st.flipped + [id], moves := st.moves + 1);
      && |u.flipped| == 2 && 0 <= u.flipped[0] < |u.cards| && 0 <= u.flipped[1] < |u.cards|
      && TurnStep(st, id) == Step(ResolveMatch(u).state,
           Deliver(st.handlers, "render", FlipShown(st.cards, u.flipped)) + ResolveMatch(u).out)
  {
    var t := st.(flipped := st.flipped + [id]);
    assert PairStep(t) == ResolveMatch(t.(moves := st.moves + 1));
  }

  lemma LastOfJoined(a: seq<Delivery>, b: seq<Delivery>)
    requires |b| >= 1
    ensures |a + b| >= 1 && (a + b)[|a + b| - 1] == b[|b| - 1]
  {
  }

  /** A game with a card still to accept has not been won. */
  lemma NotYetWon(s: GameState, id: int)
    requires Inv(s) && Accepted(s, id)
    ensures s.wins == 0
  {
    if 0 < s.matchedPairs && WinReached(s.matchedPairs, s.totalCards) {
      WonAllMatched(s);
    }
  }

  /** The flip that matches the last pair stops the clock and reports the win once. */
  lemma FlipWins(s: GameState, id: int)
    requires Inv(s) && Accepted(s, id) && |s.flipped| == 1
    requires s.cards[s.flipped[0]].value == s.cards[id].value
    requires WinReached(s.matchedPairs + 1, s.totalCards)
    ensures var r := FlipStep(s, id);
      && !r.state.running && r.state.wins == 1 && s.wins == 0
      && ("win" in s.handlers ==>
            |r.out| >= 1
            && r.out[|r.out| - 1] == Delivery(s.handlers["win"], "win", StatusShown(StatusOf(r.state))))
  {
    NotYetWon(s, id);
    var st := StartTimer(s);
    var u := st.(flipped := st.flipped + [id], moves := st.moves + 1);
    var shown := Deliver(st.handlers, "render", FlipShown(st.cards, u.flipped));
    FlipAccepted(s, id);
    TurnResolves(st, id);
    LastMatchWins(u);
    if "win" in s.handlers {
      LastOfJoined(shown, ResolveMatch(u).out);
    }
  }

  /**
   * Once a game is won every card is matched, so every later flip is
   * ignored: no counter moves and no second win is reported. The clock,
   * however, is started again by such a flip.
   */
  lemma WonIsFinal(s: GameState, id: int)
    requires Inv(s) && 0 < s.matchedPairs && WinReached(s.matchedPairs, s.totalCards)
    ensures s.wins == 1
    ensures FlipStep(s, id) == Step(s.(running := true), [])
    ensures TickStep(FlipStep(s, id).state).state.seconds == s.seconds + 1
  {
    WonAllMatched(s);
    FlipIgnored(s, id);
  }

  /** The clock advances by one only while it runs, and nothing else changes. */
  lemma TickOnlyWhileRunning(s: GameState)
    ensures var r := TickStep(s).state;
      r.seconds == (if s.running then s.seconds + 1 else s.seconds)
      && r == s.(seconds := r.seconds)
  {
  }

  // ---------------------------------------------------------------------
  // The deck's shape

  /**
   * At most one matched pair per two cards; an even non-negative card count
   * is the deck size; an odd positive count (reachable only through
   * `restart`, which skips the parity check) deals one card more than it
   * names and can never be won.
   */
  lemma DeckSize(s: GameState)
    requires Inv(s)
    ensures 2 * s.matchedPairs <= |s.cards|
    ensures s.totalCards >= 0 && s.totalCards % 2 == 0 ==> |s.cards| == s.totalCards
    ensures s.totalCards > 0 && s.totalCards % 2 == 1 ==> |s.cards| == s.totalCards + 1
    ensures s.totalCards % 2 == 1 ==> s.wins == 0 && forall m: nat :: !WinReached(m, s.totalCards)
  {
    MatchedCountBound(s.cards);
  }

  /**
   * After `_createDeck` with an even, non-negative card count: one card per
   * position, numbered by position, none matched, every counter zero,
   * nothing face-up and the clock stopped.
   */
  lemma FreshDeal(s: GameState, cards: seq<CardView>)
    requires Dealt(cards, s.totalCards) && s.totalCards >= 0 && s.totalCards % 2 == 0
    ensures var t := DealStep(s, cards).state;
      && |t.cards| == s.totalCards
      && (forall k :: 0 <= k < |t.cards| ==> t.cards[k].id == k && !t.cards[k].matched)
      && t.moves == 0 && t.matchedPairs == 0 && t.seconds == 0
      && t.flipped == [] && !t.running && t.wins == 0
  {
    DealEstablishesInv(s, cards);
    DeckSize(DealStep(s, cards).state);
  }

  /**
   * Every value lies on an even number of cards; on exactly two when the
   * game has at most 18 pairs; and the repeated palette colour lies on four
   * or more when it has 19 or more.
   */
  lemma DeckPairs(s: GameState, c: Color)
    requires Inv(s)
    ensures multiset(Values(s.cards))[c] % 2 == 0
    ensures PairCount(s.totalCards) <= 18 && c in Values(s.cards) ==> multiset(Values(s.cards))[c] == 2
    ensures PairCount(s.totalCards) >= 19 ==> multiset(Values(s.cards))[0xFF5733] >= 4
  {
    var n := PairCount(s.totalCards);
    DoubledEven(PairValues(n), c);
    if n <= 18 && c in Values(s.cards) {
      assert c in multiset(Doubled(PairValues(n)));
      TwiceUpTo18(n, c);
    }
    if n >= 19 {
      FourRedFrom19(n);
    }
  }
}
