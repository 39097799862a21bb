/** The game controller of the memory match game: the App component's state
    (deck, flipped, moves, matchedCount, isBusy, theme) and its handlers.
    The deferred callback that handleCardClick schedules after a second card
    is shown is kept as a pending Timer holding what the callback captured
    (the deck it built and the two indices); Resolve runs the oldest one. */
module Game {
  import opened Deck

  datatype Theme = Light | Dark

  /** The updater passed to setTheme: light becomes dark and dark becomes light. */
  function Toggled(t: Theme): (r: Theme)
    ensures r != t
  {
    if t == Light then Dark else Light
  }

  lemma ToggleTwice(t: Theme)
    ensures Toggled(Toggled(t)) == t
  {
  }

  /** isGameWon: every symbol has been matched once. */
  function IsGameWon(matchedCount: nat): bool {
    matchedCount == |CardEmojis|
  }

  /** A scheduled resolution: the deck built by the second click and the
      first and second indices of the turn. */
  datatype Timer = Timer(deck: seq<Card>, first: nat, second: nat)

  /** Card i is shown this turn and not yet matched. */
  predicate Revealed(d: seq<Card>, i: nat)
    requires i < |d|
  {
    d[i].isFlipped && !d[i].isMatched
  }

  /** Matched cards come in pairs: two cards that show one symbol are matched together or not at all. */
  ghost predicate PairsAgree(d: seq<Card>) {
    forall i, j :: 0 <= i < |d| && 0 <= j < |d| && i != j && d[i].emoji == d[j].emoji ==>
      d[i].isMatched == d[j].isMatched
  }

  /** A deck the game can be in: as dealt, matched cards face-up and in pairs. */
  ghost predicate Playable(d: seq<Card>) {
    && Dealt(d)
    && (forall i :: 0 <= i < |d| && d[i].isMatched ==> d[i].isFlipped)
    && PairsAgree(d)
  }

  /** A pending resolution as the second click leaves it: two different cards, both revealed. */
  ghost predicate Armed(t: Timer) {
    && Playable(t.deck)
    && t.first < |t.deck| && t.second < |t.deck| && t.first != t.second
    && Revealed(t.deck, t.first) && Revealed(t.deck, t.second)
  }

  predicate IsMatch(t: Timer)
    requires t.first < |t.deck| && t.second < |t.deck|
  {
    t.deck[t.first].emoji == t.deck[t.second].emoji
  }

  /** The number of matched cards in a deck. */
  function CountMatched(d: seq<Card>): (n: nat)
    ensures n <= |d|
  {
    if d == [] then 0 else CountMatched(d[..|d| - 1]) + (if d[|d| - 1].isMatched then 1 else 0)
  }

  /** The deck the scheduled callback writes back: on equal symbols both
      cards become matched (and stay face-up), otherwise both turn face-down. */
  function Settle(t: Timer): (d: seq<Card>)
    requires t.first < |t.deck| && t.second < |t.deck| && t.first != t.second
    ensures |d| == |t.deck|
    ensures forall k :: 0 <= k < |d| && k != t.first && k != t.second ==> d[k] == t.deck[k]
    ensures IsMatch(t) ==>
      d[t.first] == t.deck[t.first].(isMatched := true) && d[t.second] == t.deck[t.second].(isMatched := true)
    ensures !IsMatch(t) ==>
      d[t.first] == t.deck[t.first].(isFlipped := false) && d[t.second] == t.deck[t.second].(isFlipped := false)
  {
    var d := t.deck;
    if IsMatch(t) then
      d[t.first := d[t.first].(isMatched := true)][t.second := d[t.second].(isMatched := true)]
    else
      d[t.first := d[t.first].(isFlipped := false)][t.second := d[t.second].(isFlipped := false)]
  }

  /** Replacing one card changes the count by that card's matched flag alone. */
  lemma {:induction false} CountMatchedUpdate(d: seq<Card>, i: nat, c: Card)
    requires i < |d|
    ensures CountMatched(d[i := c]) ==
      CountMatched(d) - (if d[i].isMatched then 1 else 0) + (if c.isMatched then 1 else 0)
    decreases |d|
  {
    var n := |d| - 1;
    var e := d[i := c];
    assert e[..n] == if i == n then d[..n] else d[..n][i := c];
    if i < n {
      CountMatchedUpdate(d[..n], i, c);
    }
  }

  /** The count reaches the deck's length exactly when every card is matched. */
  lemma {:induction false} CountMatchedFull(d: seq<Card>)
    ensures CountMatched(d) == |d| <==> forall i :: 0 <= i < |d| ==> d[i].isMatched
    decreases |d|
  {
    if d != [] {
      var n := |d| - 1;
      CountMatchedFull(d[..n]);
      assert forall i :: 0 <= i < n ==> d[..n][i] == d[i];
    }
  }

  /** No matched card means a count of zero. */
  lemma {:induction false} CountMatchedNone(d: seq<Card>)
    requires forall i :: 0 <= i < |d| ==> !d[i].isMatched
    ensures CountMatched(d) == 0
    decreases |d|
  {
    if d != [] {
      var n := |d| - 1;
      assert forall i :: 0 <= i < n ==> d[..n][i] == d[i];
      CountMatchedNone(d[..n]);
    }
  }

  /** While the counter tracks the matched pairs, the game is won exactly
      when every card of the deck is matched. */
  lemma WonIffAllMatched(d: seq<Card>, matchedCount: nat)
    requires |d| == DeckSize && 2 * matchedCount == CountMatched(d)
    ensures IsGameWon(matchedCount) <==> forall i :: 0 <= i < |d| ==> d[i].isMatched
  {
    CountMatchedFull(d);
  }

  /** Resolving an armed timer leaves a playable deck: the two cards either
      become a matched pair or go face-down again. */
  lemma SettlePlayable(t: Timer)
    requires Armed(t)
    ensures Playable(Settle(t))
  {
    var d, s := t.deck, Settle(t);
    assert Emojis(s) == Emojis(d);
    assert Ids(s) == Ids(d);
    forall i, j | 0 <= i < |s| && 0 <= j < |s| && i != j && s[i].emoji == s[j].emoji
      ensures s[i].isMatched == s[j].isMatched
    {
      if IsMatch(t) {
        if i == t.first || i == t.second || j == t.first || j == t.second {
          var (p, q, k) :=
            if i == t.first then (t.first, t.second, j) else if i == t.second then (t.second, t.first, j)
            else if j == t.first then (t.first, t.second, i) else (t.second, t.first, i);
          if k != q {
            OnlyTwoOfAKind(d, p, q, k);
          }
        }
      }
    }
  }

  /** A match adds two matched cards; a miss adds none. */
  lemma SettleCount(t: Timer)
    requires Armed(t)
    ensures CountMatched(Settle(t)) == CountMatched(t.deck) + (if IsMatch(t) then 2 else 0)
  {
    var d := t.deck;
    if IsMatch(t) {
      var c1 := d[t.first].(isMatched := true);
      CountMatchedUpdate(d, t.first, c1);
      CountMatchedUpdate(d[t.first := c1], t.second, d[t.second].(isMatched := true));
    } else {
      var c1 := d[t.first].(isFlipped := false);
      CountMatchedUpdate(d, t.first, c1);
      CountMatchedUpdate(d[t.first := c1], t.second, d[t.second].(isFlipped := false));
    }
  }

  /** The invariant of every reachable state, stale timers included: the deck
      is playable, the selection holds at most the first card of a turn and
      that card is revealed, every pending timer is armed, and the lock is
      only on while some timer is pending. */
  ghost predicate ValidState(deck: seq<Card>, flipped: seq<nat>, isBusy: bool, timers: seq<Timer>) {
    && Playable(deck)
    && |flipped| <= 1
    && (forall k :: 0 <= k < |flipped| ==> flipped[k] < |deck| && Revealed(deck, flipped[k]))
    && (forall k :: 0 <= k < |timers| ==> Armed(timers[k]))
    && (isBusy ==> timers != [])
  }

  /** The invariant while no timer outlives the game it was scheduled in: at
      most one pending resolution, exactly while busy, on the current deck and
      with the selection's card first; the counter tracks the matched pairs and
      stays below the moves; and a card shown but unmatched is one of the
      cards of the current turn. */
  ghost predicate ConsistentState(deck: seq<Card>, flipped: seq<nat>, moves: nat, matchedCount: nat,
                                  isBusy: bool, timers: seq<Timer>) {
    && |timers| == (if isBusy then 1 else 0)
    && (isBusy ==> timers[0].deck == deck && flipped == [timers[0].first])
    && 2 * matchedCount == CountMatched(deck)
    && matchedCount + (if isBusy then 1 else 0) <= moves
    && (forall i :: 0 <= i < |deck| && Revealed(deck, i) ==>
          i in flipped || (isBusy && i == timers[0].second))
  }

  /** Showing a card that is not matched keeps the deck playable and the count. */
  lemma RevealPlayable(d: seq<Card>, idx: nat)
    requires Playable(d) && idx < |d| && !d[idx].isMatched
    ensures Playable(d[idx := d[idx].(isFlipped := true)])
    ensures CountMatched(d[idx := d[idx].(isFlipped := true)]) == CountMatched(d)
  {
    var e := d[idx := d[idx].(isFlipped := true)];
    assert Emojis(e) == Emojis(d);
    assert Ids(e) == Ids(d);
    CountMatchedUpdate(d, idx, e[idx]);
  }

  /** The first card of a turn keeps every reachable-state invariant. */
  lemma FirstClickValid(deck: seq<Card>, timers: seq<Timer>, idx: nat)
    requires ValidState(deck, [], false, timers)
    requires idx < |deck| && !deck[idx].isMatched && !deck[idx].isFlipped
    ensures ValidState(deck[idx := deck[idx].(isFlipped := true)], [idx], false, timers)
  {
    RevealPlayable(deck, idx);
  }

  /** The second card of a turn arms a timer on the new deck with the two
      different revealed cards, and keeps every reachable-state invariant. */
  lemma SecondClickValid(deck: seq<Card>, first: nat, timers: seq<Timer>, idx: nat)
    requires ValidState(deck, [first], false, timers)
    requires idx < |deck| && !deck[idx].isMatched && !deck[idx].isFlipped
    ensures var d := deck[idx := deck[idx].(isFlipped := true)];
      ValidState(d, [first], true, timers + [Timer(d, first, idx)])
  {
    RevealPlayable(deck, idx);
    var d := deck[idx := deck[idx].(isFlipped := true)];
    assert [first][0] == first;
    assert Armed(Timer(d, first, idx));
  }

  /** The first card of a turn: shown and selected, nothing scheduled. */
  lemma FirstClickConsistent(deck: seq<Card>, moves: nat, matchedCount: nat, idx: nat)
    requires ValidState(deck, [], false, []) && ConsistentState(deck, [], moves, matchedCount, false, [])
    requires idx < |deck| && !deck[idx].isMatched && !deck[idx].isFlipped
    ensures ConsistentState(deck[idx := deck[idx].(isFlipped := true)], [idx], moves, matchedCount, false, [])
  {
    RevealPlayable(deck, idx);
  }

  /** The second card of a turn: shown, the move counted, the lock on and
      the one resolution scheduled on the new deck. */
  lemma SecondClickConsistent(deck: seq<Card>, first: nat, moves: nat, matchedCount: nat, idx: nat)
    requires ValidState(deck, [first], false, []) && ConsistentState(deck, [first], moves, matchedCount, false, [])
    requires idx < |deck| && !deck[idx].isMatched && !deck[idx].isFlipped
    ensures var d := deck[idx := deck[idx].(isFlipped := true)];
      ConsistentState(d, [first], moves + 1, matchedCount, true, [Timer(d, first, idx)])
  {
    RevealPlayable(deck, idx);
  }

  /** The scheduled callback of the current turn: afterwards nothing is
      selected, nothing pending, no card revealed without a match, and the
      counter still tracks the matched pairs. */
  lemma ResolveConsistent(deck: seq<Card>, flipped: seq<nat>, moves: nat, matchedCount: nat, t: Timer)
    requires ValidState(deck, flipped, true, [t]) && ConsistentState(deck, flipped, moves, matchedCount, true, [t])
    ensures var m := matchedCount + (if IsMatch(t) then 1 else 0);
      ValidState(Settle(t), [], false, []) && ConsistentState(Settle(t), [], moves, m, false, [])
  {
    assert [t][0] == t;
    SettlePlayable(t);
    SettleCount(t);
    var s := Settle(t);
    forall i | 0 <= i < |s| ensures !Revealed(s, i) {
      if i != t.first && i != t.second {
        assert s[i] == deck[i] && flipped == [t.first];
        assert i !in flipped;
        assert !Revealed(deck, i);
      } else if IsMatch(t) {
        assert s[i].isMatched;
      } else {
        assert !s[i].isFlipped;
      }
    }
  }

  /** The App component's state. timers holds the callbacks scheduled by
      handleCardClick that have not fired yet, oldest first. */
  class App {
    var deck: seq<Card>
    var flipped: seq<nat>
    var moves: nat
    var matchedCount: nat
    var isBusy: bool
    var theme: Theme
    var timers: seq<Timer>

    /** What every reachable state satisfies, stale timers included. */
    ghost predicate Valid()
      reads this
    {
      ValidState(deck, flipped, isBusy, timers)
    }

    /** What holds as long as no timer outlives the game it was scheduled in. */
    ghost predicate Consistent()
      reads this
    {
      ConsistentState(deck, flipped, moves, matchedCount, isBusy, timers)
    }

    /** The initial state of the component: the values given to useState. */
    constructor (draws: seq<nat>)
      requires ValidDraws(draws)
      ensures Valid() && Consistent()
      ensures deck == Shuffled(draws) && FaceDown(deck)
      ensures flipped == [] && moves == 0 && matchedCount == 0 && !isBusy
      ensures theme == Light && timers == []
    {
      var d := GenerateShuffledDeck(draws);
      CountMatchedNone(d);
      deck := d;
      flipped := [];
      moves := 0;
      matchedCount := 0;
      isBusy := false;
      theme := Light;
      timers := [];
    }

    /** toggleTheme: only the theme changes, so both invariants are kept. */
    method ToggleTheme()
      modifies `theme
      ensures theme == Toggled(old(theme))
      ensures old(Valid()) ==> Valid()
      ensures old(Consistent()) ==> Consistent()
    {
      theme := Toggled(theme);
    }

    /** resetGame as written: a fresh deck and cleared counters; a callback
        already scheduled is not cancelled and stays pending. */
    method Reset(draws: seq<nat>)
      requires Valid() && ValidDraws(draws)
      modifies `deck, `flipped, `moves, `matchedCount, `isBusy
      ensures Valid()
      ensures deck == Shuffled(draws) && FaceDown(deck)
      ensures flipped == [] && moves == 0 && matchedCount == 0 && !isBusy
      ensures old(timers) == [] ==> Consistent()
    {
      var d := GenerateShuffledDeck(draws);
      CountMatchedNone(d);
      deck := d;
      flipped := [];
      moves := 0;
      matchedCount := 0;
      isBusy := false;
    }

    /** resetGame with the pending callback cancelled as well: the stale
        resolution can no longer touch the new game. */
    method ResetCancellingTimer(draws: seq<nat>)
      requires Valid() && ValidDraws(draws)
      modifies `deck, `flipped, `moves, `matchedCount, `isBusy, `timers
      ensures Valid() && Consistent()
      ensures deck == Shuffled(draws) && FaceDown(deck)
      ensures flipped == [] && moves == 0 && matchedCount == 0 && !isBusy && timers == []
    {
      Reset(draws);
      timers := [];
      CountMatchedNone(deck);
    }

    /** handleCardClick(idx): ignored while busy or on a card already matched
        or shown; otherwise the card is shown, and on the second card of the
        turn the move is counted, input is locked and the resolution is scheduled. */
    method Click(idx: nat)
      requires Valid() && idx < |deck|
      modifies `deck, `flipped, `moves, `isBusy, `timers
      ensures Valid()
      ensures old(Consistent()) ==> Consistent()
      ensures forall i :: 0 <= i < |old(deck)| && old(deck)[i].isMatched ==> deck[i] == old(deck)[i]
      ensures old(isBusy || deck[idx].isMatched || deck[idx].isFlipped) ==>
        deck == old(deck) && flipped == old(flipped) && moves == old(moves)
        && isBusy == old(isBusy) && timers == old(timers)
      ensures !old(isBusy || deck[idx].isMatched || deck[idx].isFlipped) ==>
        deck == old(deck)[idx := old(deck)[idx].(isFlipped := true)]
      ensures !old(isBusy || deck[idx].isMatched || deck[idx].isFlipped) && old(flipped) == [] ==>
        flipped == [idx] && moves == old(moves) && !isBusy && timers == old(timers)
      ensures !old(isBusy || deck[idx].isMatched || deck[idx].isFlipped) && old(flipped) != [] ==>
        flipped == old(flipped) && moves == old(moves) + 1 && isBusy
        && timers == old(timers) + [Timer(deck, old(flipped)[0], idx)]
    {
      if isBusy || deck[idx].isMatched || deck[idx].isFlipped {
        return;
      }
      var newDeck := deck[idx := deck[idx].(isFlipped := true)];
      var newFlipped := flipped + [idx];
      if flipped == [] {
        FirstClickValid(deck, timers, idx);
        if Consistent() {
          FirstClickConsistent(deck, moves, matchedCount, idx);
        }
      } else {
        SecondClickValid(deck, flipped[0], timers, idx);
        if Consistent() {
          SecondClickConsistent(deck, flipped[0], moves, matchedCount, idx);
        }
      }
      deck := newDeck;
      if |newFlipped| == 2 {
        isBusy := true;
        moves := moves + 1;
        timers := timers + [Timer(newDeck, newFlipped[0], newFlipped[1])];
      } else {
        flipped := newFlipped;
      }
    }

    /** The body of the oldest callback scheduled by setTimeout: the deck it
        captured is settled and written back, a match is counted, and the
        selection and the lock are cleared. */
    method Resolve()
      requires Valid() && timers != []
      modifies `deck, `flipped, `matchedCount, `isBusy, `timers
      ensures Valid()
      ensures old(Consistent()) ==> Consistent()
      ensures old(Consistent()) ==>
        forall i :: 0 <= i < |old(deck)| && old(deck)[i].isMatched ==> deck[i] == old(deck)[i]
      ensures deck == Settle(old(timers[0])) && timers == old(timers[1..])
      ensures matchedCount == old(matchedCount) + (if IsMatch(old(timers[0])) then 1 else 0)
      ensures flipped == [] && !isBusy
    {
      var t := timers[0];
      SettlePlayable(t);
      if Consistent() {
        ResolveConsistent(deck, flipped, moves, matchedCount, t);
      }
      timers := timers[1..];
      var newDeck := t.deck;
      var i1, i2 := t.first, t.second;
      if newDeck[i1].emoji == newDeck[i2].emoji {
        newDeck := newDeck[i1 := newDeck[i1].(isMatched := true)];
        newDeck := newDeck[i2 := newDeck[i2].(isMatched := true)];
        deck := newDeck;
        matchedCount := matchedCount + 1;
      } else {
        newDeck := newDeck[i1 := newDeck[i1].(isFlipped := false)];
        newDeck := newDeck[i2 := newDeck[i2].(isFlipped := false)];
        deck := newDeck;
      }
      flipped := [];
      isBusy := false;
    }
  }

  /** The draws that leave every card in place (j == i at every step). */
  function NoSwaps(): (draws: seq<nat>)
    ensures ValidDraws(draws) && Shuffled(draws) == InitialDeck()
  {
    var draws := seq(DeckSize - 1, k => k + 1);
    ShuffleDownIdentity(InitialDeck(), draws, DeckSize - 1);
    draws
  }

  /** A reset during the resolution delay: the first two cards (both the
      first symbol) are picked, the game is reset before the callback fires,
      and the callback then counts a match in the new game, which has no move. */
  method StaleTimerScenario() returns (moves: nat, matchedCount: nat)
    ensures moves == 0 && matchedCount == 1
  {
    var g := new App(NoSwaps());
    assert g.deck[0].emoji == g.deck[DeckSize / 2].emoji;
    g.Click(0);
    g.Click(DeckSize / 2);
    g.Reset(NoSwaps());
    g.Resolve();
    moves, matchedCount := g.moves, g.matchedCount;
  }
}
