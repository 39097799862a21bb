/** The deck generator of the memory match game: the eight card symbols,
    the doubled and numbered card array, and the Fisher-Yates shuffle that
    only ever swaps two positions. The random choices of the shuffle are an
    input: draws[k] is the index j picked when the loop is at i == k + 1. */
module Deck {

  /** One card of the deck. The id is the card's index in the doubled array
      (the random hex suffix of the original id is not modelled). */
  datatype Card = Card(id: nat, emoji: string, isFlipped: bool, isMatched: bool)

  /** The card symbols, one code point each. */
  const CardEmojis: seq<string> :=
    ["\U{1F34E}", "\U{1F697}", "\U{1F436}", "\U{26BD}", "\U{1F3B5}", "\U{1F31F}", "\U{1F355}", "\U{1F451}"]

  const DeckSize: nat := 2 * |CardEmojis|

  /** The symbol array written twice over. */
  const Doubled: seq<string> := CardEmojis + CardEmojis

  /** The doubled array mapped to face-down, unmatched cards numbered by position. */
  function InitialDeck(): seq<Card> {
    seq(DeckSize, i requires 0 <= i < DeckSize => Card(i, Doubled[i], false, false))
  }

  function Face(c: Card): string { c.emoji }

  function CardId(c: Card): nat { c.id }

  /** The sequence of f's values along s. */
  function Project<T, U>(s: seq<T>, f: T -> U): (r: seq<U>)
    ensures |r| == |s| && forall k :: 0 <= k < |s| ==> r[k] == f(s[k])
  {
    seq(|s|, k requires 0 <= k < |s| => f(s[k]))
  }

  function Emojis(d: seq<Card>): seq<string> { Project(d, Face) }

  function Ids(d: seq<Card>): seq<nat> { Project(d, CardId) }

  ghost predicate Distinct<T>(s: seq<T>) {
    forall i, j :: 0 <= i < |s| && 0 <= j < |s| && i != j ==> s[i] != s[j]
  }

  /** A deck as dealt: sixteen cards, each symbol exactly twice, ids pairwise distinct. */
  ghost predicate Dealt(d: seq<Card>) {
    && |d| == DeckSize
    && (forall e :: multiset(Emojis(d))[e] == if e in CardEmojis then 2 else 0)
    && Distinct(Ids(d))
  }

  ghost predicate FaceDown(d: seq<Card>) {
    forall i :: 0 <= i < |d| ==> !d[i].isFlipped && !d[i].isMatched
  }

  /** The random choices of one shuffle: one per loop step, j <= i. */
  predicate ValidDraws(draws: seq<nat>) {
    |draws| == DeckSize - 1 && forall k :: 0 <= k < |draws| ==> draws[k] <= k + 1
  }

  /** The draws of the first i loop steps exist and are in range. */
  predicate DrawsUpTo(draws: seq<nat>, i: nat) {
    i <= |draws| && forall k :: 0 <= k < i ==> draws[k] <= k + 1
  }

  function Swap<T>(s: seq<T>, i: nat, j: nat): seq<T>
    requires i < |s| && j < |s|
  {
    s[i := s[j]][j := s[i]]
  }

  /** The array after the shuffle loop has run its steps for i, i - 1, ..., 1. */
  function ShuffleDown<T>(s: seq<T>, draws: seq<nat>, i: nat): seq<T>
    requires i < |s| && DrawsUpTo(draws, i)
    decreases i
  {
    if i == 0 then s else ShuffleDown(Swap(s, i, draws[i - 1]), draws, i - 1)
  }

  /** The deck the generator returns for the given draws. */
  function Shuffled(draws: seq<nat>): seq<Card>
    requires ValidDraws(draws)
  {
    ShuffleDown(InitialDeck(), draws, DeckSize - 1)
  }

  /** Every step swaps two positions, so the loop permutes the array. */
  lemma {:induction false} ShuffleDownPermutes<T>(s: seq<T>, draws: seq<nat>, i: nat)
    requires i < |s| && DrawsUpTo(draws, i)
    ensures |ShuffleDown(s, draws, i)| == |s|
    ensures multiset(ShuffleDown(s, draws, i)) == multiset(s)
    decreases i
  {
    if i > 0 {
      var j := draws[i - 1];
      var t := Swap(s, i, j);
      assert multiset(s[i := s[j]]) == multiset(s) - multiset{s[i]} + multiset{s[j]};
      assert multiset(t) == multiset(s);
      ShuffleDownPermutes(t, draws, i - 1);
    }
  }

  /** Shuffling a deck and then reading one attribute of each card gives the
      same sequence as shuffling the attributes with the same draws. */
  lemma {:induction false} ShuffleDownProject<T, U>(s: seq<T>, draws: seq<nat>, i: nat, f: T -> U)
    requires i < |s| && DrawsUpTo(draws, i)
    ensures Project(ShuffleDown(s, draws, i), f) == ShuffleDown(Project(s, f), draws, i)
    decreases i
  {
    if i > 0 {
      var j := draws[i - 1];
      assert Project(Swap(s, i, j), f) == Swap(Project(s, f), i, j);
      ShuffleDownProject(Swap(s, i, j), draws, i - 1, f);
    }
  }

  /** Drawing j == i at every step swaps each position with itself. */
  lemma {:induction false} ShuffleDownIdentity<T>(s: seq<T>, draws: seq<nat>, i: nat)
    requires i < |s| && DrawsUpTo(draws, i)
    requires forall k :: 0 <= k < i ==> draws[k] == k + 1
    ensures ShuffleDown(s, draws, i) == s
    decreases i
  {
    if i > 0 {
      assert Swap(s, i, draws[i - 1]) == s;
      ShuffleDownIdentity(s, draws, i - 1);
    }
  }

  /** Positions holding v account for at least as many copies of v. */
  lemma {:induction false} CountAtLeastPositions<T>(s: seq<T>, v: T, P: set<nat>)
    requires forall p :: p in P ==> p < |s| && s[p] == v
    ensures multiset(s)[v] >= |P|
    decreases |s|
  {
    if s == [] {
      assert P == {};
    } else {
      var n := |s| - 1;
      assert s == s[..n] + [s[n]];
      var Q := P - {n};
      CountAtLeastPositions(s[..n], v, Q);
      if n in P {
        assert P == Q + {n};
      } else {
        assert P == Q;
      }
    }
  }

  lemma NoThirdCopy<T>(s: seq<T>, i: nat, j: nat, k: nat)
    requires i < |s| && j < |s| && k < |s| && i != j && j != k && i != k
    requires s[i] == s[j] && s[j] == s[k]
    ensures multiset(s)[s[i]] >= 3
  {
    assert |{i, j} + {k}| == 3;
    CountAtLeastPositions(s, s[i], {i, j} + {k});
  }

  lemma DistinctByCount<T>(s: seq<T>)
    requires forall v :: multiset(s)[v] <= 1
    ensures Distinct(s)
  {
    forall i, j | 0 <= i < |s| && 0 <= j < |s| && i != j
      ensures s[i] != s[j]
    {
      if s[i] == s[j] {
        CountAtLeastPositions(s, s[i], {i, j});
      }
    }
  }

  /** In a sequence without repetition every value occurs at most once. */
  lemma {:induction false} CountOfDistinct<T>(s: seq<T>, v: T)
    requires Distinct(s)
    ensures multiset(s)[v] == if v in s then 1 else 0
    decreases |s|
  {
    if s != [] {
      var n := |s| - 1;
      assert s == s[..n] + [s[n]];
      assert Distinct(s[..n]);
      CountOfDistinct(s[..n], v);
      if v == s[n] {
        assert v !in s[..n];
      }
    }
  }

  lemma CardEmojisDistinct()
    ensures Distinct(CardEmojis)
  {
  }

  /** The doubled symbol array holds each symbol exactly twice. */
  lemma DoubledCounts()
    ensures forall e :: multiset(Doubled)[e] == if e in CardEmojis then 2 else 0
  {
    CardEmojisDistinct();
    forall e ensures multiset(Doubled)[e] == if e in CardEmojis then 2 else 0 {
      CountOfDistinct(CardEmojis, e);
    }
  }

  /** Each symbol still shows on exactly two cards of the shuffled deck. */
  lemma ShuffledSymbolCounts(draws: seq<nat>)
    requires ValidDraws(draws)
    ensures forall e :: multiset(Emojis(Shuffled(draws)))[e] == if e in CardEmojis then 2 else 0
  {
    var n := DeckSize - 1;
    assert |Doubled| == DeckSize;
    assert forall k :: 0 <= k < DeckSize ==> Emojis(InitialDeck())[k] == Doubled[k];
    assert Emojis(InitialDeck()) == Doubled;
    ShuffleDownProject(InitialDeck(), draws, n, Face);
    ShuffleDownPermutes(Doubled, draws, n);
    DoubledCounts();
  }

  /** The ids of the shuffled deck are pairwise distinct. */
  lemma ShuffledIdsDistinct(draws: seq<nat>)
    requires ValidDraws(draws)
    ensures Distinct(Ids(Shuffled(draws)))
  {
    var n := DeckSize - 1;
    var ids := Ids(InitialDeck());
    assert Distinct(ids);
    ShuffleDownProject(InitialDeck(), draws, n, CardId);
    ShuffleDownPermutes(ids, draws, n);
    forall v ensures multiset(Ids(Shuffled(draws)))[v] <= 1 {
      CountOfDistinct(ids, v);
    }
    DistinctByCount(Ids(Shuffled(draws)));
  }

  /** The shuffled deck is a permutation of the doubled array of fresh cards:
      sixteen face-down cards, each symbol twice, ids pairwise distinct. */
  lemma ShuffledIsDealt(draws: seq<nat>)
    requires ValidDraws(draws)
    ensures multiset(Shuffled(draws)) == multiset(InitialDeck())
    ensures Dealt(Shuffled(draws)) && FaceDown(Shuffled(draws))
  {
    var d := Shuffled(draws);
    ShuffleDownPermutes(InitialDeck(), draws, DeckSize - 1);
    ShuffledSymbolCounts(draws);
    ShuffledIdsDistinct(draws);
    forall i | 0 <= i < |d| ensures !d[i].isFlipped && !d[i].isMatched {
      assert d[i] in multiset(InitialDeck());
    }
  }

  /** In a dealt deck two cards with one symbol are the only cards showing it. */
  lemma OnlyTwoOfAKind(d: seq<Card>, i: nat, j: nat, k: nat)
    requires Dealt(d) && i < |d| && j < |d| && k < |d|
    requires i != j && k != i && k != j && d[i].emoji == d[j].emoji
    ensures d[k].emoji != d[i].emoji
  {
    if d[k].emoji == d[i].emoji {
      var s := Emojis(d);
      assert s[i] == d[i].emoji && s[j] == d[j].emoji && s[k] == d[k].emoji;
      NoThirdCopy(s, i, j, k);
      assert false;
    }
  }

  /** generateShuffledDeck: fills an array with the doubled symbols and
      shuffles it in place, one swap per step from the last position down. */
  method GenerateShuffledDeck(draws: seq<nat>) returns (deck: seq<Card>)
    requires ValidDraws(draws)
    ensures deck == Shuffled(draws)
    ensures multiset(deck) == multiset(InitialDeck())
    ensures Dealt(deck) && FaceDown(deck)
  {
    var duplicated := CardEmojis + CardEmojis;
    var a := new Card[|duplicated|](i requires 0 <= i < |duplicated| => Card(i, duplicated[i], false, false));
    assert a[..] == InitialDeck();
    var i := a.Length - 1;
    while i > 0
      invariant 0 <= i < a.Length
      invariant ShuffleDown(a[..], draws, i) == Shuffled(draws)
    {
      var j := draws[i - 1];
      ghost var before := a[..];
      a[i], a[j] := a[j], a[i];
      assert a[..] == Swap(before, i, j);
      i := i - 1;
    }
    deck := a[..];
    ShuffledIsDealt(draws);
  }
}
