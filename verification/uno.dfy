/** A two-player Uno without action effects: a 100-card deck of four
    colours, a deal of seven cards each and one card face up, plays that
    match the top card by colour or value, and draws from the end of the
    deck.  A player who empties their hand wins. */
module Uno {
  import opened Common

  datatype CardColor = Red | Blue | Green | Yellow | Wild

  datatype Card = Card(color: CardColor, value: string)

  datatype State = State(
    deck: seq<Card>,
    hand1: seq<Card>,
    hand2: seq<Card>,
    discard: seq<Card>,
    current: Player,
    started: bool,
    winner: Option<Player>)

  /** `COLORS`. */
  function Colors(): seq<CardColor> {
    [Red, Blue, Green, Yellow]
  }

  /** `VALUES`: the digits and the three action names. */
  function Values(): seq<string> {
    ["0", "1", "2", "3", "4", "5", "6", "7", "8", "9", "SKIP", "REV", "+2"]
  }

  /** The cards of one colour: each value once, and once more unless it is
      "0". */
  function ValueRun(col: CardColor, vs: seq<string>): (run: seq<Card>)
    ensures forall k :: 0 <= k < |run| ==> run[k].color == col && run[k].value in vs
    decreases |vs|
  {
    if vs == [] then []
    else
      var once := [Card(col, vs[0])];
      (if vs[0] != "0" then once + once else once) + ValueRun(col, vs[1..])
  }

  /** The colours in order, each with its run of the values `vs`. */
  function ColorRuns(cols: seq<CardColor>, vs: seq<string>): (d: seq<Card>)
    ensures forall k :: 0 <= k < |d| ==> d[k].color in cols && d[k].value in vs
    decreases |cols|
  {
    if cols == [] then [] else ValueRun(cols[0], vs) + ColorRuns(cols[1..], vs)
  }

  /** `createDeck` before its random sort. */
  function OrderedDeck(): seq<Card> {
    ColorRuns(Colors(), Values())
  }

  /** How many copies of a card the deck holds. */
  function Copies(card: Card): nat {
    if card.color !in Colors() || card.value !in Values() then 0
    else if card.value == "0" then 1
    else 2
  }

  predicate Distinct<T(==)>(s: seq<T>) {
    forall i, j :: 0 <= i < j < |s| ==> s[i] != s[j]
  }

  lemma {:induction false} ValueRunCount(col: CardColor, vs: seq<string>, card: Card)
    requires Distinct(vs)
    ensures multiset(ValueRun(col, vs))[card] ==
      if card.color == col && card.value in vs then (if card.value == "0" then 1 else 2) else 0
    decreases |vs|
  {
    if vs != [] {
      ValueRunCount(col, vs[1..], card);
      assert card.value in vs <==> card.value == vs[0] || card.value in vs[1..];
    }
  }

  lemma {:induction false} ColorRunsCount(cols: seq<CardColor>, vs: seq<string>, card: Card)
    requires Distinct(cols) && Distinct(vs)
    ensures multiset(ColorRuns(cols, vs))[card] ==
      if card.color in cols && card.value in vs then (if card.value == "0" then 1 else 2) else 0
    decreases |cols|
  {
    if cols != [] {
      ValueRunCount(cols[0], vs, card);
      ColorRunsCount(cols[1..], vs, card);
      assert card.color in cols <==> card.color == cols[0] || card.color in cols[1..];
    }
  }

  lemma {:induction false} ValueRunLength(col: CardColor, vs: seq<string>)
    requires Distinct(vs)
    ensures |ValueRun(col, vs)| == 2 * |vs| - (if "0" in vs then 1 else 0)
    decreases |vs|
  {
    if vs != [] {
      assert "0" in vs <==> vs[0] == "0" || "0" in vs[1..];
      ValueRunLength(col, vs[1..]);
    }
  }

  lemma {:induction false} ColorRunsLength(cols: seq<CardColor>, vs: seq<string>, n: nat)
    requires Distinct(vs) && n == 2 * |vs| - (if "0" in vs then 1 else 0)
    ensures |ColorRuns(cols, vs)| == |cols| * n
    decreases |cols|
  {
    if cols != [] {
      ValueRunLength(cols[0], vs);
      ColorRunsLength(cols[1..], vs, n);
      assert |cols| * n == (|cols| - 1) * n + n;
    }
  }

  lemma ColorsFacts()
    ensures Distinct(Colors()) && |Colors()| == 4 && Wild !in Colors()
  {
  }

  lemma ValuesFacts()
    ensures Distinct(Values()) && |Values()| == 13 && "0" in Values()
  {
    var vs := Values();
    forall i, j | 0 <= i < j < |vs|
      ensures vs[i] != vs[j]
    {
      assert |vs[i]| != |vs[j]| || vs[i][0] != vs[j][0];
    }
    assert vs[0] == "0";
  }

  /** The deck holds one "0" and two of each other value in each of the
      four colours, and nothing else. */
  lemma DeckCounts(card: Card)
    ensures multiset(OrderedDeck())[card] == Copies(card)
  {
    ValuesFacts();
    ColorsFacts();
    ColorRunsCount(Colors(), Values(), card);
  }

  /** 4 × (1 + 2 × 12) = 100 cards. */
  lemma DeckSize()
    ensures |OrderedDeck()| == 100
  {
    ValuesFacts();
    ColorRunsLength(Colors(), Values(), 25);
  }

  /** No wild card is ever created. */
  lemma NoWildCard(card: Card)
    requires card.color == Wild
    ensures card !in OrderedDeck()
  {
    assert Wild !in Colors();
    OutsideColors(Colors(), Values(), card);
  }

  /** A card of a colour outside `cols` is in none of the runs. */
  lemma OutsideColors(cols: seq<CardColor>, vs: seq<string>, card: Card)
    requires card.color !in cols
    ensures card !in ColorRuns(cols, vs)
  {
  }

  /** Any shuffle of the deck has its 100 cards. */
  lemma ShuffledSize(shuffled: seq<Card>)
    requires multiset(shuffled) == multiset(OrderedDeck())
    ensures |shuffled| == 100
  {
    DeckSize();
    assert |multiset(shuffled)| == |shuffled|;
  }

  /** All the cards in play. */
  function AllCards(s: State): multiset<Card> {
    multiset(s.deck) + multiset(s.hand1) + multiset(s.hand2) + multiset(s.discard)
  }

  function Hand(s: State, p: Player): seq<Card> {
    if p == One then s.hand1 else s.hand2
  }

  /** The game before the first deal: a shuffled deck, nothing dealt. */
  function Initial(shuffled: seq<Card>): (s: State)
    requires multiset(shuffled) == multiset(OrderedDeck())
    ensures AllCards(s) == multiset(OrderedDeck())
    ensures !s.started && s.winner.None? && s.current == One
  {
    State(shuffled, [], [], [], One, false, None)
  }

  /** The deal: the first seven cards to player One, the next seven to
      player Two, the next one face up, the rest stay in the deck. */
  function Deal(d: seq<Card>): (s: State)
    requires |d| >= 15
    ensures |s.hand1| == 7 && |s.hand2| == 7 && |s.discard| == 1 && |s.deck| == |d| - 15
    ensures AllCards(s) == multiset(d)
    ensures s.current == One && s.started && s.winner.None?
  {
    assert d == d[..7] + d[7..14] + d[14..15] + d[15..];
    State(d[15..], d[..7], d[7..14], d[14..15], One, true, None)
  }

  /** `startNewGame`: deal from a freshly shuffled deck; player One
      starts.  Eighty-five cards stay in the deck. */
  function StartNewGame(shuffled: seq<Card>): (s: State)
    requires multiset(shuffled) == multiset(OrderedDeck())
    ensures |s.hand1| == 7 && |s.hand2| == 7 && |s.discard| == 1 && |s.deck| == 85
    ensures AllCards(s) == multiset(OrderedDeck())
    ensures s.current == One && s.started && s.winner.None?
  {
    ShuffledSize(shuffled);
    Deal(shuffled)
  }

  /** `card` may go on `top`: same colour or same value. */
  predicate Matches(card: Card, top: Card) {
    card.color == top.color || card.value == top.value
  }

  /** The hand without its `i`-th card. */
  function RemoveAt(h: seq<Card>, i: int): (h': seq<Card>)
    requires 0 <= i < |h|
    ensures |h'| == |h| - 1
    ensures multiset(h') + multiset{h[i]} == multiset(h)
    ensures forall k :: 0 <= k < i ==> h'[k] == h[k]
    ensures forall k :: i <= k < |h'| ==> h'[k] == h[k + 1]
  {
    assert h == h[..i] + [h[i]] + h[i + 1..];
    h[..i] + h[i + 1..]
  }

  /** A card faces up while a game is on. */
  predicate Valid(s: State) {
    s.started ==> |s.discard| > 0
  }

  /** `playCard`: only the player to move may play, and only a card that
      matches the top card; it leaves the hand for the discard pile.
      Emptying the hand wins and stops the game, otherwise the turn
      passes. */
  function PlayCard(s: State, player: Player, i: int): (r: State)
    requires Valid(s) && s.started
    requires player == s.current ==> 0 <= i < |Hand(s, player)|
    ensures Valid(r)
    ensures player != s.current ==> r == s
    ensures player == s.current && !Matches(Hand(s, player)[i], s.discard[|s.discard| - 1]) ==> r == s
    ensures player == s.current && Matches(Hand(s, player)[i], s.discard[|s.discard| - 1]) ==>
      var h := Hand(s, player);
      && Hand(r, player) == RemoveAt(h, i)
      && Hand(r, player.Other()) == Hand(s, player.Other())
      && r.discard == s.discard + [h[i]]
      && r.deck == s.deck
      && (|h| == 1 ==> r.winner == Some(player) && !r.started && r.current == s.current)
      && (|h| > 1 ==> r.current == player.Other() && r.winner == s.winner && r.started == s.started)
  {
    if player != s.current then s
    else
      var h := Hand(s, player);
      var card := h[i];
      var top := s.discard[|s.discard| - 1];
      if !Matches(card, top) then s
      else
        var h' := RemoveAt(h, i);
        var s1 := if player == One then s.(hand1 := h') else s.(hand2 := h');
        var s2 := s1.(discard := s.discard + [card]);
        if |h'| == 0 then s2.(winner := Some(player), started := false)
        else s2.(current := s.current.Other())
  }

  /** `drawCard`: with cards left, the last card of the deck goes to the
      player to move and the turn passes; with none, nothing happens. */
  function DrawCard(s: State): (r: State)
    requires Valid(s) && s.started
    ensures Valid(r)
    ensures s.deck == [] ==> r == s
    ensures s.deck != [] ==>
      && r.deck == s.deck[..|s.deck| - 1]
      && Hand(r, s.current) == Hand(s, s.current) + [s.deck[|s.deck| - 1]]
      && Hand(r, s.current.Other()) == Hand(s, s.current.Other())
      && r.discard == s.discard
      && r.current == s.current.Other()
      && r.started == s.started && r.winner == s.winner
  {
    if s.deck == [] then s
    else
      var card := s.deck[|s.deck| - 1];
      var deck := s.deck[..|s.deck| - 1];
      var s1 := if s.current == One then s.(hand1 := s.hand1 + [card]) else s.(hand2 := s.hand2 + [card]);
      s1.(deck := deck, current := s.current.Other())
  }

  /** Plays keep every card in the game. */
  lemma PlayConserves(s: State, player: Player, i: int)
    requires Valid(s) && s.started
    requires player == s.current ==> 0 <= i < |Hand(s, player)|
    ensures AllCards(PlayCard(s, player, i)) == AllCards(s)
  {
  }

  /** Draws keep every card in the game. */
  lemma DrawConserves(s: State)
    requires Valid(s) && s.started
    ensures AllCards(DrawCard(s)) == AllCards(s)
  {
    if s.deck != [] {
      assert s.deck == s.deck[..|s.deck| - 1] + [s.deck[|s.deck| - 1]];
    }
  }

  /** A click on a card of a hand, or on the deck.  The board is only on
      screen while a game is on, so clicks at other times do nothing. */
  datatype Action = Play(player: Player, index: int) | Draw

  function Apply(s: State, a: Action): (r: State)
    requires Valid(s)
    ensures Valid(r) && AllCards(r) == AllCards(s)
  {
    if !s.started then s
    else match a
    case Draw =>
      DrawConserves(s);
      DrawCard(s)
    case Play(p, i) =>
      if p == s.current && !(0 <= i < |Hand(s, p)|) then s
      else
        PlayConserves(s, p, i);
        PlayCard(s, p, i)
  }

  function Run(s: State, actions: seq<Action>): (r: State)
    requires Valid(s)
    ensures Valid(r) && AllCards(r) == AllCards(s)
    decreases |actions|
  {
    if actions == [] then s else Run(Apply(s, actions[0]), actions[1..])
  }

  /** From a new game, any sequence of plays and draws keeps all 100
      cards in the game. */
  lemma {:induction false} CardsAreConserved(shuffled: seq<Card>, actions: seq<Action>)
    requires multiset(shuffled) == multiset(OrderedDeck())
    ensures var r := Run(StartNewGame(shuffled), actions);
      AllCards(r) == multiset(OrderedDeck()) && |AllCards(r)| == 100
  {
    DeckSize();
    assert |multiset(OrderedDeck())| == 100;
  }
}
