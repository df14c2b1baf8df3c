/** Whole runs: a game started by `initGame` (with or without the
    first-room weapon option) followed by any sequence of action ids, each
    handed to `takeAction` in turn. */
module Runs {
  import opened Cards
  import Random
  import opened Scoundrel
  import opened EngineFacts
  import opened Setup
  import opened Game

  /** `initGame`: a new engine, then the first-room weapon swap when the
      option is on. */
  function NewGame(seed: Random.Seed, ascension: int, firstRoomWeapon: bool): (s: State)
    ensures |s.room| == ROOM_SIZE
    ensures |s.deck| == if ascension == 0 then 40 else 48
  {
    WithOption(NewState(seed, ascension), firstRoomWeapon)
  }

  /** The option step of `initGame` on a dealt room: the swap moves cards
      without adding or losing any, and a room with a card in it keeps the
      deck at its size. */
  function WithOption(s: State, firstRoomWeapon: bool): (r: State)
    requires |s.room| == ROOM_SIZE
    ensures |r.room| == ROOM_SIZE && Pool(r) == Pool(s)
    ensures CountOccupied(s.room) > 0 ==> |r.deck| == |s.deck|
    ensures !firstRoomWeapon ==> r == s
  {
    if firstRoomWeapon then
      EnsureWeaponConserves(s);
      EnsureWeaponFirstRoom(s)
    else s
  }

  /** The state after each action id of `actions` is offered to
      `takeAction` in turn; refused ids leave the state as it was. */
  function Play(s: State, actions: seq<int>): (r: State)
    requires Wf(s)
    ensures Wf(r) && |r.deck| % 3 == |s.deck| % 3
    ensures |actions| == 0 ==> r == s
    decreases |actions|
  {
    if |actions| == 0 then s
    else Play(TakeAction(s, actions[0]).1, actions[1..])
  }

  /** A new game, with or without the swap, keeps the invariant and holds
      exactly the cards of the fresh deck, its first room full. */
  lemma NewGameInv(seed: Random.Seed, ascension: int, firstRoomWeapon: bool)
    ensures Inv(NewGame(seed, ascension, firstRoomWeapon))
    ensures Pool(NewGame(seed, ascension, firstRoomWeapon)) == multiset(FreshDeck(ascension))
  {
    var s := NewState(seed, ascension);
    InitState(seed, ascension);
    InitRoom(seed, ascension);
    if firstRoomWeapon {
      EnsureWeaponKeepsInv(s);
      EnsureWeaponConserves(s);
    }
  }

  /** The two of diamonds, the smallest weapon, is in every fresh deck. */
  lemma SmallestWeaponInDeck(ascension: int)
    ensures MakeCard(DIAMONDS, 2) in FreshDeck(ascension)
    ensures IsWeapon(MakeCard(DIAMONDS, 2))
  {
    var d := SuitCards(DIAMONDS, 2, ascension);
    assert d[0] == MakeCard(DIAMONDS, 2);
    var a, b := SuitCards(SPADES, 2, ascension), SuitCards(HEARTS, 2, ascension);
    var c := SuitCards(CLUBS, 2, ascension);
    assert FreshDeck(ascension) == a + b + d + c;
    assert FreshDeck(ascension)[|a| + |b|] == d[0];
  }

  /** With the option on, the first room always offers a weapon: every fresh
      deck has one, and the swap brings it into the room if the deal did not. */
  lemma FirstRoomHasWeapon(seed: Random.Seed, ascension: int)
    ensures OffersWeapon(NewGame(seed, ascension, true).room)
  {
    FreshStartHasWeapon(NewState(seed, ascension), ascension);
  }

  /** A first deal of a fresh deck: after the swap the room holds a weapon. */
  lemma FreshStartHasWeapon(s: State, ascension: int)
    requires Dealt(s, ascension)
    ensures OffersWeapon(WithOption(s, true).room)
  {
    SmallestWeaponInDeck(ascension);
    assert MakeCard(DIAMONDS, 2) in multiset(FreshDeck(ascension));
    SwapOffersWeapon(s, MakeCard(DIAMONDS, 2));
  }

  /** Some slot of the room holds a weapon. */
  predicate OffersWeapon(room: seq<Card>)
  {
    exists k | 0 <= k < |room| :: IsWeapon(room[k])
  }

  /** A full first room over the cards of a fresh deck: after the swap the
      room holds a weapon. */
  lemma SwapOffersWeapon(s: State, w: Card)
    requires |s.room| == ROOM_SIZE && CountOccupied(s.room) == ROOM_SIZE
    requires IsWeapon(w) && w in Pool(s)
    ensures OffersWeapon(WithOption(s, true).room)
  {
    var k := WeaponReachesRoom(s, w);
    assert IsWeapon(WithOption(s, true).room[k]);
  }

  /** A full room and a weapon among the cards in play: after the swap the
      room holds a weapon. */
  lemma WeaponReachesRoom(s: State, w: Card) returns (k: nat)
    requires |s.room| == ROOM_SIZE && CountOccupied(s.room) == ROOM_SIZE
    requires IsWeapon(w) && w in Pool(s)
    ensures k < ROOM_SIZE && IsWeapon(EnsureWeaponFirstRoom(s).room[k])
  {
    if !OffersWeapon(s.room) {
      assert w !in Held(s.room);
      assert w in multiset(s.deck);
      var m :| 0 <= m < |s.deck| && s.deck[m] == w;
      var i := FindIndex(s.deck, IsWeapon).value;
      assert EMPTY !in multiset(s.room);
      EnsureWeaponMoves(s, i, 0);
      k := 0;
    } else {
      EnsureWeaponNoOp(s);
      k :| 0 <= k < ROOM_SIZE && IsWeapon(s.room[k]);
    }
  }

  /** Every run keeps the engine invariant. */
  lemma {:induction false} RunKeepsInv(s: State, actions: seq<int>)
    requires Inv(s)
    ensures Inv(Play(s, actions))
    decreases |actions|
  {
    if |actions| > 0 {
      InvPreserved(s, actions[0]);
      RunKeepsInv(TakeAction(s, actions[0]).1, actions[1..]);
    }
  }

  /** No run brings a card into play: the cards in play at the end are some
      of those at the start. */
  lemma {:induction false} RunShrinksPool(s: State, actions: seq<int>)
    requires Inv(s)
    ensures Pool(Play(s, actions)) <= Pool(s)
    decreases |actions|
  {
    if |actions| > 0 {
      var t := TakeAction(s, actions[0]).1;
      CardsValidMeans(s);
      PoolConserved(s, actions[0]);
      InvPreserved(s, actions[0]);
      RunShrinksPool(t, actions[1..]);
    }
  }

  /** At ascension 0 the deck starts at 40 cards, a size of residue 1 modulo
      3 that every step keeps, so the deck is never empty and the run can
      never be won, whatever the actions and whether the swap is on. */
  lemma AscensionZeroNeverWon(seed: Random.Seed, firstRoomWeapon: bool, actions: seq<int>)
    ensures !IsWin(Play(NewGame(seed, 0, firstRoomWeapon), actions))
  {
    var s := NewGame(seed, 0, firstRoomWeapon);
    DeckResidue(|s.deck|, 0);
    ResidueOneNeverWon(s, actions);
  }

  /** From a deck size of residue 1 modulo 3 no run ever empties the deck. */
  lemma ResidueOneNeverWon(s: State, actions: seq<int>)
    requires Wf(s) && |s.deck| % 3 == 1
    ensures !IsWin(Play(s, actions))
  {
    var r := Play(s, actions);
    assert |r.deck| != 0;
  }

  /** A state of this shape stalls: alive, the room cleared and one card
      left in the deck, no action is legal (the redraw needs more than one
      card and fleeing a full room), yet the run is neither lost nor won. */
  lemma StalledRun(s: State)
    requires Wf(s) && s.hp > 0 && |s.deck| == 1
    requires forall k | 0 <= k < ROOM_SIZE :: s.room[k] == EMPTY
    ensures PossibleActions(s) == []
    ensures !IsTerminal(s)
    ensures forall a :: TakeAction(s, a) == (false, s)
  {
    assert CountOccupied(s.room) == 0 by {
      assert s.room == EMPTY_ROOM;
    }
  }
}
