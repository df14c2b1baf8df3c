/** The Scoundrel rules engine: deck, four-slot room, health, weapon and
    weapon-kill stack, per-room potion and flee flags, room counter and last
    resolved card; legal-action enumeration, the legality-gated action step,
    fleeing, room redraws, and win / loss / score. The class's mutable fields
    become one immutable `State`, and each method a function from state to
    state. */
module Scoundrel {
  import opened Common
  import opened Cards
  import Random

  const MAX_HP: int := 20
  const ROOM_SIZE: nat := 4

  /** Action id of fleeing; `2i` is the bare-hand action on slot `i` and
      `2i + 1` the weapon action. */
  const FLEE: int := -1

  datatype State = State(
    deck: seq<Card>,          // front is dealt next
    room: seq<Card>,          // four slots, EMPTY when cleared
    hp: int,
    weapon: Card,             // EMPTY when unarmed
    weaponStack: seq<Card>,   // enemies killed with the current weapon, latest last
    isPotionEffective: bool,
    isFleeAvailable: bool,
    roomNum: int,
    lastCard: Card)

  // ------------------------------------------------------------ counting

  /** `#countRoomOccupy`: the number of non-empty slots. */
  function CountOccupied(room: seq<Card>): (n: nat)
    ensures n <= |room|
    ensures n == |room| - multiset(room)[EMPTY]
  {
    if |room| == 0 then 0
    else
      assert room == [room[0]] + room[1..];
      (if room[0] != EMPTY then 1 else 0) + CountOccupied(room[1..])
  }

  /** The cards lying in the room, empty slots not counted. */
  function Held(room: seq<Card>): multiset<Card>
  {
    multiset(room)[EMPTY := 0]
  }

  /** Every card still in play: the deck and the room together. */
  function Pool(s: State): multiset<Card>
  {
    multiset(s.deck) + Held(s.room)
  }

  lemma HeldCons(c: Card, room: seq<Card>)
    ensures Held([c] + room) == if c == EMPTY then Held(room) else multiset{c} + Held(room)
  {
    assert multiset([c] + room) == multiset{c} + multiset(room);
  }

  lemma HeldPlace(room: seq<Card>, i: nat, c: Card)
    requires i < |room| && room[i] == EMPTY && c != EMPTY
    ensures Held(room[i := c]) == Held(room) + multiset{c}
  {
    assert multiset(room[i := c]) == multiset(room) - multiset{EMPTY} + multiset{c};
  }

  lemma HeldClear(room: seq<Card>, i: nat)
    requires i < |room| && room[i] != EMPTY
    ensures Held(room[i := EMPTY]) + multiset{room[i]} == Held(room)
  {
    assert multiset(room[i := EMPTY]) == multiset(room) - multiset{room[i]} + multiset{EMPTY};
  }

  // ---------------------------------------------------------- the deck

  /** The one exclusion rule of `initialize`: at ascension 0 the face cards
      of hearts and diamonds are left out. */
  predicate Excluded(suit: nat, rank: nat, ascension: int)
  {
    (suit == HEARTS || suit == DIAMONDS) && 11 <= rank <= 14 && ascension == 0
  }

  /** The cards one suit contributes, ranks `rank..14` in increasing order. */
  function SuitCards(suit: nat, rank: nat, ascension: int): (r: seq<Card>)
    requires 1 <= suit <= 4 && 2 <= rank <= 15
    ensures |r| == 15 - rank - (if (suit == HEARTS || suit == DIAMONDS) && ascension == 0
                                then (if rank <= 11 then 4 else 15 - rank) else 0)
    ensures forall k | 0 <= k < |r| :: 15 * suit + rank <= r[k] <= 15 * suit + 14
    ensures forall k | 0 <= k < |r| :: !Excluded(suit, r[k] - 15 * suit, ascension)
    ensures forall m, n | 0 <= m < n < |r| :: r[m] < r[n]
    decreases 15 - rank
  {
    if rank > 14 then []
    else if Excluded(suit, rank, ascension) then SuitCards(suit, rank + 1, ascension)
    else [MakeCard(suit, rank)] + SuitCards(suit, rank + 1, ascension)
  }

  predicate Increasing(s: seq<Card>)
  {
    forall m, n | 0 <= m < n < |s| :: s[m] < s[n]
  }

  /** The unshuffled deck `initialize` builds: spades, hearts, diamonds,
      clubs, each in increasing rank; 44 cards at ascension 0, else 52. All
      cards are distinct (the sequence is strictly increasing). */
  function FreshDeck(ascension: int): (r: seq<Card>)
    ensures |r| == if ascension == 0 then 44 else 52
    ensures forall k | 0 <= k < |r| :: ValidCard(r[k])
    ensures Increasing(r)
  {
    FreshLength(ascension);
    FreshOrder(ascension);
    SuitsInOrder(ascension)
  }

  /** The four suits one after the other. */
  function SuitsInOrder(ascension: int): seq<Card>
  {
    SuitCards(SPADES, 2, ascension) + SuitCards(HEARTS, 2, ascension)
    + SuitCards(DIAMONDS, 2, ascension) + SuitCards(CLUBS, 2, ascension)
  }

  lemma FreshLength(ascension: int)
    ensures |SuitsInOrder(ascension)| == if ascension == 0 then 44 else 52
  {
    SuitSize(SPADES, ascension);
    SuitSize(HEARTS, ascension);
    SuitSize(DIAMONDS, ascension);
    SuitSize(CLUBS, ascension);
  }

  lemma SuitSize(suit: nat, ascension: int)
    requires 1 <= suit <= 4
    ensures |SuitCards(suit, 2, ascension)| == if ascension == 0 && (suit == HEARTS || suit == DIAMONDS) then 9 else 13
  {
  }

  lemma FreshOrder(ascension: int)
    ensures Increasing(SuitsInOrder(ascension)) && ValidBelow(SuitsInOrder(ascension), 75)
  {
    var s, h := SuitCards(SPADES, 2, ascension), SuitCards(HEARTS, 2, ascension);
    var d := SuitCards(DIAMONDS, 2, ascension);
    AppendSuit([], SPADES, ascension);
    assert [] + s == s;
    AppendSuit(s, HEARTS, ascension);
    AppendSuit(s + h, DIAMONDS, ascension);
    AppendSuit(s + h + d, CLUBS, ascension);
  }

  /** A sequence of real cards holds no empty slot. */
  lemma FreshNoEmpty(ascension: int)
    ensures multiset(FreshDeck(ascension))[EMPTY] == 0
  {
    ValidHasNoEmpty(FreshDeck(ascension));
  }

  lemma ValidHasNoEmpty(s: seq<Card>)
    requires forall k | 0 <= k < |s| :: ValidCard(s[k])
    ensures multiset(s)[EMPTY] == 0
  {
  }

  /** Real cards, all below `bound`. */
  predicate ValidBelow(s: seq<Card>, bound: nat)
  {
    forall k | 0 <= k < |s| :: ValidCard(s[k]) && s[k] < bound
  }

  /** Appending a suit to cards of lower suits keeps the sequence increasing
      and made of real cards. */
  lemma AppendSuit(a: seq<Card>, suit: nat, ascension: int)
    requires 1 <= suit <= 4
    requires Increasing(a) && ValidBelow(a, 15 * suit)
    ensures Increasing(a + SuitCards(suit, 2, ascension))
    ensures ValidBelow(a + SuitCards(suit, 2, ascension), 15 * (suit + 1))
  {
    var b := SuitCards(suit, 2, ascension);
    SuitCardsValid(suit, ascension);
    AppendIncreasing(a, b);
    var r := a + b;
    forall k | 0 <= k < |r| ensures ValidCard(r[k]) && r[k] < 15 * (suit + 1) {
      if k >= |a| {
        assert r[k] == b[k - |a|];
        assert r[k] in b;
      }
    }
  }

  lemma SuitCardsValid(suit: nat, ascension: int)
    requires 1 <= suit <= 4
    ensures forall c | c in SuitCards(suit, 2, ascension) :: ValidCard(c)
  {
    forall c | c in SuitCards(suit, 2, ascension)
      ensures ValidCard(c)
    {
      DivModUnique(c, suit, c - 15 * suit);
    }
  }

  /** The cards of one suit from `rank` on are exactly the suit's values in
      that range that the ascension does not exclude. */
  lemma {:induction false} SuitMembers(suit: nat, rank: nat, ascension: int, c: Card)
    requires 1 <= suit <= 4 && 2 <= rank <= 15
    ensures c in SuitCards(suit, rank, ascension)
            <==> 15 * suit + rank <= c <= 15 * suit + 14 && !Excluded(suit, c - 15 * suit, ascension)
    decreases 15 - rank
  {
    if rank <= 14 {
      SuitMembers(suit, rank + 1, ascension, c);
    }
  }

  /** The unshuffled deck holds exactly the real cards the ascension does
      not exclude: all 52 above ascension 0, and at ascension 0 every card
      but the face cards of hearts and diamonds. */
  lemma FreshMembers(ascension: int, c: Card)
    ensures c in FreshDeck(ascension) <==> ValidCard(c) && !Excluded(Suit(c), Rank(c), ascension)
  {
    SuitMembers(SPADES, 2, ascension, c);
    SuitMembers(HEARTS, 2, ascension, c);
    SuitMembers(DIAMONDS, 2, ascension, c);
    SuitMembers(CLUBS, 2, ascension, c);
    DivModUnique(c, Suit(c), Rank(c));
  }

  /** At ascension 0 no repair kit and no poison potion is ever dealt. */
  lemma FreshZeroRoles(c: Card)
    requires c in FreshDeck(0)
    ensures IsEnemy(c) || IsWeapon(c) || IsHealthPotion(c)
  {
    FreshMembers(0, c);
  }

  lemma AppendIncreasing(a: seq<Card>, b: seq<Card>)
    requires Increasing(a) && Increasing(b)
    requires forall m, n | 0 <= m < |a| && 0 <= n < |b| :: a[m] < b[n]
    ensures Increasing(a + b)
  {
  }

  // ------------------------------------------------------- dealing a room

  /** The number of empty slots in `room`. */
  function Gaps(room: seq<Card>): nat
  {
    multiset(room)[EMPTY]
  }

  /** The loop of `drawRoom`, slot by slot from the front: an empty slot takes
      the front card of the deck (`deck.shift()`), an occupied one keeps its
      card. Returns the new room and what is left of the deck. */
  function Fill(room: seq<Card>, deck: seq<Card>): (r: (seq<Card>, seq<Card>))
    requires Gaps(room) <= |deck|
    ensures |r.0| == |room|
    ensures r.1 == deck[Gaps(room)..]
  {
    if |room| == 0 then ([], deck)
    else
      assert room == [room[0]] + room[1..];
      if room[0] == EMPTY then
        var rest := Fill(room[1..], deck[1..]);
        ([deck[0]] + rest.0, rest.1)
      else
        var rest := Fill(room[1..], deck);
        ([room[0]] + rest.0, rest.1)
  }

  /** Slot by slot: occupied slots keep their card, and the empty slot `k`
      receives deck card number "empty slots before `k`", i.e. the deck is
      dealt into the gaps in slot order. */
  lemma {:induction false} FillSlots(room: seq<Card>, deck: seq<Card>, k: nat)
    requires Gaps(room) <= |deck| && k < |room|
    ensures room[k] != EMPTY ==> Fill(room, deck).0[k] == room[k]
    ensures room[k] == EMPTY ==>
              Gaps(room[..k]) < |deck| && Fill(room, deck).0[k] == deck[Gaps(room[..k])]
  {
    var tail := room[1..];
    assert room == [room[0]] + tail;
    GapsCons(room);
    if k > 0 {
      assert room[..k][1..] == tail[..k - 1];
      GapsCons(room[..k]);
      if room[0] == EMPTY {
        FillSlots(tail, deck[1..], k - 1);
        assert Fill(room, deck).0[k] == Fill(tail, deck[1..]).0[k - 1];
      } else {
        FillSlots(tail, deck, k - 1);
        assert Fill(room, deck).0[k] == Fill(tail, deck).0[k - 1];
      }
    } else {
      assert Gaps(room[..0]) == 0;
    }
  }

  lemma GapsCons(room: seq<Card>)
    requires |room| > 0
    ensures Gaps(room) == (if room[0] == EMPTY then 1 else 0) + Gaps(room[1..])
  {
    assert room == [room[0]] + room[1..];
    assert multiset(room) == multiset{room[0]} + multiset(room[1..]);
  }

  /** With a deck of real cards, filling moves exactly the first `Gaps(room)`
      deck cards into the room. */
  lemma {:induction false} FillConserves(room: seq<Card>, deck: seq<Card>)
    requires Gaps(room) <= |deck| && EMPTY !in deck
    ensures Held(Fill(room, deck).0) == Held(room) + multiset(deck[..Gaps(room)])
    decreases |room|
  {
    if |room| > 0 {
      GapsCons(room);
      var tail := room[1..];
      assert room == [room[0]] + tail;
      if room[0] == EMPTY {
        var rest := Fill(tail, deck[1..]).0;
        FillConserves(tail, deck[1..]);
        var taken := deck[1..][..Gaps(tail)];
        assert deck[..Gaps(room)] == [deck[0]] + taken;
        HeldPrependGap(deck[0], rest, tail, multiset(taken));
      } else {
        var rest := Fill(tail, deck).0;
        FillConserves(tail, deck);
        HeldPrepend(room[0], rest, tail, multiset(deck[..Gaps(tail)]));
      }
    }
  }

  lemma HeldPrepend(c: Card, x: seq<Card>, y: seq<Card>, d: multiset<Card>)
    requires Held(x) == Held(y) + d
    ensures Held([c] + x) == Held([c] + y) + d
  {
    HeldCons(c, x);
    HeldCons(c, y);
  }

  lemma HeldPrependGap(c: Card, x: seq<Card>, y: seq<Card>, d: multiset<Card>)
    requires c != EMPTY && Held(x) == Held(y) + d
    ensures Held([c] + x) == Held([EMPTY] + y) + (multiset{c} + d)
  {
    HeldCons(c, x);
    HeldCons(EMPTY, y);
  }

  /** With a deck of real cards, no slot is left empty. */
  lemma {:induction false} FillFull(room: seq<Card>, deck: seq<Card>)
    requires Gaps(room) <= |deck| && EMPTY !in deck
    ensures EMPTY !in Fill(room, deck).0
  {
    if |room| > 0 {
      assert room == [room[0]] + room[1..];
      if room[0] == EMPTY {
        FillFull(room[1..], deck[1..]);
      } else {
        FillFull(room[1..], deck);
      }
    }
  }

  /** `drawRoom`: fill the empty slots from the front of the deck, count the
      new room and reset both per-room flags. The source takes `deck.shift()`
      for every empty slot, so the deck must hold at least that many cards. */
  function DrawRoom(s: State): (r: State)
    requires Gaps(s.room) <= |s.deck|
    ensures |r.room| == |s.room|
    ensures r.deck == s.deck[Gaps(s.room)..]
    ensures r.roomNum == s.roomNum + 1 && r.isPotionEffective && r.isFleeAvailable
    ensures r.hp == s.hp && r.weapon == s.weapon && r.weaponStack == s.weaponStack
    ensures r.lastCard == s.lastCard
  {
    var filled := Fill(s.room, s.deck);
    s.(room := filled.0, deck := filled.1, roomNum := s.roomNum + 1,
       isPotionEffective := true, isFleeAvailable := true)
  }

  /** Dealing neither creates nor loses cards, and a deck of real cards fills
      every slot. */
  lemma DrawRoomConserves(s: State)
    requires Gaps(s.room) <= |s.deck| && EMPTY !in s.deck
    ensures Pool(DrawRoom(s)) == Pool(s)
    ensures CountOccupied(DrawRoom(s).room) == |s.room|
  {
    FillConserves(s.room, s.deck);
    FillFull(s.room, s.deck);
    assert s.deck == s.deck[..Gaps(s.room)] + s.deck[Gaps(s.room)..];
  }

  /** Dealing into an empty room takes the front cards of the deck in order. */
  lemma {:induction false} FillEmptyRoom(room: seq<Card>, deck: seq<Card>)
    requires forall k | 0 <= k < |room| :: room[k] == EMPTY
    requires |room| <= |deck|
    ensures Gaps(room) == |room|
    ensures Fill(room, deck).0 == deck[..|room|]
  {
    if |room| > 0 {
      assert room == [room[0]] + room[1..];
      FillEmptyRoom(room[1..], deck[1..]);
    }
  }

  /** A room with every slot empty. */
  const EMPTY_ROOM: seq<Card> := [EMPTY, EMPTY, EMPTY, EMPTY]

  /** The start of every game: full health, no weapon, an empty room, then
      the first room dealt from the front of `deck`. */
  function Deal(deck: seq<Card>): (s: State)
    requires |deck| >= ROOM_SIZE
    ensures s.room == deck[..ROOM_SIZE] && s.deck == deck[ROOM_SIZE..]
    ensures s.hp == MAX_HP && s.weapon == EMPTY && s.weaponStack == []
    ensures s.roomNum == 1 && s.isPotionEffective && s.isFleeAvailable && s.lastCard == EMPTY
  {
    var start := State(deck, EMPTY_ROOM, MAX_HP, EMPTY, [], true, true, 0, EMPTY);
    FillEmptyRoom(EMPTY_ROOM, deck);
    DrawRoom(start)
  }

  /** Dealing from a deck without empty slots fills the room and keeps
      every card in play. */
  lemma DealConserves(deck: seq<Card>)
    requires |deck| >= ROOM_SIZE && multiset(deck)[EMPTY] == 0
    ensures CountOccupied(Deal(deck).room) == ROOM_SIZE
    ensures Pool(Deal(deck)) == multiset(deck)
  {
    var start := State(deck, EMPTY_ROOM, MAX_HP, EMPTY, [], true, true, 0, EMPTY);
    FillEmptyRoom(EMPTY_ROOM, deck);
    assert Held(EMPTY_ROOM) == multiset{};
    assert EMPTY !in deck by {
      assert EMPTY !in multiset(deck);
    }
    DrawRoomConserves(start);
  }

  /** A first deal: a full room, and exactly the cards of the fresh deck in
      play. */
  predicate Dealt(s: State, ascension: int)
  {
    |s.room| == ROOM_SIZE && CountOccupied(s.room) == ROOM_SIZE
    && Pool(s) == multiset(FreshDeck(ascension))
  }

  /** The constructor: the fresh deck shuffled with the seed, then dealt. The
      first room is full and the cards in play are the fresh deck. */
  function NewState(seed: Random.Seed, ascension: int): (s: State)
    ensures |s.room| == ROOM_SIZE && |s.deck| == (if ascension == 0 then 40 else 48)
    ensures s.hp == MAX_HP && s.weapon == EMPTY && s.weaponStack == []
    ensures s.roomNum == 1 && s.isPotionEffective && s.isFleeAvailable && s.lastCard == EMPTY
    ensures Dealt(s, ascension)
  {
    var deck := Random.Shuffle(FreshDeck(ascension), seed);
    FreshNoEmpty(ascension);
    DealConserves(deck);
    Deal(deck)
  }

  // ------------------------------------------------------------- fleeing

  function Reverse(s: seq<Card>): (r: seq<Card>)
    ensures |r| == |s|
    ensures forall k | 0 <= k < |s| :: r[k] == s[|s| - 1 - k]
  {
    if |s| == 0 then [] else [s[|s| - 1]] + Reverse(s[..|s| - 1])
  }

  /** The loop of `flee` at slot `i`, then `i - 1`, down to 0: an occupied slot
      is pushed onto the back of the deck and cleared. */
  function FleeFrom(room: seq<Card>, deck: seq<Card>, i: int): (r: (seq<Card>, seq<Card>))
    requires -1 <= i < |room|
    ensures |r.0| == |room|
    decreases i + 1
  {
    if i < 0 then (room, deck)
    else if room[i] != EMPTY then FleeFrom(room[i := EMPTY], deck + [room[i]], i - 1)
    else FleeFrom(room, deck, i - 1)
  }

  /** Slots `0..i` end up empty; the slots above `i` are untouched. */
  lemma {:induction false} FleeClears(room: seq<Card>, deck: seq<Card>, i: int)
    requires -1 <= i < |room|
    ensures forall k | 0 <= k <= i :: FleeFrom(room, deck, i).0[k] == EMPTY
    ensures forall k | i < k < |room| :: FleeFrom(room, deck, i).0[k] == room[k]
    decreases i + 1
  {
    if i >= 0 {
      if room[i] != EMPTY {
        FleeClears(room[i := EMPTY], deck + [room[i]], i - 1);
      } else {
        FleeClears(room, deck, i - 1);
      }
    }
  }

  /** Every card taken out of the room lands on the deck: nothing is lost and
      nothing is added. */
  lemma {:induction false} FleeConserves(room: seq<Card>, deck: seq<Card>, i: int)
    requires -1 <= i < |room|
    ensures Held(FleeFrom(room, deck, i).0) + multiset(FleeFrom(room, deck, i).1)
            == Held(room) + multiset(deck)
    decreases i + 1
  {
    if i >= 0 {
      if room[i] != EMPTY {
        FleeConserves(room[i := EMPTY], deck + [room[i]], i - 1);
        HeldClear(room, i);
      } else {
        FleeConserves(room, deck, i - 1);
      }
    }
  }

  /** The deck grows by the number of occupied slots among `0..i`. */
  lemma {:induction false} FleeCount(room: seq<Card>, deck: seq<Card>, i: int)
    requires -1 <= i < |room|
    ensures |FleeFrom(room, deck, i).1| == |deck| + CountOccupied(room[..i + 1])
    decreases i + 1
  {
    if i >= 0 {
      SnocPrefix(room, i);
      CountAppend(room[..i], room[i]);
      if room[i] != EMPTY {
        FleeCount(room[i := EMPTY], deck + [room[i]], i - 1);
        UpdateKeepsPrefix(room, i, EMPTY);
      } else {
        FleeCount(room, deck, i - 1);
      }
    }
  }

  /** With every slot up to `i` occupied, the cards go onto the deck from slot
      `i` down to slot 0. */
  lemma {:induction false} FleeOrder(room: seq<Card>, deck: seq<Card>, i: int)
    requires -1 <= i < |room|
    requires forall k | 0 <= k <= i :: room[k] != EMPTY
    ensures FleeFrom(room, deck, i).1 == deck + Reverse(room[..i + 1])
    decreases i + 1
  {
    if i >= 0 {
      FleeOrder(room[i := EMPTY], deck + [room[i]], i - 1);
      assert room[i := EMPTY][..i] == room[..i];
      assert room[..i + 1][..i] == room[..i];
    }
  }

  lemma CountAppend(room: seq<Card>, c: Card)
    ensures CountOccupied(room + [c]) == CountOccupied(room) + (if c != EMPTY then 1 else 0)
  {
    assert multiset(room + [c]) == multiset(room) + multiset{c};
  }

  /** `flee`: push the occupied slots onto the deck from slot 3 down to 0,
      deal a new room, then mark fleeing unavailable (after `drawRoom` has just
      set it). The new room is dealt from the deck the pushed cards joined. */
  function Flee(s: State): (r: State)
    requires |s.room| == ROOM_SIZE && |s.deck| + CountOccupied(s.room) >= ROOM_SIZE
    ensures |r.room| == ROOM_SIZE && !r.isFleeAvailable && r.isPotionEffective
    ensures r.roomNum == s.roomNum + 1
    ensures |r.deck| == |s.deck| + CountOccupied(s.room) - ROOM_SIZE
    ensures r.hp == s.hp && r.weapon == s.weapon && r.weaponStack == s.weaponStack
    ensures r.lastCard == s.lastCard
  {
    var pushed := FleeFrom(s.room, s.deck, ROOM_SIZE - 1);
    FleeClears(s.room, s.deck, ROOM_SIZE - 1);
    FleeCount(s.room, s.deck, ROOM_SIZE - 1);
    assert s.room[..ROOM_SIZE] == s.room;
    assert pushed.0 == [EMPTY, EMPTY, EMPTY, EMPTY];
    DrawRoom(s.(room := pushed.0, deck := pushed.1)).(isFleeAvailable := false)
  }

  // ------------------------------------------------------------- actions

  /** `#isEnemyWeaponKillable`: an enemy can be fought with the weapon when a
      weapon is held and it has killed nothing yet, or the enemy ranks strictly
      below the last enemy it killed. */
  predicate IsWeaponKillable(s: State, enemy: Card)
  {
    IsEnemy(enemy) && s.weapon != EMPTY
    && (|s.weaponStack| == 0 || Rank(enemy) < Rank(s.weaponStack[|s.weaponStack| - 1]))
  }

  /** Fleeing is offered once per room, and only from an untouched room. */
  predicate CanFlee(s: State)
  {
    s.isFleeAvailable && CountOccupied(s.room) == ROOM_SIZE
  }

  /** The actions the rules allow: fleeing, a bare-hand action `2i` on any
      occupied slot `i`, and a weapon action `2i + 1` on a slot holding a
      weapon-killable enemy. */
  predicate IsLegal(s: State, a: int)
    requires |s.room| == ROOM_SIZE
  {
    (a == FLEE && CanFlee(s))
    || (0 <= a < 2 * ROOM_SIZE && s.room[a / 2] != EMPTY
        && (a % 2 == 0 || IsWeaponKillable(s, s.room[a / 2])))
  }

  /** The slot loop of `getPossibleActions` from slot `i` on. */
  function SlotActions(s: State, i: nat): (r: seq<int>)
    requires |s.room| == ROOM_SIZE && i <= ROOM_SIZE
    ensures forall a :: a in r <==> 2 * i <= a && IsLegal(s, a)
    ensures forall m, n | 0 <= m < n < |r| :: r[m] < r[n]
    ensures forall m | 0 <= m < |r| :: 2 * i <= r[m]
    decreases ROOM_SIZE - i
  {
    if i == ROOM_SIZE then []
    else
      var card := s.room[i];
      var rest := SlotActions(s, i + 1);
      assert (2 * i) / 2 == i && (2 * i + 1) / 2 == i;
      assert forall a | 2 * i <= a < 2 * i + 2 :: a / 2 == i;
      if card == EMPTY then rest
      else if IsWeaponKillable(s, card) then [2 * i, 2 * i + 1] + rest
      else [2 * i] + rest
  }

  /** `getPossibleActions`: fleeing first when it is offered, then the slot
      actions in slot order. The list holds exactly the legal actions, each
      once, in increasing order. */
  function PossibleActions(s: State): (r: seq<int>)
    requires |s.room| == ROOM_SIZE
    ensures forall a :: a in r <==> IsLegal(s, a)
    ensures forall m, n | 0 <= m < n < |r| :: r[m] < r[n]
  {
    (if CanFlee(s) then [FLEE] else []) + SlotActions(s, 0)
  }

  /** The damage of fighting `enemy`: its rank bare-handed, or the part of its
      rank the weapon's rank does not absorb. `Game.GetEnemyDamage` defines
      the same damage independently and is proved equal to this one. */
  function Damage(s: State, enemy: Card, withWeapon: bool): (d: nat)
    ensures d <= Rank(enemy)
    ensures withWeapon ==> d == Max(Rank(enemy) - Rank(s.weapon), 0)
    ensures !withWeapon ==> d == Rank(enemy)
  {
    if withWeapon then Max(Rank(enemy) - Rank(s.weapon), 0) else Rank(enemy)
  }

  /** Fighting the enemy in `slot`: health drops by the damage (never below
      0); the enemy is killed, and leaves the room, only when health covered
      the whole damage; a weapon kill joins the weapon stack. The effect on
      the whole engine step is `EngineFacts.FightEffect`, and
      `Game.EnemySurvivesIff` relates it to the game screen's lethal check. */
  function Fight(s: State, slot: nat, withWeapon: bool): (r: State)
    requires slot < |s.room|
    ensures r.hp == Max(s.hp - Damage(s, s.room[slot], withWeapon), 0)
    ensures r.room == if s.hp >= Damage(s, s.room[slot], withWeapon)
                      then s.room[slot := EMPTY] else s.room
    ensures r.weaponStack == if s.hp >= Damage(s, s.room[slot], withWeapon) && withWeapon
                             then s.weaponStack + [s.room[slot]] else s.weaponStack
    ensures r.deck == s.deck && r.weapon == s.weapon && r.roomNum == s.roomNum
    ensures r.isPotionEffective == s.isPotionEffective && r.isFleeAvailable == s.isFleeAvailable
    ensures r.lastCard == s.lastCard
  {
    var card := s.room[slot];
    var damage := Damage(s, card, withWeapon);
    var hit := s.(hp := Max(s.hp - damage, 0));
    if s.hp < damage then hit
    else if withWeapon then hit.(room := s.room[slot := EMPTY], weaponStack := s.weaponStack + [card])
    else hit.(room := s.room[slot := EMPTY])
  }

  /** Drinking a potion: the slot is cleared in any case, but only the first
      potion of a room acts, setting health to `newHp`. */
  function Drink(s: State, slot: nat, newHp: int): (r: State)
    requires slot < |s.room|
    ensures r.room == s.room[slot := EMPTY]
    ensures r.hp == if s.isPotionEffective then newHp else s.hp
    ensures !r.isPotionEffective
    ensures r.deck == s.deck && r.weapon == s.weapon && r.weaponStack == s.weaponStack
    ensures r.roomNum == s.roomNum && r.isFleeAvailable == s.isFleeAvailable
    ensures r.lastCard == s.lastCard
  {
    var drunk := s.(room := s.room[slot := EMPTY]);
    if s.isPotionEffective then drunk.(hp := newHp, isPotionEffective := false)
    else drunk
  }

  /** The card part of `takeAction` for slot `slot`: the card is recorded as
      the last card, then handled by its role (roles never overlap, so the
      source's chain of tests fires at most once). */
  function Resolve(s: State, slot: nat, withWeapon: bool): (r: State)
    requires slot < |s.room|
    ensures |r.room| == |s.room| && r.deck == s.deck
    ensures r.lastCard == s.room[slot] && r.roomNum == s.roomNum
    ensures r.isFleeAvailable == s.isFleeAvailable
    ensures forall k | 0 <= k < |s.room| && k != slot :: r.room[k] == s.room[k]
    ensures r.room[slot] == EMPTY || r.room[slot] == s.room[slot]
  {
    var card := s.room[slot];
    var t := s.(lastCard := card);
    if IsEnemy(card) then Fight(t, slot, withWeapon)
    else if IsWeapon(card) then t.(room := s.room[slot := EMPTY], weapon := card, weaponStack := [])
    else if IsRepairKit(card) then
      t.(room := s.room[slot := EMPTY],
         weaponStack := if |s.weaponStack| > 0 then s.weaponStack[..|s.weaponStack| - 1] else s.weaponStack)
    else if IsHealthPotion(card) then Drink(t, slot, Min(s.hp + Rank(card), MAX_HP))
    else if IsPoisonPotion(card) then Drink(t, slot, Max(s.hp - 10, 0))
    else t
  }

  /** A room is well formed for the action step: four slots, and a deck whose
      size is not 2 more than a multiple of 3. Every draw in a run takes 4 or
      3 cards, and fleeing returns 4, so the residue of the deck size modulo 3
      never changes; this is what makes the deck hold the 3 cards the
      automatic redraw takes. */
  predicate Wf(s: State)
  {
    |s.room| == ROOM_SIZE && |s.deck| % 3 != 2
  }

  /** The automatic redraw at the end of `takeAction`: deal a new room when
      the player is alive, one card is left in the room and the deck holds
      more than one card. */
  function AutoRedraw(s: State): (r: State)
    requires Wf(s)
    ensures Wf(r) && |r.deck| % 3 == |s.deck| % 3
    ensures r.roomNum == s.roomNum + 1 <==> s.hp > 0 && CountOccupied(s.room) == 1 && |s.deck| > 1
    ensures r.roomNum != s.roomNum + 1 ==> r == s
    ensures r.roomNum == s.roomNum + 1 ==> r == DrawRoom(s) && r.isPotionEffective && r.isFleeAvailable
  {
    if s.hp > 0 && CountOccupied(s.room) == 1 && |s.deck| > 1 then
      DrawRoom(s)
    else s
  }

  /** `takeAction`: an action outside `PossibleActions` is refused and
      changes nothing; fleeing flees; any other action resolves the card in
      slot `a / 2` (with the weapon when `a` is odd) and may deal a new room. */
  function TakeAction(s: State, a: int): (r: (bool, State))
    requires Wf(s)
    ensures r.0 <==> IsLegal(s, a)
    ensures !r.0 ==> r.1 == s
    ensures Wf(r.1) && |r.1.deck| % 3 == |s.deck| % 3
  {
    if a !in PossibleActions(s) then (false, s)
    else if a == FLEE then (true, Flee(s))
    else (true, AutoRedraw(Resolve(s, a / 2, a % 2 == 1)))
  }

  // ------------------------------------------------------------- the end

  /** The sum of the ranks of the enemies among `cards`. */
  function EnemyRankSum(cards: seq<Card>): nat
  {
    if |cards| == 0 then 0
    else (if IsEnemy(cards[0]) then Rank(cards[0]) else 0) + EnemyRankSum(cards[1..])
  }

  predicate IsLost(s: State)
  {
    s.hp == 0
  }

  /** Won: alive with no card left, neither in the deck nor in the room. */
  predicate IsWin(s: State)
    requires |s.room| == ROOM_SIZE
  {
    !IsLost(s) && |s.deck| + CountOccupied(s.room) == 0
  }

  predicate IsTerminal(s: State)
    requires |s.room| == ROOM_SIZE
  {
    IsLost(s) || IsWin(s)
  }

  /** `score`: a lost run scores minus the ranks of the enemies still in the
      deck and the room; a won run scores the remaining health, plus the rank
      of the last card when that was a health potion; anything else is 0. */
  function Score(s: State): int
    requires |s.room| == ROOM_SIZE
  {
    if IsLost(s) then -(EnemyRankSum(s.deck) + EnemyRankSum(s.room))
    else if IsWin(s) then
      if IsHealthPotion(s.lastCard) then s.hp + Rank(s.lastCard) else s.hp
    else 0
  }
}
