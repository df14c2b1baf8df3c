/** What the `Scoundrel` constructor establishes: the first room is full,
    the invariant holds, and the cards in play are the fresh deck. */
module Setup {
  import opened Cards
  import Random
  import opened Scoundrel
  import opened EngineFacts

  /** Every card of a fresh deck is a real card. */
  lemma FreshCardsValid(ascension: int)
    ensures forall c | c in multiset(FreshDeck(ascension)) :: ValidCard(c)
  {
    var d := FreshDeck(ascension);
    forall c | c in multiset(d) ensures ValidCard(c) {
      var k :| 0 <= k < |d| && d[k] == c;
    }
  }

  /** A new game keeps the invariant, and the cards in play are exactly the
      fresh deck. */
  lemma InitState(seed: Random.Seed, ascension: int)
    ensures Inv(NewState(seed, ascension))
    ensures Pool(NewState(seed, ascension)) == multiset(FreshDeck(ascension))
  {
    NewStateWf(seed, ascension);
    FreshStartInv(NewState(seed, ascension), ascension);
  }

  /** A well-formed state at full health with no weapon, holding the cards
      of a fresh deck, keeps the invariant. */
  lemma FreshStartInv(s: State, ascension: int)
    requires Wf(s) && s.hp == MAX_HP && s.weapon == EMPTY && s.weaponStack == []
    requires Pool(s) == multiset(FreshDeck(ascension))
    ensures Inv(s)
  {
    FreshCardsValid(ascension);
  }

  /** A new game starts in a full room from which fleeing is offered. */
  lemma InitRoom(seed: Random.Seed, ascension: int)
    ensures CountOccupied(NewState(seed, ascension).room) == ROOM_SIZE
    ensures IsLegal(NewState(seed, ascension), FLEE)
  {
  }

  /** The first deal leaves 40 or 48 cards, sizes of residue 1 and 0
      modulo 3. */
  lemma NewStateWf(seed: Random.Seed, ascension: int)
    ensures Wf(NewState(seed, ascension))
    ensures |NewState(seed, ascension).deck| % 3 == if ascension == 0 then 1 else 0
  {
    var s := NewState(seed, ascension);
    DeckResidue(|s.deck|, ascension);
  }

  lemma DeckResidue(n: nat, ascension: int)
    requires n == if ascension == 0 then 40 else 48
    ensures n % 3 == if ascension == 0 then 1 else 0
  {
  }
}
