/** What the Scoundrel rules guarantee: the state invariant every run keeps,
    conservation of the cards in play, the effect of each kind of action, the
    once-per-room rules, fleeing, and the sign of the score. */
module EngineFacts {
  import opened Common
  import opened Cards
  import Random
  import opened Scoundrel

  // ------------------------------------------------------------ invariant

  predicate HpInRange(s: State)
  {
    0 <= s.hp <= MAX_HP
  }

  /** Every card in play is a card of the deck (empty slots aside). */
  predicate CardsValid(s: State)
  {
    forall c | c in Pool(s) :: ValidCard(c)
  }

  /** The weapon is a weapon card or none; without a weapon there is no kill
      stack; the stack holds enemies in strictly decreasing rank. */
  predicate WeaponOk(s: State)
  {
    (s.weapon == EMPTY || (ValidCard(s.weapon) && IsWeapon(s.weapon)))
    && (s.weapon == EMPTY ==> |s.weaponStack| == 0)
    && (forall c | c in s.weaponStack :: ValidCard(c) && IsEnemy(c))
    && (forall m, n | 0 <= m < n < |s.weaponStack| ::
          Rank(s.weaponStack[m]) > Rank(s.weaponStack[n]))
  }

  predicate Inv(s: State)
  {
    Wf(s) && HpInRange(s) && CardsValid(s) && WeaponOk(s)
  }

  /** A valid pool means a deck of real cards and a room of real cards or
      empty slots. */
  lemma CardsValidMeans(s: State)
    requires CardsValid(s)
    ensures EMPTY !in s.deck
    ensures forall c | c in s.deck :: ValidCard(c)
    ensures forall c | c in s.room && c != EMPTY :: ValidCard(c)
  {
    forall c | c in s.deck ensures ValidCard(c) {
      assert c in Pool(s);
    }
    forall c | c in s.room && c != EMPTY ensures ValidCard(c) {
      assert c in Held(s.room);
    }
  }

  // -------------------------------------------------------- conservation

  /** Resolving a card either leaves it in its slot (a failed fight) or takes
      exactly that card out of play. */
  lemma ResolvePool(s: State, slot: nat, withWeapon: bool)
    requires slot < |s.room| && s.room[slot] != EMPTY
    ensures var r := Resolve(s, slot, withWeapon);
            if r.room[slot] == EMPTY then Pool(r) + multiset{s.room[slot]} == Pool(s)
            else Pool(r) == Pool(s)
  {
    var r := Resolve(s, slot, withWeapon);
    if r.room[slot] == EMPTY {
      assert r.room == s.room[slot := EMPTY];
      HeldClear(s.room, slot);
    } else {
      assert r.room == s.room;
    }
  }

  /** Fleeing and the deal that follows keep every card in play. */
  lemma FleePool(s: State)
    requires |s.room| == ROOM_SIZE && CountOccupied(s.room) == ROOM_SIZE && EMPTY !in s.deck
    ensures Pool(Flee(s)) == Pool(s)
  {
    var pushed := FleeFrom(s.room, s.deck, ROOM_SIZE - 1);
    FleeClears(s.room, s.deck, ROOM_SIZE - 1);
    FleeConserves(s.room, s.deck, ROOM_SIZE - 1);
    assert pushed.0 == EMPTY_ROOM;
    assert Held(pushed.0) == multiset{};
    assert EMPTY !in multiset(pushed.1) by {
      assert EMPTY !in Held(s.room) + multiset(s.deck);
    }
    var t := s.(room := pushed.0, deck := pushed.1);
    assert multiset(pushed.1) == Held(s.room) + multiset(s.deck);
    assert Pool(t) == Pool(s);
    DrawRoomConserves(t);
    assert Flee(s) == DrawRoom(t).(isFleeAvailable := false);
  }

  /** Fleeing puts the room on the back of the deck from slot 3 down to slot
      0, and the new room is the front of that deck. */
  lemma FleeOrderFacts(s: State)
    requires |s.room| == ROOM_SIZE && CountOccupied(s.room) == ROOM_SIZE
    ensures Flee(s).room + Flee(s).deck == s.deck + Reverse(s.room)
  {
    var pushed := FleeFrom(s.room, s.deck, ROOM_SIZE - 1);
    FleeClears(s.room, s.deck, ROOM_SIZE - 1);
    assert pushed.0 == EMPTY_ROOM;
    assert EMPTY !in s.room by {
      assert multiset(s.room)[EMPTY] == 0;
    }
    forall k | 0 <= k < ROOM_SIZE ensures s.room[k] != EMPTY {
      assert s.room[k] in s.room;
    }
    FleeOrder(s.room, s.deck, ROOM_SIZE - 1);
    assert s.room[..ROOM_SIZE] == s.room;
    FillEmptyRoom(pushed.0, pushed.1);
    var d := s.deck + Reverse(s.room);
    assert d == d[..ROOM_SIZE] + d[ROOM_SIZE..];
  }

  /** One action step never adds a card to play: fleeing keeps them all, and
      any other action takes out at most the card it was aimed at. */
  lemma PoolConserved(s: State, a: int)
    requires Wf(s) && EMPTY !in s.deck
    ensures var r := TakeAction(s, a).1;
            if a == FLEE then Pool(r) == Pool(s)
            else Pool(r) == Pool(s) || (IsLegal(s, a) && Pool(r) + multiset{s.room[a / 2]} == Pool(s))
  {
    if IsLegal(s, a) {
      if a == FLEE {
        FleePool(s);
      } else {
        ResolvePool(s, a / 2, a % 2 == 1);
        RedrawPool(Resolve(s, a / 2, a % 2 == 1));
      }
    }
  }

  /** The redraw after a card fills the room from the deck without adding or
      losing a card. */
  lemma RedrawPool(t: State)
    requires Wf(t) && EMPTY !in t.deck
    ensures Pool(AutoRedraw(t)) == Pool(t)
  {
    if t.hp > 0 && CountOccupied(t.room) == 1 && |t.deck| > 1 {
      DrawRoomConserves(t);
    }
  }

  // -------------------------------------------------------- the invariant

  /** A kill below the last kill keeps the stack strictly decreasing. */
  lemma PushKeepsOrder(ws: seq<Card>, c: Card)
    requires forall m, n | 0 <= m < n < |ws| :: Rank(ws[m]) > Rank(ws[n])
    requires |ws| == 0 || Rank(c) < Rank(ws[|ws| - 1])
    ensures forall m, n | 0 <= m < n < |ws + [c]| :: Rank((ws + [c])[m]) > Rank((ws + [c])[n])
  {
    forall m, n | 0 <= m < n < |ws + [c]|
      ensures Rank((ws + [c])[m]) > Rank((ws + [c])[n])
    {
      if n == |ws| {
        assert Rank(ws[m]) >= Rank(ws[|ws| - 1]);
      }
    }
  }

  /** Fighting, drinking and picking up keep health within 0..20. */
  lemma ResolveHp(s: State, slot: nat, withWeapon: bool)
    requires slot < |s.room| && HpInRange(s)
    ensures HpInRange(Resolve(s, slot, withWeapon))
  {
  }

  /** Resolving a card never brings a new card into play. */
  lemma ResolveCards(s: State, slot: nat, withWeapon: bool)
    requires slot < |s.room| && s.room[slot] != EMPTY && CardsValid(s)
    ensures CardsValid(Resolve(s, slot, withWeapon))
  {
    var t := Resolve(s, slot, withWeapon);
    ResolvePool(s, slot, withWeapon);
    assert Pool(t) <= Pool(s);
  }

  /** A weapon picked up is a real weapon with an empty stack; a kill joins
      the stack only below the last kill; a repair kit only pops. */
  lemma ResolveWeapon(s: State, slot: nat, withWeapon: bool)
    requires slot < |s.room| && s.room[slot] != EMPTY && CardsValid(s) && WeaponOk(s)
    requires withWeapon ==> IsWeaponKillable(s, s.room[slot])
    ensures WeaponOk(Resolve(s, slot, withWeapon))
  {
    var card := s.room[slot];
    CardsValidMeans(s);
    assert card in s.room;
    if IsEnemy(card) {
      FightWeapon(s, slot, withWeapon);
    } else {
      GearWeapon(s, slot, withWeapon);
    }
  }

  /** Fighting keeps the weapon, and a weapon kill lands below the last. */
  lemma FightWeapon(s: State, slot: nat, withWeapon: bool)
    requires slot < |s.room| && IsEnemy(s.room[slot]) && ValidCard(s.room[slot]) && WeaponOk(s)
    requires withWeapon ==> IsWeaponKillable(s, s.room[slot])
    ensures WeaponOk(Resolve(s, slot, withWeapon))
  {
    var card := s.room[slot];
    if withWeapon && s.hp >= Damage(s, card, true) {
      PushKeepsOrder(s.weaponStack, card);
    }
  }

  /** Any other card leaves the weapon alone, replaces it by a real weapon
      with an empty stack, or pops the stack. */
  lemma GearWeapon(s: State, slot: nat, withWeapon: bool)
    requires slot < |s.room| && !IsEnemy(s.room[slot]) && ValidCard(s.room[slot]) && WeaponOk(s)
    ensures WeaponOk(Resolve(s, slot, withWeapon))
  {
  }

  /** Every action step keeps the invariant. */
  lemma InvPreserved(s: State, a: int)
    requires Inv(s)
    ensures Inv(TakeAction(s, a).1)
  {
    if IsLegal(s, a) {
      if a == FLEE {
        FleeInv(s);
      } else {
        ResolveInv(s, a / 2, a % 2 == 1);
        RedrawInv(Resolve(s, a / 2, a % 2 == 1));
      }
    }
  }

  /** Fleeing keeps the invariant. */
  lemma FleeInv(s: State)
    requires Inv(s) && CanFlee(s)
    ensures Inv(Flee(s))
  {
    CardsValidMeans(s);
    FleePool(s);
  }

  /** Resolving a card keeps the invariant. */
  lemma ResolveInv(s: State, slot: nat, withWeapon: bool)
    requires Inv(s) && slot < ROOM_SIZE && s.room[slot] != EMPTY
    requires withWeapon ==> IsWeaponKillable(s, s.room[slot])
    ensures Inv(Resolve(s, slot, withWeapon))
  {
    ResolveHp(s, slot, withWeapon);
    ResolveCards(s, slot, withWeapon);
    ResolveWeapon(s, slot, withWeapon);
  }

  /** The automatic redraw keeps the invariant. */
  lemma RedrawInv(t: State)
    requires Inv(t)
    ensures Inv(AutoRedraw(t))
  {
    if t.hp > 0 && CountOccupied(t.room) == 1 && |t.deck| > 1 {
      CardsValidMeans(t);
      DrawRoomConserves(t);
    }
  }

  // ------------------------------------------------------------- effects

  /** Fighting an enemy: health drops by the damage but not below 0; when
      health covered the damage the enemy leaves the room (a weapon kill
      joins the stack), otherwise the player is left at 0 health facing the
      same room. */
  lemma FightEffect(s: State, a: int)
    requires Wf(s) && IsLegal(s, a) && a != FLEE && IsEnemy(s.room[a / 2])
    ensures var r := TakeAction(s, a).1;
            var card, withWeapon := s.room[a / 2], a % 2 == 1;
            var damage := Damage(s, card, withWeapon);
            && r.hp == Max(s.hp - damage, 0)
            && r.lastCard == card && r.weapon == s.weapon
            && r.weaponStack == (if s.hp >= damage && withWeapon then s.weaponStack + [card]
                                 else s.weaponStack)
            && (s.hp < damage ==> r.room == s.room && IsLost(r))
            && (s.hp >= damage && r.roomNum == s.roomNum ==> r.room[a / 2] == EMPTY)
  {
  }

  /** Picking up a weapon replaces the held one and empties the kill stack;
      a repair kit pops the last kill, if any. Health is untouched. */
  lemma GearEffect(s: State, a: int)
    requires Wf(s) && IsLegal(s, a) && a != FLEE
    requires IsWeapon(s.room[a / 2]) || IsRepairKit(s.room[a / 2])
    ensures var r := TakeAction(s, a).1;
            var card := s.room[a / 2];
            && r.hp == s.hp && r.lastCard == card
            && (IsWeapon(card) ==> r.weapon == card && r.weaponStack == [])
            && (IsRepairKit(card) ==>
                  (r.weapon == s.weapon
                   && r.weaponStack == if |s.weaponStack| > 0
                                       then s.weaponStack[..|s.weaponStack| - 1] else s.weaponStack))
  {
  }

  /** A potion is always used up, but only the first one in a room acts: a
      health potion heals by its rank up to 20. */
  lemma HealthPotionEffect(s: State, a: int)
    requires Wf(s) && IsLegal(s, a) && a != FLEE && IsHealthPotion(s.room[a / 2])
    ensures var r := TakeAction(s, a).1;
            && r.weapon == s.weapon && r.weaponStack == s.weaponStack
            && r.lastCard == s.room[a / 2]
            && r.hp == if s.isPotionEffective then Min(s.hp + Rank(s.room[a / 2]), MAX_HP) else s.hp
  {
  }

  /** A poison potion costs 10 health, down to 0, when it is the first potion
      of the room, and nothing otherwise. */
  lemma PoisonPotionEffect(s: State, a: int)
    requires Wf(s) && IsLegal(s, a) && a != FLEE && IsPoisonPotion(s.room[a / 2])
    ensures var r := TakeAction(s, a).1;
            && r.weapon == s.weapon && r.weaponStack == s.weaponStack
            && r.lastCard == s.room[a / 2]
            && r.hp == if s.isPotionEffective then Max(s.hp - 10, 0) else s.hp
  {
  }

  /** A weapon, a repair kit or a potion is always used up: it leaves play
      and no other card is lost or added. */
  lemma NonEnemyLeavesPlay(s: State, a: int)
    requires Wf(s) && IsLegal(s, a) && a != FLEE && EMPTY !in s.deck
    requires IsWeapon(s.room[a / 2]) || IsRepairKit(s.room[a / 2])
             || IsHealthPotion(s.room[a / 2]) || IsPoisonPotion(s.room[a / 2])
    ensures Pool(TakeAction(s, a).1) + multiset{s.room[a / 2]} == Pool(s)
  {
    var slot, withWeapon := a / 2, a % 2 == 1;
    assert Resolve(s, slot, withWeapon).room[slot] == EMPTY;
    ResolvePool(s, slot, withWeapon);
    RedrawPool(Resolve(s, slot, withWeapon));
  }

  /** After any potion, no potion acts again until a new room is dealt. */
  lemma PotionOncePerRoom(s: State, a: int)
    requires Wf(s) && IsLegal(s, a) && a != FLEE
    requires IsHealthPotion(s.room[a / 2]) || IsPoisonPotion(s.room[a / 2])
    ensures var r := TakeAction(s, a).1;
            r.isPotionEffective <==> r.roomNum == s.roomNum + 1
  {
  }

  /** The per-room flags: only dealing a new room turns them back on, and the
      room counter moves by at most one per step. */
  lemma FlagsResetOnlyByDraw(s: State, a: int)
    requires Wf(s)
    ensures var r := TakeAction(s, a).1;
            && (r.roomNum == s.roomNum || r.roomNum == s.roomNum + 1)
            && (r.isPotionEffective && !s.isPotionEffective ==> r.roomNum == s.roomNum + 1)
            && (r.isFleeAvailable && !s.isFleeAvailable ==> r.roomNum == s.roomNum + 1)
  {
    if IsLegal(s, a) && a != FLEE {
      ResolvePotionFlag(s, a / 2, a % 2 == 1);
    }
  }

  /** The converse: a step that deals a new room turns the potion flag on,
      and the flee flag too unless the new room came from fleeing. */
  lemma NewRoomResetsFlags(s: State, a: int)
    requires Wf(s)
    ensures var r := TakeAction(s, a).1;
            r.roomNum == s.roomNum + 1 ==> r.isPotionEffective && (r.isFleeAvailable <==> a != FLEE)
  {
  }

  /** Resolving a card never turns the potion flag on: only drinking touches
      it, and drinking turns it off. */
  lemma ResolvePotionFlag(s: State, slot: nat, withWeapon: bool)
    requires slot < |s.room|
    ensures Resolve(s, slot, withWeapon).isPotionEffective ==> s.isPotionEffective
  {
    var card := s.room[slot];
    if IsEnemy(card) {
      assert Resolve(s, slot, withWeapon) == Fight(s.(lastCard := card), slot, withWeapon);
    }
  }

  /** Fleeing deals a new room from the deck with the old room on its back
      (slot 3 first), keeps every card, the deck size and the player, and is
      not offered again in the new room. */
  lemma FleeEffect(s: State)
    requires Wf(s) && IsLegal(s, FLEE) && EMPTY !in s.deck
    ensures var r := TakeAction(s, FLEE).1;
            && r.room + r.deck == s.deck + Reverse(s.room)
            && Pool(r) == Pool(s) && |r.deck| == |s.deck|
            && r.roomNum == s.roomNum + 1 && !IsLegal(r, FLEE)
            && r.hp == s.hp && r.weapon == s.weapon && r.weaponStack == s.weaponStack
  {
    FleePool(s);
    FleeOrderFacts(s);
  }

  /** The step does not refuse actions in a lost run: a health potion still
      in the room, drunk first in the room, brings the player back above 0. */
  lemma PotionRevives(s: State, slot: nat)
    requires Inv(s) && IsLost(s) && slot < ROOM_SIZE
    requires IsHealthPotion(s.room[slot]) && s.isPotionEffective
    ensures IsLegal(s, 2 * slot)
    ensures !IsLost(TakeAction(s, 2 * slot).1)
    ensures TakeAction(s, 2 * slot).1.hp == Rank(s.room[slot])
  {
    assert (2 * slot) / 2 == slot && (2 * slot) % 2 == 0;
    EmptyHasNoRole();
  }

  // --------------------------------------------------------------- score

  lemma {:induction false} EnemyRankSumAppend(a: seq<Card>, b: seq<Card>)
    ensures EnemyRankSum(a + b) == EnemyRankSum(a) + EnemyRankSum(b)
  {
    if |a| == 0 {
      assert a + b == b;
    } else {
      assert (a + b)[0] == a[0];
      assert (a + b)[1..] == a[1..] + b;
      EnemyRankSumAppend(a[1..], b);
    }
  }

  /** The sum is at most 14 per card of the deck. */
  lemma {:induction false} EnemyRankSumBound(cards: seq<Card>)
    ensures EnemyRankSum(cards) <= 14 * |cards|
  {
    if |cards| > 0 {
      EnemyRankSumBound(cards[1..]);
    }
  }

  /** A lost run scores minus the enemy ranks left in play (at most 14 per
      card), a won run scores between 1 and 30, and a run still going scores
      0. */
  lemma ScoreRange(s: State)
    requires Inv(s)
    ensures IsLost(s) ==> Score(s) + EnemyRankSum(s.deck + s.room) == 0
    ensures IsLost(s) ==> -14 * (|s.deck| + ROOM_SIZE) <= Score(s) <= 0
    ensures IsWin(s) ==> 1 <= Score(s) <= MAX_HP + 10
    ensures !IsTerminal(s) ==> Score(s) == 0
  {
    EnemyRankSumAppend(s.deck, s.room);
    EnemyRankSumBound(s.deck + s.room);
  }
}
