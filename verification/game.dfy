/** The engine-side helpers of the game screen: the first-room weapon
    option, the damage preview and action description built before an
    action is taken, and the labels, image paths and hints shown for cards
    and rooms. */
module Game {
  import opened Common
  import opened Cards
  import opened Scoundrel
  import opened EngineFacts

  // ------------------------------------------------- first-room weapon

  /** `Array.prototype.findIndex`: the first index whose card satisfies `p`,
      `None` where the source gets -1. */
  function FindIndex(cards: seq<Card>, p: Card -> bool): (r: Option<nat>)
    ensures r.Some? ==> r.value < |cards| && p(cards[r.value])
    ensures r.Some? ==> forall k | 0 <= k < r.value :: !p(cards[k])
    ensures r.None? <==> forall k | 0 <= k < |cards| :: !p(cards[k])
  {
    if |cards| == 0 then None
    else if p(cards[0]) then Some(0)
    else match FindIndex(cards[1..], p)
      case None => None
      case Some(i) => Some(i + 1)
  }

  predicate Occupied(c: Card)
  {
    c != EMPTY
  }

  /** `ensureWeaponFirstRoom`: when the room holds no weapon, take the first
      weapon out of the deck and put it in the first occupied slot, whose card
      goes to the back of the deck; into slot 0 when the room is empty. */
  function EnsureWeaponFirstRoom(s: State): (r: State)
    requires |s.room| == ROOM_SIZE
    ensures |r.room| == ROOM_SIZE
    ensures r.hp == s.hp && r.weapon == s.weapon && r.weaponStack == s.weaponStack
    ensures r.roomNum == s.roomNum && r.lastCard == s.lastCard
    ensures r.isPotionEffective == s.isPotionEffective && r.isFleeAvailable == s.isFleeAvailable
  {
    if exists k | 0 <= k < ROOM_SIZE :: IsWeapon(s.room[k]) then s
    else match FindIndex(s.deck, IsWeapon)
      case None => s
      case Some(i) =>
        var weapon := s.deck[i];
        var deck := s.deck[..i] + s.deck[i + 1..];
        match FindIndex(s.room, Occupied)
          case None => s.(deck := deck, room := s.room[0 := weapon])
          case Some(j) =>
            var replaced := s.room[j];
            s.(deck := deck + (if replaced != EMPTY then [replaced] else []),
               room := s.room[j := weapon])
  }

  /** Nothing changes when the room already has a weapon or the deck has
      none. */
  lemma EnsureWeaponNoOp(s: State)
    requires |s.room| == ROOM_SIZE
    requires (exists k | 0 <= k < ROOM_SIZE :: IsWeapon(s.room[k]))
             || (forall k | 0 <= k < |s.deck| :: !IsWeapon(s.deck[k]))
    ensures EnsureWeaponFirstRoom(s) == s
  {
  }

  /** Otherwise the first weapon of the deck replaces the first occupied
      slot, the replaced card goes to the back of the deck, every other slot
      keeps its card, and afterwards the room holds a weapon. */
  lemma EnsureWeaponMoves(s: State, i: nat, j: nat)
    requires |s.room| == ROOM_SIZE
    requires forall k | 0 <= k < ROOM_SIZE :: !IsWeapon(s.room[k])
    requires i < |s.deck| && IsWeapon(s.deck[i]) && forall k | 0 <= k < i :: !IsWeapon(s.deck[k])
    requires j < ROOM_SIZE && s.room[j] != EMPTY && forall k | 0 <= k < j :: s.room[k] == EMPTY
    ensures EnsureWeaponFirstRoom(s).room == s.room[j := s.deck[i]]
    ensures EnsureWeaponFirstRoom(s).deck == s.deck[..i] + s.deck[i + 1..] + [s.room[j]]
    ensures IsWeapon(EnsureWeaponFirstRoom(s).room[j])
  {
    assert FindIndex(s.deck, IsWeapon) == Some(i);
    assert FindIndex(s.room, Occupied) == Some(j);
  }

  /** Moving the card at `i` of the deck into the empty slot `j`. */
  lemma MoveIntoEmptySlot(room: seq<Card>, deck: seq<Card>, i: nat, j: nat)
    requires i < |deck| && deck[i] != EMPTY && j < |room| && room[j] == EMPTY
    ensures Held(room[j := deck[i]]) + multiset(deck[..i] + deck[i + 1..])
            == Held(room) + multiset(deck)
  {
    assert deck == deck[..i] + [deck[i]] + deck[i + 1..];
    assert multiset(deck) == multiset(deck[..i] + deck[i + 1..]) + multiset{deck[i]};
    HeldPlace(room, j, deck[i]);
  }

  /** Swapping the card at `i` of the deck with the occupied slot `j`, the
      slot's card going to the back of the deck. */
  lemma SwapIntoSlot(room: seq<Card>, deck: seq<Card>, i: nat, j: nat)
    requires i < |deck| && deck[i] != EMPTY && j < |room| && room[j] != EMPTY
    ensures Held(room[j := deck[i]]) + multiset(deck[..i] + deck[i + 1..] + [room[j]])
            == Held(room) + multiset(deck)
  {
    assert deck == deck[..i] + [deck[i]] + deck[i + 1..];
    assert multiset(deck) == multiset(deck[..i] + deck[i + 1..]) + multiset{deck[i]};
    HeldClear(room, j);
    assert room[j := deck[i]] == room[j := EMPTY][j := deck[i]];
    HeldPlace(room[j := EMPTY], j, deck[i]);
  }

  /** Into an empty room the first weapon of the deck goes to slot 0. */
  lemma EnsureWeaponIntoEmptyRoom(s: State, i: nat)
    requires |s.room| == ROOM_SIZE && forall k | 0 <= k < ROOM_SIZE :: s.room[k] == EMPTY
    requires i < |s.deck| && IsWeapon(s.deck[i]) && forall k | 0 <= k < i :: !IsWeapon(s.deck[k])
    ensures EnsureWeaponFirstRoom(s).room == s.room[0 := s.deck[i]]
    ensures EnsureWeaponFirstRoom(s).deck == s.deck[..i] + s.deck[i + 1..]
  {
    EmptyHasNoRole();
    assert FindIndex(s.deck, IsWeapon) == Some(i);
    assert FindIndex(s.room, Occupied) == None;
  }

  lemma MovePool(s: State, i: nat)
    requires |s.room| == ROOM_SIZE && forall k | 0 <= k < ROOM_SIZE :: s.room[k] == EMPTY
    requires i < |s.deck| && IsWeapon(s.deck[i]) && forall k | 0 <= k < i :: !IsWeapon(s.deck[k])
    ensures Pool(EnsureWeaponFirstRoom(s)) == Pool(s)
  {
    EnsureWeaponIntoEmptyRoom(s, i);
    MovedPool(s, EnsureWeaponFirstRoom(s), i);
  }

  lemma MovedPool(s: State, r: State, i: nat)
    requires i < |s.deck| && IsWeapon(s.deck[i]) && |s.room| > 0 && s.room[0] == EMPTY
    requires r.room == s.room[0 := s.deck[i]] && r.deck == s.deck[..i] + s.deck[i + 1..]
    ensures Pool(r) == Pool(s)
  {
    EmptyHasNoRole();
    MoveIntoEmptySlot(s.room, s.deck, i, 0);
    assert Pool(r) == Held(r.room) + multiset(r.deck);
    assert Pool(s) == Held(s.room) + multiset(s.deck);
  }

  lemma SwapPool(s: State, i: nat, j: nat)
    requires |s.room| == ROOM_SIZE
    requires forall k | 0 <= k < ROOM_SIZE :: !IsWeapon(s.room[k])
    requires i < |s.deck| && IsWeapon(s.deck[i]) && forall k | 0 <= k < i :: !IsWeapon(s.deck[k])
    requires j < ROOM_SIZE && s.room[j] != EMPTY && forall k | 0 <= k < j :: s.room[k] == EMPTY
    ensures Pool(EnsureWeaponFirstRoom(s)) == Pool(s)
    ensures |EnsureWeaponFirstRoom(s).deck| == |s.deck|
  {
    EnsureWeaponMoves(s, i, j);
    SwappedPool(s, EnsureWeaponFirstRoom(s), i, j);
  }

  lemma SwappedPool(s: State, r: State, i: nat, j: nat)
    requires i < |s.deck| && IsWeapon(s.deck[i]) && j < |s.room| && s.room[j] != EMPTY
    requires r.room == s.room[j := s.deck[i]] && r.deck == s.deck[..i] + s.deck[i + 1..] + [s.room[j]]
    ensures Pool(r) == Pool(s) && |r.deck| == |s.deck|
  {
    EmptyHasNoRole();
    SwapIntoSlot(s.room, s.deck, i, j);
    assert Pool(r) == Held(r.room) + multiset(r.deck);
    assert Pool(s) == Held(s.room) + multiset(s.deck);
  }

  /** The swap keeps every card in play, and the deck keeps its size when the
      room had a card to give back. */
  lemma EnsureWeaponConserves(s: State)
    requires |s.room| == ROOM_SIZE
    ensures Pool(EnsureWeaponFirstRoom(s)) == Pool(s)
    ensures CountOccupied(s.room) > 0 ==> |EnsureWeaponFirstRoom(s).deck| == |s.deck|
  {
    var fi, fj := FindIndex(s.deck, IsWeapon), FindIndex(s.room, Occupied);
    if (exists k | 0 <= k < ROOM_SIZE :: IsWeapon(s.room[k])) || fi.None? {
      EnsureWeaponNoOp(s);
    } else if fj.None? {
      MovePool(s, fi.value);
      assert s.room == EMPTY_ROOM;
    } else {
      SwapPool(s, fi.value, fj.value);
    }
  }

  /** With the room occupied, as it is right after a deal, the swap keeps the
      engine invariant. */
  lemma EnsureWeaponKeepsInv(s: State)
    requires Inv(s) && CountOccupied(s.room) > 0
    ensures Inv(EnsureWeaponFirstRoom(s))
  {
    EnsureWeaponConserves(s);
  }

  // ------------------------------------------------ action descriptions

  /** How an enemy is fought. */
  datatype AttackMethod = WithWeapon | BareHanded

  /** `getEnemyDamage`: the enemy's rank bare-handed; with the weapon, what
      the weapon's rank (0 when unarmed) does not absorb, never negative. This
      is the damage the engine applies. */
  function GetEnemyDamage(s: State, card: Card, how: AttackMethod): (d: int)
    ensures d == Damage(s, card, how == WithWeapon)
    ensures 0 <= d <= Rank(card)
  {
    if how == WithWeapon then
      var weaponRank := if s.weapon != EMPTY then Rank(s.weapon) else 0;
      Max(Rank(card) - weaponRank, 0)
    else Rank(card)
  }

  /** What `buildActionInfo` reports about an action before it is taken. */
  datatype ActionInfo =
    | FleeInfo
    | EnemyInfo(card: Card, how: AttackMethod, lethal: bool)
    | WeaponInfo(card: Card)
    | RepairInfo(card: Card, hadStack: bool)
    | HealthInfo(card: Card, effective: bool)
    | PoisonInfo(card: Card, effective: bool)
    | TakeInfo(card: Card)

  /** JavaScript's `a % 2 === 1`: the remainder takes the sign of `a`, so only
      positive odd numbers qualify. */
  predicate IsOddJs(a: int)
  {
    a > 0 && a % 2 == 1
  }

  /** `buildActionInfo`: fleeing, nothing for an empty slot, otherwise a
      description by the card's role. */
  function BuildActionInfo(s: State, actionId: int, card: Card): (r: Option<ActionInfo>)
    ensures r.None? <==> actionId != FLEE && card == EMPTY
  {
    if actionId == FLEE then Some(FleeInfo)
    else if card == EMPTY then None
    else if IsEnemy(card) then
      var how := if IsOddJs(actionId) then WithWeapon else BareHanded;
      Some(EnemyInfo(card, how, s.hp < GetEnemyDamage(s, card, how)))
    else if IsWeapon(card) then Some(WeaponInfo(card))
    else if IsRepairKit(card) then Some(RepairInfo(card, |s.weaponStack| > 0))
    else if IsHealthPotion(card) then Some(HealthInfo(card, s.isPotionEffective))
    else if IsPoisonPotion(card) then Some(PoisonInfo(card, s.isPotionEffective))
    else Some(TakeInfo(card))
  }

  /** The role an action description is about. */
  function InfoRole(info: ActionInfo): Role
  {
    match info
    case FleeInfo => NoRole
    case EnemyInfo(_, _, _) => Enemy
    case WeaponInfo(_) => Weapon
    case RepairInfo(_, _) => RepairKit
    case HealthInfo(_, _) => HealthPotion
    case PoisonInfo(_, _) => PoisonPotion
    case TakeInfo(_) => NoRole
  }

  /** A card action is described by the card's role, with the stack and
      potion flags of the state it is taken in. */
  lemma InfoFollowsRole(s: State, actionId: int, card: Card)
    requires actionId != FLEE && card != EMPTY
    ensures BuildActionInfo(s, actionId, card).Some?
    ensures InfoRole(BuildActionInfo(s, actionId, card).value) == RoleOf(card)
    ensures BuildActionInfo(s, actionId, card).value.card == card
    ensures BuildActionInfo(s, actionId, card).value.RepairInfo? ==>
              BuildActionInfo(s, actionId, card).value.hadStack == (|s.weaponStack| > 0)
    ensures BuildActionInfo(s, actionId, card).value.HealthInfo?
            || BuildActionInfo(s, actionId, card).value.PoisonInfo? ==>
              BuildActionInfo(s, actionId, card).value.effective == s.isPotionEffective
  {
  }

  /** A fight health does not cover changes nothing but health, which drops
      to 0: no new room is dealt. */
  lemma SurvivorStays(s: State, a: int)
    requires Wf(s) && IsLegal(s, a) && a != FLEE && IsEnemy(s.room[a / 2])
    requires s.hp < Damage(s, s.room[a / 2], a % 2 == 1)
    ensures TakeAction(s, a).1.room == s.room && TakeAction(s, a).1.deck == s.deck
    ensures IsLost(TakeAction(s, a).1)
  {
  }

  /** A fight health covers takes the enemy out of play, whether or not a new
      room is dealt after it. */
  lemma KilledLeaves(s: State, a: int)
    requires Inv(s) && IsLegal(s, a) && a != FLEE && IsEnemy(s.room[a / 2])
    requires s.hp >= Damage(s, s.room[a / 2], a % 2 == 1)
    ensures Pool(TakeAction(s, a).1) + multiset{s.room[a / 2]} == Pool(s)
  {
    var slot, withWeapon := a / 2, a % 2 == 1;
    var t := Resolve(s, slot, withWeapon);
    CardsValidMeans(s);
    ResolvePool(s, slot, withWeapon);
    if t.hp > 0 && CountOccupied(t.room) == 1 && |t.deck| > 1 {
      DrawRoomConserves(t);
    }
  }

  /** The engine's kill rule, seen from the cards in play: a legal fight
      leaves every card in play exactly when health did not cover the damage,
      and then the player is at 0 health. */
  lemma EnemySurvivesIff(s: State, a: int)
    requires Inv(s) && IsLegal(s, a) && a != FLEE && IsEnemy(s.room[a / 2])
    ensures s.hp < Damage(s, s.room[a / 2], a % 2 == 1)
            <==> Pool(TakeAction(s, a).1) == Pool(s)
    ensures s.hp < Damage(s, s.room[a / 2], a % 2 == 1) ==> IsLost(TakeAction(s, a).1)
  {
    if s.hp < Damage(s, s.room[a / 2], a % 2 == 1) {
      SurvivorStays(s, a);
    } else {
      KilledLeaves(s, a);
      var p, q := Pool(TakeAction(s, a).1), Pool(s);
      assert |p| + 1 == |q|;
    }
  }

  /** For a legal action on an enemy, the preview agrees with the engine: the
      method is the weapon exactly for odd actions, and the action is marked
      lethal exactly when the engine leaves the enemy in play, the player at
      0 health. */
  lemma LethalAgreesWithEngine(s: State, a: int)
    requires Inv(s) && IsLegal(s, a) && a != FLEE && IsEnemy(s.room[a / 2])
    ensures var info := BuildActionInfo(s, a, s.room[a / 2]);
            && info.Some? && info.value.EnemyInfo?
            && (info.value.how == WithWeapon <==> a % 2 == 1)
            && (info.value.lethal <==> Pool(TakeAction(s, a).1) == Pool(s))
            && (info.value.lethal ==> IsLost(TakeAction(s, a).1))
  {
    EnemySurvivesIff(s, a);
  }

  // -------------------------------------------------------------- labels

  function DigitChar(d: nat): (c: char)
    requires d < 10
    ensures '0' <= c <= '9'
  {
    (48 + d) as char
  }

  /** `String(n)` for a non-negative integer: its decimal digits. */
  function NatToString(n: nat): (r: string)
    ensures |r| >= 1
    ensures forall k | 0 <= k < |r| :: '0' <= r[k] <= '9'
    ensures |r| > 1 ==> r[0] != '0'
  {
    if n < 10 then [DigitChar(n)] else NatToString(n / 10) + [DigitChar(n % 10)]
  }

  predicate AllDigits(s: string)
  {
    forall k | 0 <= k < |s| :: '0' <= s[k] <= '9'
  }

  /** Reading a string of decimal digits back as a number. */
  function ParseDecimal(s: string): nat
    requires AllDigits(s)
  {
    if |s| == 0 then 0
    else ParseDecimal(s[..|s| - 1]) * 10 + (s[|s| - 1] as int - 48)
  }

  lemma {:induction false} NatToStringRoundTrip(n: nat)
    ensures ParseDecimal(NatToString(n)) == n
  {
    if n >= 10 {
      NatToStringRoundTrip(n / 10);
      var r := NatToString(n);
      assert r[..|r| - 1] == NatToString(n / 10);
    }
  }

  /** Different numbers print differently. */
  lemma NatToStringInjective(m: nat, n: nat)
    requires NatToString(m) == NatToString(n)
    ensures m == n
  {
    NatToStringRoundTrip(m);
    NatToStringRoundTrip(n);
  }

  /** `rankToLabel`: J, Q, K, A for 11..14, the decimal number otherwise. */
  function RankToLabel(rank: nat): (r: string)
    ensures |r| >= 1
  {
    if rank == 11 then "J"
    else if rank == 12 then "Q"
    else if rank == 13 then "K"
    else if rank == 14 then "A"
    else NatToString(rank)
  }

  /** The label names the rank: different ranks get different labels. */
  lemma RankToLabelInjective(a: nat, b: nat)
    requires RankToLabel(a) == RankToLabel(b)
    ensures a == b
  {
    var la, lb := RankToLabel(a), RankToLabel(b);
    if 11 <= a <= 14 || 11 <= b <= 14 {
      assert la[0] == lb[0];
    } else {
      NatToStringInjective(a, b);
    }
  }

  /** On the ranks of the deck the screen label and the card codec's label
      coincide. */
  lemma RankLabelsAgree(rank: nat)
    requires 2 <= rank <= 14
    ensures RankToLabel(rank) == RankStr(rank)
  {
    if rank == 10 {
      assert NatToString(10) == NatToString(1) + [DigitChar(0)];
    }
  }

  /** For a real card the codec's short name is the screen's rank label
      followed by its suit letter: "10" for ten, J, Q, K, A for the faces. */
  lemma CardStrNamesCard(c: Card)
    requires ValidCard(c)
    ensures CardStr(c) == RankToLabel(Rank(c)) + SuitToLetter(Suit(c))
  {
    RankLabelsAgree(Rank(c));
  }

  /** `suitToLetter`: S, H, D, C, and X for anything else. */
  function SuitToLetter(suit: nat): (r: string)
    ensures |r| == 1
    ensures r == "X" <==> !(1 <= suit <= 4)
    ensures 1 <= suit <= 4 ==> r == [SuitChar(suit)]
  {
    if suit == SPADES then "S"
    else if suit == HEARTS then "H"
    else if suit == DIAMONDS then "D"
    else if suit == CLUBS then "C"
    else "X"
  }

  /** The blank card image, shown for an empty slot. */
  const BLANK_SRC: string := "cards/Blank.png"

  const IMAGE_DIR: string := "cards/"
  const IMAGE_EXT: string := ".png"

  /** `cardToImage`: the blank image for the empty slot, otherwise
      `cards/<suit letter><rank label>.png`. */
  function CardToImage(card: Card): (r: string)
  {
    if card == EMPTY then BLANK_SRC
    else IMAGE_DIR + SuitToLetter(Suit(card)) + RankToLabel(Rank(card)) + IMAGE_EXT
  }

  /** A card's image path carries its suit letter right after the
      directory and its rank label just before the extension. */
  lemma ImageParts(c: Card)
    requires c != EMPTY
    ensures |CardToImage(c)| == 11 + |RankToLabel(Rank(c))|
    ensures CardToImage(c)[6] == SuitToLetter(Suit(c))[0]
    ensures CardToImage(c)[7..|CardToImage(c)| - 4] == RankToLabel(Rank(c))
  {
    var l, r := SuitToLetter(Suit(c)), RankToLabel(Rank(c));
    var img := IMAGE_DIR + l + r + IMAGE_EXT;
    assert CardToImage(c) == img;
    assert img[7..|img| - 4] == r;
  }

  /** Only the empty slot shows the blank image. */
  lemma BlankOnlyForEmpty(c: Card)
    ensures CardToImage(c) == BLANK_SRC <==> c == EMPTY
  {
    if c != EMPTY {
      ImageParts(c);
      assert BLANK_SRC[6] == 'B';
    }
  }

  /** Cards of the four suits never share an image. */
  lemma CardToImageInjective(c1: Card, c2: Card)
    requires c1 != EMPTY && 1 <= Suit(c1) <= 4
    requires c2 != EMPTY && 1 <= Suit(c2) <= 4
    requires CardToImage(c1) == CardToImage(c2)
    ensures c1 == c2
  {
    ImageParts(c1);
    ImageParts(c2);
    assert SuitChar(Suit(c1)) == SuitChar(Suit(c2));
    RankToLabelInjective(Rank(c1), Rank(c2));
    CardRoundTrip(c1);
    CardRoundTrip(c2);
  }

  const QUIET: string := "The room is quiet."
  const ONE_ENEMY: string := "An enemy is in sight."
  const TWO_ENEMIES: string := "Enemies ahead."
  const PACKED: string := "This room is packed with enemies!"

  /** `roomToText`: the room description by number of enemies. */
  function RoomToText(enemyCount: int): (r: string)
  {
    if enemyCount == 0 then QUIET
    else if enemyCount == 1 then ONE_ENEMY
    else if enemyCount == 2 then TWO_ENEMIES
    else PACKED
  }

  /** Two enemy counts get the same text exactly when they agree up to 3:
      0, 1 and 2 each have their own text and 3 or more share one. */
  lemma RoomToTextDistinguishes(m: nat, n: nat)
    ensures RoomToText(m) == RoomToText(n) <==> Min(m, 3) == Min(n, 3)
  {
    assert QUIET[4] != ONE_ENEMY[4] && QUIET[4] != TWO_ENEMIES[4] && QUIET[4] != PACKED[4];
    assert ONE_ENEMY[4] != TWO_ENEMIES[4] && ONE_ENEMY[4] != PACKED[4];
    assert TWO_ENEMIES[4] != PACKED[4];
  }

  /** `hintForCard`: the role name of a card, "" for the empty slot and for a
      card without a role. */
  function HintForCard(card: Card): (r: string)
  {
    if card == EMPTY then ""
    else if IsEnemy(card) then "Enemy"
    else if IsWeapon(card) then "Weapon"
    else if IsRepairKit(card) then "Repair kit"
    else if IsHealthPotion(card) then "Health Potion"
    else if IsPoisonPotion(card) then "Poison Potion"
    else ""
  }

  /** The hint names the role: two cards get the same hint exactly when they
      play the same role, and the hint is empty exactly for role-less cards. */
  lemma HintNamesRole(c1: Card, c2: Card)
    ensures HintForCard(c1) == HintForCard(c2) <==> RoleOf(c1) == RoleOf(c2)
    ensures HintForCard(c1) == "" <==> RoleOf(c1) == NoRole
  {
    EmptyHasNoRole();
    var h1, h2 := HintForCard(c1), HintForCard(c2);
    if h1 == h2 && |h1| > 0 {
      assert h1[0] == h2[0];
      if h1[0] == 'P' || h1[0] == 'H' || h1[0] == 'R' || h1[0] == 'E' || h1[0] == 'W' {
        assert |h1| == |h2|;
      }
    }
  }
}
