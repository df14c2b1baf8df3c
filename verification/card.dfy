/** The card codec: a card is the integer `suit * 15 + rank`, and `0` is the
    empty slot. Every game role is a predicate on the suit and the rank. */
module Cards {

  const SPADES: nat := 1
  const HEARTS: nat := 2
  const DIAMONDS: nat := 3
  const CLUBS: nat := 4

  /** A packed card. The source only ever builds non-negative values. */
  type Card = nat

  /** The empty room slot / "no weapon" value. */
  const EMPTY: Card := 0

  function MakeCard(suit: nat, rank: nat): Card
  {
    suit * 15 + rank
  }

  function Suit(c: Card): nat
  {
    c / 15
  }

  function Rank(c: Card): nat
  {
    c % 15
  }

  /** A card of the 52-card deck: suit 1..4, rank 2..14 (11..14 are J, Q, K, A). */
  predicate ValidCard(c: Card)
  {
    1 <= Suit(c) <= 4 && 2 <= Rank(c) <= 14
  }

  predicate IsEnemy(c: Card)
  {
    Suit(c) == SPADES || Suit(c) == CLUBS
  }

  predicate IsPotion(c: Card)
  {
    Suit(c) == HEARTS
  }

  predicate IsHealthPotion(c: Card)
  {
    IsPotion(c) && 2 <= Rank(c) <= 10
  }

  predicate IsPoisonPotion(c: Card)
  {
    IsPotion(c) && 11 <= Rank(c) <= 14
  }

  predicate IsWeapon(c: Card)
  {
    Suit(c) == DIAMONDS && 2 <= Rank(c) <= 10
  }

  predicate IsRepairKit(c: Card)
  {
    Suit(c) == DIAMONDS && 11 <= Rank(c) <= 14
  }

  /** How many of the five game roles a card plays. */
  function RoleCount(c: Card): nat
  {
    (if IsEnemy(c) then 1 else 0) + (if IsWeapon(c) then 1 else 0)
    + (if IsRepairKit(c) then 1 else 0) + (if IsHealthPotion(c) then 1 else 0)
    + (if IsPoisonPotion(c) then 1 else 0)
  }

  /** The role a card plays in the game; `NoRole` for the empty card and for
      values outside the deck's suits. */
  datatype Role = Enemy | Weapon | RepairKit | HealthPotion | PoisonPotion | NoRole

  /** The role of a card, checked in the order the source checks them. Each
      role predicate holds exactly when the card is classified under it. */
  function RoleOf(c: Card): (r: Role)
    ensures r == Enemy <==> IsEnemy(c)
    ensures r == Weapon <==> IsWeapon(c)
    ensures r == RepairKit <==> IsRepairKit(c)
    ensures r == HealthPotion <==> IsHealthPotion(c)
    ensures r == PoisonPotion <==> IsPoisonPotion(c)
  {
    if IsEnemy(c) then Enemy
    else if IsWeapon(c) then Weapon
    else if IsRepairKit(c) then RepairKit
    else if IsHealthPotion(c) then HealthPotion
    else if IsPoisonPotion(c) then PoisonPotion
    else NoRole
  }

  /** Short name of a card: rank label then suit letter, `?` for anything
      outside the table (a suit outside 1..4, a rank outside 2..14). */
  function CardStr(c: Card): (r: string)
    ensures |r| == |RankStr(Rank(c))| + 1
    ensures r[|r| - 1] == SuitChar(Suit(c))
    ensures r[|r| - 1] == '?' <==> !(1 <= Suit(c) <= 4)
    ensures r[..|r| - 1] == "?" <==> !(2 <= Rank(c) <= 14)
  {
    RankStr(Rank(c)) + [SuitChar(Suit(c))]
  }

  function SuitChar(suit: nat): char
  {
    if 1 <= suit <= 4 then "SHDC"[suit - 1] else '?'
  }

  function RankStr(rank: nat): string
  {
    var labels := ["2", "3", "4", "5", "6", "7", "8", "9", "10", "J", "Q", "K", "A"];
    if 2 <= rank <= 14 then labels[rank - 2] else "?"
  }

  /** Packing then projecting gives back the suit and the rank. */
  lemma SuitRankRoundTrip(suit: nat, rank: nat)
    requires rank < 15
    ensures Suit(MakeCard(suit, rank)) == suit
    ensures Rank(MakeCard(suit, rank)) == rank
  {
    var c := suit * 15 + rank;
    assert c == 15 * suit + rank;
    DivModUnique(c, suit, rank);
  }

  lemma DivModUnique(c: nat, q: nat, m: nat)
    requires m < 15 && c == 15 * q + m
    ensures c / 15 == q && c % 15 == m
  {
  }

  /** Projecting then packing gives back the card. */
  lemma CardRoundTrip(c: Card)
    ensures MakeCard(Suit(c), Rank(c)) == c
  {
  }

  /** Distinct (suit, rank) pairs of the deck give distinct cards, so cards can
      be compared by value. */
  lemma MakeCardInjective(s1: nat, r1: nat, s2: nat, r2: nat)
    requires 1 <= s1 <= 4 && 2 <= r1 <= 14
    requires 1 <= s2 <= 4 && 2 <= r2 <= 14
    requires MakeCard(s1, r1) == MakeCard(s2, r2)
    ensures s1 == s2 && r1 == r2
  {
    SuitRankRoundTrip(s1, r1);
    SuitRankRoundTrip(s2, r2);
  }

  /** Every card of the deck plays exactly one role. */
  lemma ExactlyOneRole(c: Card)
    requires ValidCard(c)
    ensures RoleCount(c) == 1
  {
  }

  /** No card, in the deck or not, plays two roles: the chain of role tests
      in the action step fires at most once. */
  lemma RolesDisjoint(c: Card)
    ensures RoleCount(c) <= 1
  {
  }

  /** The empty card has suit 0 and rank 0 and plays no role. */
  lemma EmptyHasNoRole()
    ensures Suit(EMPTY) == 0 && Rank(EMPTY) == 0
    ensures RoleCount(EMPTY) == 0 && !IsPotion(EMPTY)
  {
  }

  /** On deck ranks a potion is a health potion or a poison potion, never both. */
  lemma PotionSplit(c: Card)
    requires 2 <= Rank(c) <= 14
    ensures IsPotion(c) <==> IsHealthPotion(c) || IsPoisonPotion(c)
    ensures !(IsHealthPotion(c) && IsPoisonPotion(c))
  {
  }
}
