# Scoundrel engine, shuffler and translation table in Dafny

A model of the core of Scoundrel, a single-player dungeon card game played in
the browser. The player walks through rooms of four cards dealt from a
shuffled deck:

- spades and clubs are enemies;
- diamonds 2..10 are weapons and diamonds J..A are repair kits;
- hearts 2..10 are health potions and hearts J..A are poison potions.

Each action takes one card of the room. An enemy is fought bare-handed or with
the weapon. A weapon is equipped. A repair kit drops the last kill from the
weapon's stack. A potion heals or poisons, but only once per room. Fleeing
puts the whole room at the back of the deck. When one card is left in the
room, a new room is dealt.

The model covers:

- the card codec (`card.js`, module `Cards`);
- the seeded shuffle (`random.js`, module `Random`): the xmur3 string hash,
  the sfc32 generator and a backward Fisher-Yates pass;
- the engine class `Scoundrel` (`scoundrel_logic.js`), as pure functions over
  an immutable `State`:
  - module `Scoundrel` holds the operations;
  - module `EngineFacts` holds the invariant and the per-step properties;
  - module `Setup` holds the facts about the constructor;
- the pure helpers of the game screen (`game.js`, module `Game`): the
  first-room weapon swap, enemy damage, action descriptions, image names,
  room text and hints;
- whole runs (module `Runs`): `initGame` with and without the first-room
  weapon option, followed by any sequence of action ids;
- the translation layer (`i18n.js`, module `I18n`): the CSV reader, the
  table builder, and the fallback and `{name}` substitution of `t`, with the
  locale as a parameter.

Modelling choices:

- A card is a `nat`: `15 * suit + rank`, with 0 for an empty slot.
- Seeds are strings of UTF-16 code units (`seq<bv16>`, what `charCodeAt`
  reads).
- Every 32-bit operation of the generators is done on `bv32`. `Math.imul`,
  `| 0` and `>>> 0` all keep the same 32 bits, so they become wrapping
  `bv32` arithmetic.
- The float `rand()` is `t / 2^32`. The model computes
  `Math.floor(rand() * (i + 1))` exactly, as `t * (i + 1) div 2^32`.
- The engine step is `TakeAction(s, a)`. It returns the boolean the source
  returns and the new state.

Two facts about the game as written are proved rather than assumed:

- At ascension 0 the deck starts at 40 cards. Every step keeps the deck size
  modulo 3. The deck is therefore never empty, and an ascension-0 run can
  never be won (`Runs.AscensionZeroNeverWon`).
- A state of one shape stalls: alive, with an empty room and one card left
  in the deck, no action is offered and the run is not terminal
  (`Runs.StalledRun`). The model does not show that a run reaches such a
  state.

## Model

| member | source | states |
|---|---|---|
| Cards.RoleOf | card.js:18-40 | the role of a card is Enemy, Weapon, RepairKit, HealthPotion or PoisonPotion exactly when the matching predicate of the source holds, in both directions |
| Cards.MakeCard | card.js:6-8 | definition (`15 * suit + rank`); specified by Cards.SuitRankRoundTrip and Cards.MakeCardInjective |
| Cards.CardStr | card.js:42-46 | the text ends in one suit letter, `?` exactly when the suit is outside 1..4; the part before it is `?` exactly when the rank is outside 2..14; for real cards the text is pinned by Game.CardStrNamesCard |
| Cards.SuitRankRoundTrip | card.js:6-16 | `suit` and `rank` recover the suit and rank that `card` was built from, for every rank below 15 |
| Cards.CardRoundTrip | card.js:6-16 | rebuilding a card from its own suit and rank gives back the same card |
| Cards.MakeCardInjective | card.js:6-8 | two real cards built from different (suit, rank) pairs are different numbers |
| Cards.ExactlyOneRole | card.js:18-40 | every real card (suit 1..4, rank 2..14) has exactly one of the five roles |
| Cards.RolesDisjoint | card.js:18-40 | no card value at all has two roles |
| Cards.EmptyHasNoRole | card.js:10-40 | the empty slot 0 has suit 0 and rank 0, is not a potion and has no role |
| Cards.PotionSplit | card.js:22-32 | for ranks 2..14 a heart is a health potion or a poison potion, and never both |
| Random.RotlIsRotation | random.js:6-6 | the shift-and-or written out in xmur3 (by 13) and in sfc32 (by 21) is the 32-bit left rotation |
| Random.Rotl | random.js:6-6 | definition; specified by Random.RotlIsRotation |
| Random.MixChars | random.js:4-7 | definition of the hashing loop over the code units; used by Random.Xmur3State |
| Random.Xmur3State | random.js:2-7 | definition of the state the generator closes over; specified through Random.SeededFromDraws |
| Random.Xmur3Next | random.js:8-12 | definition of one generator call; specified through Random.Xmur3Draws and Random.SeededGenerator |
| Random.Sfc32Next | random.js:17-30 | definition of one sfc32 call; specified through Random.Sfc32Stream |
| Random.Xmur3Draws | random.js:8-12 | the values the hash generator hands out form a chain: the first is one step from the mixed state, and each next one is one step from the previous one |
| Random.DrawIndex | random.js:36-36 | the index drawn for position `i` is never above `i`, so the swap partner always lies in the unshuffled prefix |
| Random.Swap | random.js:37-37 | the destructuring swap exchanges the two positions, leaves every other position as it was, and keeps the multiset of elements |
| Random.Sfc32Stream | random.js:17-30 | the stream has the requested length and starts with the word of one generator call |
| Random.FisherYatesFrom | random.js:35-38 | the loop from position `i` down to 1 returns a permutation of its input of the same length |
| Random.FisherYates | random.js:34-40 | the shuffle is a permutation, and an input of length 0 or 1 comes back unchanged |
| Random.SeededGenerator | random.js:44-45 | the four sfc32 words are successive values of one xmur3 generator, the first one step from the hashed seed |
| Random.SeededFromDraws | random.js:2-13 | the sfc32 seed is exactly the first four values of one xmur3 run on the seed string |
| Random.Shuffle | random.js:43-48 | `shuffle` returns a permutation of a copy of its argument, and inputs of length 0 or 1 are unchanged |
| Random.ShuffleKeepsElements | random.js:43-48 | an element is in the shuffled sequence exactly when it is in the input |
| Scoundrel.Pool | scoundrel_logic.js:9-10 | definition (the cards of the deck and of the room); specified by EngineFacts.PoolConserved and Runs.RunShrinksPool |
| Scoundrel.CountOccupied | scoundrel_logic.js:185-191 | the count of occupied slots is the length of the room minus its number of empty slots |
| Scoundrel.SuitCards | scoundrel_logic.js:22-29 | the cards of one suit from a given rank on: their number (without the face cards of hearts and diamonds at ascension 0), each within the suit's range, none excluded, in strictly increasing order |
| Scoundrel.FreshDeck | scoundrel_logic.js:21-29 | the unshuffled deck has 44 cards at ascension 0 and 52 otherwise, all real cards, strictly increasing and so without duplicates; which cards it holds is Scoundrel.FreshMembers |
| Scoundrel.SuitMembers | scoundrel_logic.js:22-29 | a value is among one suit's cards from a given rank on exactly when it lies in the suit's range from that rank to 14 and the ascension does not exclude its rank |
| Scoundrel.FreshMembers | scoundrel_logic.js:21-29 | a value is in the unshuffled deck exactly when it is a real card whose rank the ascension does not exclude: every card above ascension 0, and at ascension 0 every card except the J..A of hearts and diamonds |
| Scoundrel.FreshZeroRoles | scoundrel_logic.js:22-29 | every card of the ascension-0 deck is an enemy, a weapon or a health potion, so no repair kit or poison potion is ever dealt there |
| Scoundrel.FreshLength | scoundrel_logic.js:22-29 | the four suits together give 44 cards at ascension 0 and 52 otherwise |
| Scoundrel.SuitSize | scoundrel_logic.js:22-28 | each suit gives 13 cards, except hearts and diamonds at ascension 0, which give 9 |
| Scoundrel.FreshOrder | scoundrel_logic.js:22-29 | pushing spades, hearts, diamonds and clubs in that order gives a strictly increasing sequence of real cards |
| Scoundrel.FreshNoEmpty | scoundrel_logic.js:22-29 | the fresh deck holds no empty-slot value |
| Scoundrel.Fill | scoundrel_logic.js:36-40 | filling keeps the room's size, and the deck loses exactly its front cards, one per empty slot |
| Scoundrel.FillSlots | scoundrel_logic.js:36-40 | an occupied slot keeps its card; an empty slot receives the deck card whose index is the number of empty slots before it, so slots fill in order from the front of the deck |
| Scoundrel.FillConserves | scoundrel_logic.js:36-40 | the cards in the filled room are the cards already there plus the front cards taken from the deck |
| Scoundrel.FillFull | scoundrel_logic.js:36-40 | when the deck holds only real cards, no slot stays empty |
| Scoundrel.DrawRoom | scoundrel_logic.js:35-45 | a draw advances the room number and sets both per-room flags, leaves health and weapon alone, and takes one deck card per empty slot |
| Scoundrel.DrawRoomConserves | scoundrel_logic.js:35-45 | a draw neither adds nor loses a card in play and leaves every slot occupied |
| Scoundrel.FillEmptyRoom | scoundrel_logic.js:36-40 | an empty room takes the first four deck cards in order |
| Scoundrel.Deal | scoundrel_logic.js:8-19 | the first deal: the room is the first four cards, the deck the rest, full health, no weapon, room 1, both flags set |
| Scoundrel.DealConserves | scoundrel_logic.js:32-32 | the first deal fills all four slots and keeps every card of the shuffled deck in play |
| Scoundrel.NewState | scoundrel_logic.js:5-33 | a new engine has four slots, 40 or 48 cards left in the deck and the initial field values, and its full room and deck hold exactly the cards of the fresh deck |
| Scoundrel.FleeClears | scoundrel_logic.js:48-53 | the flee loop empties slots 0..i and leaves the slots above untouched |
| Scoundrel.FleeConserves | scoundrel_logic.js:48-53 | every card taken out of the room lands on the deck: nothing is lost or added |
| Scoundrel.FleeCount | scoundrel_logic.js:48-53 | the deck grows by the number of occupied slots among 0..i |
| Scoundrel.FleeOrder | scoundrel_logic.js:48-53 | with the slots occupied, the deck gains the room's cards from slot i down to slot 0 |
| Scoundrel.Flee | scoundrel_logic.js:47-57 | fleeing deals a new room, advances the room number, sets the potion flag, clears the flee flag, and keeps health and weapon |
| Scoundrel.IsWeaponKillable | scoundrel_logic.js:193-200 | definition; specified through Scoundrel.PossibleActions and EngineFacts.FightWeapon |
| Scoundrel.CanFlee | scoundrel_logic.js:62-64 | definition; specified through Scoundrel.PossibleActions, Setup.InitRoom and EngineFacts.FleeEffect |
| Scoundrel.IsLegal | scoundrel_logic.js:59-78 | definition of the ids `getPossibleActions` lists; specified by Scoundrel.PossibleActions |
| Scoundrel.SlotActions | scoundrel_logic.js:66-75 | the ids offered from slot `i` on are exactly the legal ids at or above `2 * i`, in strictly increasing order |
| Scoundrel.PossibleActions | scoundrel_logic.js:59-78 | an id is listed exactly when it is legal (flee on a full room while allowed, `2i` for an occupied slot, `2i+1` for an enemy the weapon can kill), in strictly increasing order and so without repeats |
| Scoundrel.Damage | scoundrel_logic.js:96-107 | bare-handed damage is the enemy's rank; with the weapon it is the rank above the weapon's rank, floored at 0; it never exceeds the enemy's rank |
| Scoundrel.Fight | scoundrel_logic.js:94-116 | a fight lowers health by the damage floored at 0; the enemy leaves the room, and joins the weapon's stack when the weapon was used, exactly when health covered the damage; nothing else changes |
| Scoundrel.Drink | scoundrel_logic.js:131-145 | drinking removes the potion and clears the potion flag; health changes only if the flag was set |
| Scoundrel.Resolve | scoundrel_logic.js:90-145 | taking a card records it as the last card and changes only its own slot, which is emptied or kept; deck, room number and flee flag are untouched |
| Scoundrel.AutoRedraw | scoundrel_logic.js:147-149 | a new room is dealt exactly when the player is alive, one card is left in the room and the deck has more than one card, and then the state is the drawn room with both flags set; otherwise nothing changes |
| Scoundrel.TakeAction | scoundrel_logic.js:80-152 | the step returns true exactly for a legal action, a refused action changes nothing, and the room stays four slots with the deck size's residue modulo 3 kept |
| Scoundrel.EnemyRankSum | scoundrel_logic.js:160-164 | definition of the summed enemy ranks; specified by EngineFacts.EnemyRankSumAppend and EngineFacts.EnemyRankSumBound |
| Scoundrel.IsLost | scoundrel_logic.js:177-179 | definition; specified through EngineFacts.ScoreRange and Game.SurvivorStays |
| Scoundrel.IsWin | scoundrel_logic.js:181-183 | definition; specified through EngineFacts.ScoreRange and Runs.ResidueOneNeverWon |
| Scoundrel.IsTerminal | scoundrel_logic.js:154-156 | definition; specified through EngineFacts.ScoreRange and Runs.StalledRun |
| Scoundrel.Score | scoundrel_logic.js:158-175 | definition; specified by EngineFacts.ScoreRange |
| EngineFacts.ResolvePool | scoundrel_logic.js:90-145 | taking a card removes exactly that card from play when its slot empties, and otherwise keeps every card in play |
| EngineFacts.FleePool | scoundrel_logic.js:47-57 | fleeing keeps exactly the same cards in play |
| EngineFacts.FleeOrderFacts | scoundrel_logic.js:47-57 | after fleeing, the new room followed by the deck is the old deck followed by the room in reverse slot order |
| EngineFacts.PoolConserved | scoundrel_logic.js:80-152 | a step that flees keeps the cards in play; any other step keeps them or removes exactly the card acted on |
| EngineFacts.RedrawPool | scoundrel_logic.js:147-149 | the automatic redraw keeps exactly the same cards in play |
| EngineFacts.PushKeepsOrder | scoundrel_logic.js:101-104 | pushing a kill ranked below the last kill keeps the stack's ranks strictly decreasing |
| EngineFacts.ResolveHp | scoundrel_logic.js:94-145 | health stays within 0..20 whatever card is taken |
| EngineFacts.ResolveCards | scoundrel_logic.js:90-145 | taking a card leaves only real cards in play |
| EngineFacts.ResolveWeapon | scoundrel_logic.js:94-129 | taking a card keeps the weapon rules: a weapon card or none, no stack without a weapon, a stack of enemies in strictly decreasing rank |
| EngineFacts.FightWeapon | scoundrel_logic.js:94-116 | fighting an enemy the weapon may kill keeps the weapon rules |
| EngineFacts.GearWeapon | scoundrel_logic.js:118-145 | equipping a weapon, repairing, or drinking keeps the weapon rules |
| EngineFacts.InvPreserved | scoundrel_logic.js:80-152 | every step keeps the invariant: four slots, deck residue not 2, health in 0..20, real cards in play, and the weapon rules |
| EngineFacts.FleeInv | scoundrel_logic.js:47-57 | fleeing keeps the invariant |
| EngineFacts.ResolveInv | scoundrel_logic.js:90-145 | taking a legal card keeps the invariant |
| EngineFacts.RedrawInv | scoundrel_logic.js:147-149 | the automatic redraw keeps the invariant |
| EngineFacts.FightEffect | scoundrel_logic.js:94-116 | a fight's effect on health, weapon and stack; a survivor stays in the room and the player is then lost; a kill without a new room empties the slot |
| EngineFacts.GearEffect | scoundrel_logic.js:118-129 | a weapon replaces the weapon and clears the stack; a repair kit drops the last kill, if any; health does not change |
| EngineFacts.HealthPotionEffect | scoundrel_logic.js:131-137 | a health potion heals by its rank capped at 20 while the room's potion is unused, and does nothing to health otherwise |
| EngineFacts.PoisonPotionEffect | scoundrel_logic.js:139-145 | a poison potion costs 10 health floored at 0 while the room's potion is unused, and does nothing to health otherwise |
| EngineFacts.NonEnemyLeavesPlay | scoundrel_logic.js:118-149 | taking a weapon, a repair kit or a potion removes exactly that card from play, whether or not a new room follows |
| EngineFacts.PotionOncePerRoom | scoundrel_logic.js:131-149 | after any potion the potion flag is set exactly when a new room has been dealt |
| EngineFacts.FlagsResetOnlyByDraw | scoundrel_logic.js:42-56 | a step advances the room number by at most one, and the potion and flee flags are only ever turned back on by a new room |
| EngineFacts.NewRoomResetsFlags | scoundrel_logic.js:42-56 | a step that deals a new room sets the potion flag, and sets the flee flag exactly when the step was not a flee (the converse of EngineFacts.FlagsResetOnlyByDraw) |
| EngineFacts.ResolvePotionFlag | scoundrel_logic.js:131-145 | taking a card never turns the potion flag on |
| EngineFacts.FleeEffect | scoundrel_logic.js:85-88 | fleeing puts the room under the deck in reverse slot order, keeps the cards, the deck size and the player, and cannot be repeated in the new room |
| EngineFacts.PotionRevives | scoundrel_logic.js:131-137 | the step does not refuse actions at 0 health: an unused health potion is still offered and brings the player back to its rank |
| EngineFacts.EnemyRankSumAppend | scoundrel_logic.js:160-164 | the sum of enemy ranks over the deck and room together is the sum over each part |
| EngineFacts.EnemyRankSumBound | scoundrel_logic.js:160-164 | the enemy rank sum is at most 14 per card |
| EngineFacts.ScoreRange | scoundrel_logic.js:158-175 | a lost run scores minus the ranks of the enemies left, between -14 per card in play and 0; a won run scores 1..30; a running game scores 0 |
| Setup.FreshCardsValid | scoundrel_logic.js:22-29 | every card of a fresh deck is a real card |
| Setup.InitState | scoundrel_logic.js:5-33 | a new engine keeps the invariant and holds exactly the cards of the fresh deck |
| Setup.FreshStartInv | scoundrel_logic.js:8-16 | full health, no weapon and the fresh deck's cards give the invariant |
| Setup.InitRoom | scoundrel_logic.js:59-64 | a new engine starts with a full room from which fleeing is offered |
| Setup.NewStateWf | scoundrel_logic.js:21-33 | a new engine is well formed, with a deck size of residue 1 modulo 3 at ascension 0 and 0 otherwise |
| Game.FindIndex | game.js:243-243 | the result is the first index whose card satisfies the test, and there is none exactly when no card does |
| Game.EnsureWeaponFirstRoom | game.js:238-260 | the swap changes only room and deck: health, weapon, stack, room number and flags are kept |
| Game.EnsureWeaponNoOp | game.js:239-246 | a room that already has a weapon, or a deck without one, is left as it is |
| Game.EnsureWeaponMoves | game.js:248-259 | the first weapon of the deck replaces the first occupied slot, and the replaced card goes to the back of the deck |
| Game.EnsureWeaponIntoEmptyRoom | game.js:248-252 | in an empty room the first weapon of the deck goes to slot 0 |
| Game.EnsureWeaponConserves | game.js:238-260 | the swap keeps exactly the same cards in play, and keeps the deck size whenever the room has a card |
| Game.EnsureWeaponKeepsInv | game.js:238-260 | the swap keeps the engine invariant |
| Game.GetEnemyDamage | game.js:105-111 | the damage the screen shows is the damage the engine deals, between 0 and the enemy's rank |
| Game.BuildActionInfo | game.js:113-144 | there is no description exactly when the action is not a flee and the slot is empty |
| Game.InfoFollowsRole | game.js:120-143 | the description's kind is the card's role, it names the card, and it reports the stack and potion flag where the source does |
| Game.SurvivorStays | scoundrel_logic.js:94-116 | an enemy whose damage exceeds the player's health stays in the room, the deck is untouched, and the player is lost |
| Game.KilledLeaves | scoundrel_logic.js:94-116 | an enemy the player survives leaves play, and no other card is lost or added |
| Game.EnemySurvivesIff | scoundrel_logic.js:94-116 | the enemy stays in play exactly when its damage exceeds the player's health |
| Game.LethalAgreesWithEngine | game.js:120-130 | the screen marks an enemy action lethal exactly when the engine leaves the enemy in play, and the player is then lost; the method is the weapon exactly for odd ids |
| Game.NatToString | game.js:80-80 | `String(rank)` is a non-empty run of decimal digits without a leading zero |
| Game.NatToStringRoundTrip | game.js:80-80 | reading the digits back gives the number |
| Game.NatToStringInjective | game.js:80-80 | different numbers get different texts |
| Game.RankToLabel | game.js:69-82 | every rank gets a non-empty label |
| Game.RankToLabelInjective | game.js:69-82 | different ranks get different labels |
| Game.RankLabelsAgree | game.js:69-82 | for ranks 2..14 the label is the rank text of the card codec |
| Game.CardStrNamesCard | game.js:69-82 | for a real card the codec's short name is the screen's rank label followed by its suit letter |
| Game.SuitToLetter | game.js:24-37 | one letter, `X` exactly for a suit outside 1..4, and otherwise the codec's suit letter |
| Game.ImageParts | game.js:216-226 | the image path of a card is `cards/`, its suit letter, its rank label and `.png` |
| Game.BlankOnlyForEmpty | game.js:216-219 | the blank image is used exactly for the empty slot |
| Game.CardToImageInjective | game.js:216-226 | different real cards get different image paths |
| Game.CardToImage | game.js:216-226 | definition; specified by Game.ImageParts, Game.BlankOnlyForEmpty and Game.CardToImageInjective |
| Game.RoomToText | game.js:186-197 | definition; specified by Game.RoomToTextDistinguishes |
| Game.HintForCard | game.js:262-288 | definition; specified by Game.HintNamesRole |
| Game.RoomToTextDistinguishes | game.js:186-197 | two enemy counts get the same text exactly when they agree once capped at 3 |
| Game.HintNamesRole | game.js:262-288 | two cards get the same hint exactly when they have the same role, and the empty hint is for cards with no role |
| Runs.NewGame | game.js:453-462 | a new game has four slots and 40 or 48 cards in the deck, with or without the swap |
| Runs.WithOption | game.js:460-462 | the option's swap keeps the cards in play and the deck size, and with the option off the game is untouched |
| Runs.Play | scoundrel_logic.js:80-152 | a run of any actions keeps the state well formed and the deck size's residue modulo 3 |
| Runs.NewGameInv | game.js:458-462 | a new game keeps the invariant and holds exactly the cards of the fresh deck |
| Runs.SmallestWeaponInDeck | scoundrel_logic.js:22-29 | the two of diamonds is a weapon and is in every fresh deck |
| Runs.FirstRoomHasWeapon | game.js:458-462 | with the option on, the first room always holds a weapon |
| Runs.FreshStartHasWeapon | game.js:238-260 | after the swap, a first deal of a fresh deck offers a weapon |
| Runs.SwapOffersWeapon | game.js:238-260 | a full room with a weapon somewhere in play offers a weapon after the swap |
| Runs.WeaponReachesRoom | game.js:238-260 | names the slot that holds a weapon after the swap |
| Runs.RunKeepsInv | scoundrel_logic.js:80-152 | every run keeps the invariant |
| Runs.RunShrinksPool | scoundrel_logic.js:80-152 | no run brings a card into play |
| Runs.AscensionZeroNeverWon | scoundrel_logic.js:181-183 | at ascension 0 no run is ever won, whatever the seed, the option and the actions |
| Runs.ResidueOneNeverWon | scoundrel_logic.js:181-183 | from a deck size of residue 1 modulo 3 no run empties the deck |
| Runs.StalledRun | scoundrel_logic.js:154-156 | a state that is alive, with an empty room and one card in the deck, offers no action, refuses every action, and is not terminal |
| I18n.EndRow | i18n.js:45-50 | ending a line pushes the line as a row exactly when it is not blank, and starts an empty row and field |
| I18n.ReadRest | i18n.js:13-60 | definition of the reading loop; specified by I18n.ReadRestKeeps, the step lemmas and I18n.CsvRoundTrip |
| I18n.ReadRestKeeps | i18n.js:13-60 | rows once pushed are never removed, and every row the reader pushes is non-blank |
| I18n.ParseCsv | i18n.js:7-63 | no row of the result is blank (a single empty field) |
| I18n.ReadPlain | i18n.js:54-54 | text without quotes, commas or line breaks only extends the current field |
| I18n.PlainText | i18n.js:7-63 | a text without special characters parses as one row of one field, or as no rows when empty |
| I18n.OpenQuote | i18n.js:30-33 | a quote outside quotes opens a quoted field and adds nothing |
| I18n.CommaStep | i18n.js:35-39 | a comma outside quotes ends the field |
| I18n.DoubledQuote | i18n.js:17-20 | a doubled quote inside quotes adds one quote character |
| I18n.QuotedChar | i18n.js:24-26 | any other character inside quotes is added as it is |
| I18n.CloseQuote | i18n.js:21-23 | a single quote inside quotes closes the quoted part |
| I18n.ReadQuoted | i18n.js:16-28 | an escaped field and its closing quote read back as the original text |
| I18n.ReadField | i18n.js:16-33 | a quoted, escaped field reads back as the original text |
| I18n.ReadRow | i18n.js:16-39 | a row of quoted fields joined by commas reads back as its fields |
| I18n.ReadBreak | i18n.js:41-52 | `\n`, `\r` and `\r\n` each end the line once |
| I18n.ReadLine | i18n.js:13-55 | an encoded non-blank row and its line break add exactly that row |
| I18n.ReadFirstLine | i18n.js:13-55 | the first encoded line of a table adds exactly its first row |
| I18n.ReadRows | i18n.js:13-55 | encoded lines read back as their rows, in order |
| I18n.CsvRoundTrip | i18n.js:7-63 | parsing a table of non-blank rows written with quoted fields and any line break gives the table back |
| I18n.CsvRoundTripUnterminated | i18n.js:57-60 | the round trip also holds when the last line has no line break |
| I18n.BlankLineSkipped | i18n.js:41-52 | a blank line at the front adds no row |
| I18n.Lookup | i18n.js:142-143 | there is an entry exactly when the table has the locale and the key under it |
| I18n.Headers | i18n.js:70-75 | the headers match the first row, except a leading byte order mark is dropped from the first header |
| I18n.BuildTranslations | i18n.js:65-68 | no rows give the empty table |
| I18n.LastCol | i18n.js:84-92 | the last column (after the key column) whose header is the locale, or none exactly when no header is |
| I18n.LastRow | i18n.js:78-92 | the last row after the header row whose key is the given key, or none exactly when no row has it |
| I18n.AddCells | i18n.js:84-93 | definition of the column loop; specified by I18n.AddCellsLookup |
| I18n.AddRows | i18n.js:78-94 | definition of the row loop; specified by I18n.AddRowsLookup |
| I18n.AddCellsLookup | i18n.js:84-93 | adding one row's cells sets the entry for its key under every non-empty header, the last matching column winning, and leaves other entries alone |
| I18n.AddRowsLookup | i18n.js:78-94 | after the row loop, an entry exists exactly for a non-empty key and locale present in the file, and it is the cell of the last such row and column |
| I18n.TranslationsSpec | i18n.js:65-97 | the table's entry for a locale and a key is the cell of the last row with that key in the last column with that header, and there is none otherwise |
| I18n.FirstHeaderIgnored | i18n.js:70-84 | the header of the key column, with or without a byte order mark, does not affect the table |
| I18n.WordRun | i18n.js:146-146 | the run of `\w` characters a text starts with, and the character after it is not one |
| I18n.PlaceholderAt | i18n.js:146-146 | a `{name}` match at the front has a non-empty name and fits in the text |
| I18n.Substitute | i18n.js:146-151 | a text without `{` comes back unchanged |
| I18n.NoParamsIdentity | i18n.js:146-151 | with no parameters every placeholder stays as written, so the text is unchanged |
| I18n.LiteralPrefix | i18n.js:146-151 | literal text without `{` passes through, and substitution goes on after it |
| I18n.SlotPrefix | i18n.js:146-151 | a `{name}` becomes the parameter's text when the name is a parameter, and stays as written otherwise |
| I18n.SubstituteRenders | i18n.js:146-151 | substituting into a template written out gives the template with each slot filled from the parameters or kept as `{name}` |
| I18n.Translate | i18n.js:137-140 | an empty key translates to the empty text |
| I18n.EmptyEntryKept | i18n.js:142-144 | an entry that is the empty text is used as it is, with no fallback |
| I18n.TranslateReadsTable | i18n.js:141-142 | a key present in the file and a locale with a column give the cell of the file |
| I18n.TranslateFallsBackToEnglish | i18n.js:143-143 | a locale without a column falls back to the English cell |
| I18n.TranslateEchoesKey | i18n.js:144-151 | a key absent from the file comes back as the key itself, with its placeholders substituted |

## Left out

- The DOM and the game screen are not modelled: rendering, animations,
  card stacks, menus, options, `app.js`, `buildIntroText`, `cardToAlt`,
  `suitToName`, `suitToSymbol`, `rankToName`, and the debug
  `randomEnemyCard` (it uses `Math.random`).
- Fetching `translation.csv` (`ensureTranslations`) is not modelled. Neither
  are `getLocale`/`setLocale` with `localStorage`, or `applyTranslations`.
  The locale is a parameter of `I18n.Translate`, and the table is a value
  (an absent table is the empty one).
- `initGame`'s choice of seed (`Date.now()`), its reading of the options,
  and the conversion of a numeric seed with `String` are not modelled. The
  seed is given as a string, and the ascension as an integer.
- Random.DrawIndex: computed exactly on integers, not with doubles. The two
  agree while `i + 1 < 2^21`, which covers every deck here (at most 52
  cards).
- Scoundrel.DrawRoom: requires as many deck cards as empty slots. The source
  would put `undefined` into a slot from an empty deck. Every call in a run
  meets the requirement (`Scoundrel.Wf` gives it), so that path never occurs.
- Scoundrel.TakeAction: requires a well-formed state (four slots, deck size
  not 2 more than a multiple of 3). The constructor establishes it and every
  step keeps it (`Scoundrel.TakeAction`, `Setup.NewStateWf`).
- The `seed` and `ascension` fields of the class are not carried in the
  state. The ascension is only used when the deck is built.
- A lost run with no enemies left scores `-0` in the source. The model's
  score is the integer 0.
- The substitution's `String(params[name])` is not modelled: parameters are
  strings. Keys inherited from `Object.prototype` are not modelled either:
  tables and parameters are plain maps.
- `Headers` drops a byte order mark from the first header, but that header
  is the key column and is skipped by the row loop. The drop therefore never
  changes a table (`I18n.FirstHeaderIgnored`).
