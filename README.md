# Scoundrel rules engine in Dafny

This is a model of the rules engine of a Scoundrel solitaire game. Scoundrel is played with a 44-card deck:
- Clubs and Spades, values 2..14, are monsters.
- Diamonds, values 2..10, are weapons.
- Hearts, values 2..10, are health potions.

The player starts with 20 health. They face rooms of four cards dealt from the front of a shuffled dungeon. They can do two things:
- Flee a room. This is allowed before any play and not twice in a row; the room goes to the back of the dungeon.
- Play three of its cards. The fourth card is carried into the next room.

Playing a card works by category:
- A monster deals damage. With a usable weapon, the damage is reduced by the weapon's value.
- A weapon replaces the equipped one.
- A potion heals, capped at 20, once per room.

A weapon that has defeated a monster can afterwards only be used on strictly weaker monsters. A fight that brings health to zero or below ends the game as a defeat. Victory is checked only when a room is dealt and the dungeon cannot fill it: the game is then won if no monster is left in the dungeon or the room. Two consequences of this are modelled as the source has them:
- A game can end both lost and won (`Rules.LethalLastMonsterStillWins`).
- A game can run out of monsters without ever being won (`Rules.LastMonsterBeatenWithoutVictory`, `Rules.EmptyRoomIsFinal`).

The project has three modules:

- `cards.dfy`, module `Cards` (models `scoundrelc/game/card.py`):
  - suits, categories and cards;
  - display names, with a parser that inverts them;
  - the deck: a specification `FullDeck` plus the imperative `BuildDeck` with its nested loops, proved equal to it;
  - the weapon's durability rule.
- `rules.dfy`, module `Rules`: the value of a game (`State`) and one pure function per `GameState` operation. This module also holds the game invariant `Inv` and the lemmas about the rules:
  - card conservation: dungeon, room and discard pile always form a permutation of the deck;
  - monster accounting;
  - weapon durability;
  - potion healing;
  - the three-plays-per-room cycle;
  - two edge cases of victory detection.
- `engine.dfy`, module `Engine`: the class `GameState`, with the source's fields, updated in place.
  - Each method that has a matching `Rules` function is proved to take `View()` (the fields' value) to what that function prescribes.
  - The public operations are also proved to keep `Rules.Inv`.
  - `DealFromDungeon`, the dealing loop, is specified directly on the room and dungeon fields.
  - `GetRemainingMonsterCount` is specified by `Cards.CountMonsters`.

## Model

| member | source | states |
|---|---|---|
| Cards.Category | scoundrelc/game/card.py:27-34 | The category depends on the suit alone: Clubs or Spades give Monster, Diamonds give Weapon, Hearts give Potion. Each is stated as an if-and-only-if. |
| Cards.SuitOfGlyph | scoundrelc/game/card.py:9-13 | Reading a symbol gives a suit whose symbol it is. It gives None exactly for characters that are no suit's symbol. |
| Cards.GlyphRoundTrip | scoundrelc/game/card.py:9-13 | Every suit's symbol (Glyph) is read back as that suit, so the four symbols are distinct. |
| Cards.Name | scoundrelc/game/card.py:36-50 | A name is at least two characters long and ends with the card's suit symbol. |
| Cards.IntToStringRoundTrip | scoundrelc/game/card.py:39-40 | The decimal text of any integer, negative ones included, parses back to that integer. |
| Cards.NatToString | scoundrelc/game/card.py:40 | Python's str() of a natural number: a non-empty string of decimal digits, with no leading zero except for 0 itself ("0"). |
| Cards.IntToString | scoundrelc/game/card.py:40 | Python's str() of any integer: digits with no leading zero for a non-negative number, and a leading minus sign for a negative one. |
| Cards.NatToStringRoundTrip | scoundrelc/game/card.py:39-40 | The decimal text of a natural number parses back to it. |
| Cards.RankName | scoundrelc/game/card.py:38-48 | Values 0..10 are shown in decimal digits without a leading zero, and negative values with a leading minus sign. Every value of 11 or more is shown as a single character that is neither a digit nor a minus sign. |
| Cards.RankNameRoundTrip | scoundrelc/game/card.py:39-48 | For every value up to 14, the rank text is read back as that value. ParseRank accepts decimal text only up to 10 and maps only J/Q/K/A to 11/12/13/14. Together with RankName's contract, this fixes the face letters of 11..14. |
| Cards.NameRoundTrip | scoundrelc/game/card.py:36-50 | Parsing a card's name returns that card, for every card of value at most 14. |
| Cards.NameInjective | scoundrelc/game/card.py:36-50 | Two cards of value at most 14 with the same name are the same card. |
| Cards.HighValuesAreAces | scoundrelc/game/card.py:47-48 | Every value of 14 or more is displayed as "A" (the final else branch). |
| Cards.Run | scoundrelc/game/card.py:70-71 | A run holds exactly hi - lo cards, and card k is (suit, lo + k). |
| Cards.RunSnoc | scoundrelc/game/card.py:70-71 | One pass of the inner loop extends the run by the next card of the suit. |
| Cards.FullDeckAt | scoundrelc/game/card.py:62-76 | The deck has 44 cards. Each card is a legal deck card and sits at its computed position (Clubs, then Spades, Diamonds, Hearts, by increasing value). |
| Cards.DeckMembership | scoundrelc/game/card.py:62-76 | A card is in the deck exactly when it is a monster of value 2..14, or a Diamond or Heart of value 2..10. |
| Cards.DeckDistinct | scoundrelc/game/card.py:62-76 | The deck has 44 cards and no (suit, value) pair appears twice. |
| Cards.DeckComposition | scoundrelc/game/card.py:62-76 | The deck has 13 Clubs, 13 Spades, 9 Diamonds and 9 Hearts, hence 26 monsters. |
| Cards.BuildDeck | scoundrelc/game/card.py:62-76 | The nested loops produce exactly the deck, in construction order. |
| Cards.CountMonsters | scoundrelc/game/game.py:228-235 | The monsters in a sequence number at most its length. |
| Cards.CountMonstersAppend | scoundrelc/game/game.py:228-235 | Counting monsters adds up over concatenation. |
| Cards.CountMonstersPermutation | scoundrelc/game/game.py:223-237 | Any reordering of the cards keeps the monster count. |
| Cards.MonstersAreClubsAndSpades | scoundrelc/game/card.py:29-30 | The monster count is the Clubs count plus the Spades count. |
| Cards.Record | scoundrelc/game/game.py:152 | Recording a defeat keeps the weapon's card and sets its last defeated monster to that monster. |
| Cards.CanDefeatAfterRecord | scoundrelc/game/card.py:89-96 | After defeating m, the weapon can defeat exactly the monsters of value strictly below m's. |
| Cards.DefeatsStrictlyDecrease | scoundrelc/game/card.py:89-96 | The monsters a weapon defeats one after another have strictly decreasing values, all below its previous victim. |
| Rules.NoMonstersIffNoneCounted | scoundrelc/game/game.py:207-237 | The scan `_check_victory` does finds no monster exactly when `get_remaining_monster_count` counts zero. |
| Rules.CheckVictory | scoundrelc/game/game.py:207-221 | With no monster in the dungeon or the room, the game becomes over and won. Otherwise nothing changes. |
| Rules.Kept | scoundrelc/game/game.py:44-52 | At most one card is carried over, and it is the first card of a non-empty room. |
| Rules.Dropped | scoundrelc/game/game.py:44-52 | The room is the carried card followed by the cards deal_room drops. |
| Rules.DealRoom | scoundrelc/game/game.py:38-63 | deal_room's effect: see the details after this table. |
| Rules.FleeKeepsMonsters | scoundrelc/game/game.py:74-81 | Putting the room at the back of the dungeon, and then dealing, leaves the number of monsters left unchanged. |
| Rules.RunFromRoom | scoundrelc/game/game.py:65-83 | Fleeing succeeds exactly when the previous room was not fled and no card was played. A refusal changes nothing. On success: see the details after this table. |
| Rules.HandleMonster | scoundrelc/game/game.py:126-173 | The fight: see the details after this table. |
| Rules.HandleWeapon | scoundrelc/game/game.py:175-184 | The played card becomes a fresh weapon, whatever was equipped. A fresh weapon can defeat every monster. Nothing else changes. |
| Rules.HandlePotion | scoundrelc/game/game.py:186-205 | A second potion in a room changes nothing. Otherwise health becomes min(20, health + value), the reported healing is new minus old, and the room's potion flag is set. |
| Rules.Resolve | scoundrelc/game/game.py:103-109 | Dispatching on the category never touches the dungeon, room, discard pile, play counter or flee flag. |
| Rules.MoveToDiscard | scoundrelc/game/game.py:111-116 | The chosen card leaves the room, keeping the order of the rest, and is appended to the discard pile. The counter goes up by one and nothing else changes. |
| Rules.PlayCard | scoundrelc/game/game.py:85-124 | play_card's effect: see the details after this table. |
| Rules.DealRoomMovesCards | scoundrelc/game/game.py:44-63 | deal_room loses exactly the room cards after the first. Every other card stays in the dungeon, room or discard pile. |
| Rules.DealRoomConserves | scoundrelc/game/game.py:38-63 | From a room of at most one card, deal_room neither loses nor creates a card. |
| Rules.DealRoomKeepsInv | scoundrelc/game/game.py:38-63 | From a room of at most one card, deal_room keeps the game invariant. |
| Rules.RoomCardsInDeck | scoundrelc/game/game.py:100 | In a conserved state, every room card is a legal deck card. |
| Rules.MonstersAccountedFor | scoundrelc/game/game.py:223-237 | Remaining monsters plus discarded monsters always make the deck's 26. |
| Rules.DiscardNeverAddsMonsters | scoundrelc/game/game.py:112-113 | Discarding a card never increases the remaining monster count. |
| Rules.NewGameState | scoundrelc/game/game.py:13-36 | A new game from any shuffle of the deck starts with the state described after this table. |
| Rules.RunFromRoomKeepsInv | scoundrelc/game/game.py:65-83 | Fleeing keeps the invariant: conservation, the room-size bound, health at most 20, weapon from the deck, victory only when cleared, and health at or below 0 only in a game that is over. |
| Rules.ResolveKeepsInv | scoundrelc/game/game.py:103-109 | Resolving a room card keeps the invariant. |
| Rules.MoveToDiscardKeepsCards | scoundrelc/game/game.py:111-116 | Moving the played card to the discard pile keeps conservation and the other invariant parts. |
| Rules.PlayCardKeepsInv | scoundrelc/game/game.py:85-124 | Every play_card call, valid or not, keeps the invariant. This includes that health at or below 0 means the game is over, since only a fight lowers health and deck potions heal. |
| Rules.MonsterDamageBounds | scoundrelc/game/game.py:136-155 | Damage is between 0 and the monster's value. Choosing to use the weapon never leaves less health than fighting barehanded. |
| Rules.PlayCardDurability | scoundrelc/game/game.py:148-152 | A play leaves the weapon in one of three states: see the details after this table. |
| Rules.PotionHealing | scoundrelc/game/game.py:196-200 | A first potion heals between 0 and its value. Health stays at most 20, and healing falls short only when capped. |
| Rules.SecondPotionWasted | scoundrelc/game/game.py:192-194 | After one potion, a second in the same room is wasted and changes nothing. |
| Rules.RemoveAt | scoundrelc/game/game.py:112 | Removing position i and adding back that card gives the same multiset. |
| Rules.PlayWithinRoom | scoundrelc/game/game.py:97-124 | A valid play that does not clear the room succeeds and enters no new room. The room shrinks by one, the counter grows by one, and the played card moves from room to discard pile. |
| Rules.PlayClearingRoom | scoundrelc/game/game.py:115-122 | The third play with two cards left discards its card and enters a new room led by the other card, with the counters and flags reset. |
| Rules.ThreePlaysEnterNewRoom | scoundrelc/game/game.py:115-122 | From a fresh room of four, the first two plays stay in the room and the third enters a new one. The three played cards end in the discard pile and the fourth leads the new room. |
| Rules.LethalLastMonsterStillWins | scoundrelc/game/game.py:56-60 | Victory ignores health. A lethal fight as the third play, against the last monster with the dungeon too short to refill, ends with health at most 0 and the game both lost and won. |
| Rules.LastMonsterBeatenWithoutVictory | scoundrelc/game/game.py:54-63 | Victory is checked only while dealing. Dealing a last room whose only card is a monster does not win, and beating that monster leaves no monster anywhere, an empty room, and a game neither over nor won. |
| Rules.EmptyRoomIsFinal | scoundrelc/game/game.py:65-98 | Once a play has emptied the room, every card index and every flight is refused, so no operation changes the state again. |
| Engine.GameState.constructor | scoundrelc/game/game.py:13-36 | A new GameState's value is Rules.NewGame of the shuffled deck: health 20, no weapon, clear flags, 4 cards in the room and 40 in the dungeon. It satisfies the invariant. |
| Engine.GameState.SetupDungeon | scoundrelc/game/game.py:32-36 | The dungeon becomes the shuffled deck; nothing else changes. |
| Engine.GameState.DealRoom | scoundrelc/game/game.py:38-63 | The fields end as Rules.DealRoom of their old value. |
| Engine.GameState.DealFromDungeon | scoundrelc/game/game.py:62-63 | The pop(0)/append loop moves the first n dungeon cards, in order, to the end of the room. |
| Engine.GameState.RunFromRoom | scoundrelc/game/game.py:65-83 | The result and the new fields are Rules.RunFromRoom of the old value, and the invariant is kept. |
| Engine.GameState.PlayCard | scoundrelc/game/game.py:85-124 | The message, success flag and new fields are Rules.PlayCard of the old value, and the invariant is kept. |
| Engine.GameState.ResolveCard | scoundrelc/game/game.py:103-109 | Dispatching on the category changes the fields as Rules.Resolve does. |
| Engine.GameState.HandleMonster | scoundrelc/game/game.py:126-173 | The fields and the event follow Rules.HandleMonster, including the in-place durability update. |
| Engine.GameState.HandleWeapon | scoundrelc/game/game.py:175-184 | The fields and the event follow Rules.HandleWeapon. |
| Engine.GameState.HandlePotion | scoundrelc/game/game.py:186-205 | The fields and the event follow Rules.HandlePotion. |
| Engine.GameState.CheckVictory | scoundrelc/game/game.py:207-221 | The two early-return scans leave the fields as Rules.CheckVictory prescribes. |
| Engine.GameState.GetRemainingMonsterCount | scoundrelc/game/game.py:223-237 | The counting loops return the monsters in the dungeon plus those in the room. |

Definitions without a contract of their own, and the rows that state what they mean:
- `Cards.Glyph` (scoundrelc/game/card.py:9-13): Cards.SuitOfGlyph and Cards.GlyphRoundTrip.
- `Cards.CanDefeat` (scoundrelc/game/card.py:89-96): Cards.CanDefeatAfterRecord for a used weapon, Rules.HandleWeapon for a fresh one (it defeats every monster), and Cards.DefeatsStrictlyDecrease.
- `Cards.WeaponValue` (scoundrelc/game/card.py:85-87): Rules.HandleMonster's damage clause.
- `Rules.WeaponUsable` (scoundrelc/game/game.py:139-142): Rules.HandleMonster and Rules.MonsterDamageBounds.
- `Rules.RoomCleared` (scoundrelc/game/game.py:119): Rules.PlayCard's new-room clause.
- `Rules.NewGame` (scoundrelc/game/game.py:13-36): Rules.NewGameState and Engine.GameState.constructor.
- `Cards.SuitCount` is a counting helper for Cards.DeckComposition.
- `Cards.ParseNat`, `Cards.ParseInt`, `Cards.ParseRank`, `Cards.ParseName` are the reference parsers that the round-trip lemmas (Cards.NatToStringRoundTrip, Cards.IntToStringRoundTrip, Cards.RankNameRoundTrip, Cards.NameRoundTrip) read the display text back with.
- `Rules.Inv`, the game invariant, is the conjunction of its parts:
  - `Conserved`;
  - the room-size bound;
  - health at most 20;
  - `WeaponFromDeck`;
  - `VictoryMeansCleared`;
  - `DefeatEndsGame`.

  The constructor and Rules.NewGameState establish it. Rules.PlayCardKeepsInv and Rules.RunFromRoomKeepsInv keep it, and so do the engine's PlayCard and RunFromRoom.

Details for the longer rows:

- **Rules.DealRoom.** The per-room flag and counter are reset. The new room followed by the new dungeon is the room's first card followed by the old dungeon. The room holds min(4, available) cards, with the carried card first. Health, weapon, discard pile and flee flag are untouched. If the dungeon can fill the room, the game-over and victory flags are untouched, including when the dungeon is emptied exactly. If it cannot, the dungeon is emptied and victory is declared exactly when no monster remains.
- **Rules.HandleMonster.** The weapon is used exactly when asked for, equipped, and able to defeat the monster. With it, the damage is max(0, monster - weapon) and the weapon records the monster. Without it, the damage is the full value. Health drops by the damage. Health at or below 0 ends the game as a defeat and is reported; otherwise the flags are kept. Nothing else changes.
- **Rules.RunFromRoom.** On success:
  - the flee flag is set;
  - the new room followed by the dungeon is the old dungeon followed by the old room;
  - the room is refilled to min(4, available);
  - the per-room counters are reset;
  - health, weapon and discard pile are untouched, and so is the number of monsters left;
  - the game-over and victory flags each become set exactly when they were set already, or fewer than four cards were available and none of them was a monster.
- **Rules.PlayCard.** An index outside the room gives the invalid-index message, failure and no change. A valid index:
  - reports the handler's event;
  - appends the card to the discard pile, with health and weapon as resolved;
  - never clears a game-over flag;
  - enters a new room exactly when this was the third or later play and two cards were in the room.

  Without a new room, the room loses that card and the counter grows. The potion, game-over and victory flags are the handler's.

  With a new room:
  - the other card leads the new room, ahead of the dungeon;
  - the room is refilled to min(4, 1 + dungeon size);
  - the counters and the flee flag are cleared;
  - game over and victory each become set exactly when the handler set them, or the refill ran short and no monster is left.
- **Rules.NewGameState.** Health is 20, there is no weapon, every flag is clear and the counter is 0. The room holds 4 cards and the dungeon 40, room followed by dungeon is the shuffle, and the discard pile is empty. The invariant holds.
- **Rules.PlayCardDurability.** After a play, the weapon is one of:
  - unchanged;
  - a fresh weapon made from the Diamond just played;
  - the old weapon recording the monster just played, whose value is strictly below the previously recorded one.

## Left out

- The shuffle in `_setup_dungeon` (scoundrelc/game/game.py:36) is randomness. The constructor takes the shuffled order as a parameter constrained to be a permutation of the deck.
- The English text of the handlers' messages is not modelled. Each message is an `Event` carrying its numeric content (damage, weapon use, defeat, healing). The " You enter a new room." suffix is the `enteredNewRoom` flag of `Message`.
- `Card.__str__` is the display name `Cards.Name` and is not modelled separately. `Weapon.value` is the helper `Cards.WeaponValue`.
- The `Deck` class is not modelled as an object. Its `cards` list is the sequence `Cards.BuildDeck` returns, and `Deck.__init__` only calls that.
- Cards.Record: the source writes `last_monster_defeated` in place on the equipped weapon object (scoundrelc/game/game.py:152). The model replaces the equipped weapon value by an updated copy. The engine never shares a weapon object, so no aliasing is lost.
- Rules.PlayCard, Rules.HandleMonster: the source's default `use_weapon=True` (scoundrelc/game/game.py:85, 126) is not modelled. Callers always pass `useWeapon` explicitly.
- `max_health` is the constant 20 (`Rules.MaxHealth`) because nothing in the engine changes it.
- Neither `play_card` nor `run_from_room` checks `game_over`. The model keeps that, and the guard belongs to the user interface.
- Cards.NameRoundTrip and Cards.RankNameRoundTrip require a value of at most 14. Every larger value is also displayed as "A", so names cannot be inverted there (Cards.HighValuesAreAces).
- Rules.DealRoomConserves requires a room of at most one card. deal_room drops every room card after the first, and its callers only reach it with 0 or 1 cards (Rules.DealRoomMovesCards states the general case).
- The text user interface (scoundrelc/ui/tui.py), the package entry point and setup.py are not part of this model. They are presentation and packaging with no game rules.
