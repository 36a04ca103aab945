/**
 * The Scoundrel game rules as pure transitions over the value of a game's state.
 * Each function here is the specification the matching GameState method (module Engine) is proved against.
 */
module Rules {
  import opened Cards

  const MaxHealth := 20
  const RoomSize := 4

  /** The value held by a GameState's fields. */
  datatype State = State(
    health: int,
    weapon: Option<Weapon>,
    dungeon: seq<Card>,
    room: seq<Card>,
    discard: seq<Card>,
    ranLastRoom: bool,
    potionUsed: bool,
    cardsPlayed: int,
    gameOver: bool,
    victory: bool)

  /** What a played card did; the numeric content of the handlers' messages. */
  datatype Event =
    | InvalidIndex
    | Fought(monster: Card, damage: int, withWeapon: bool, defeated: bool)
    | Equipped(weaponCard: Card)
    | Drank(potion: Card, healed: int)
    | PotionWasted(potion: Card)

  /** The message play_card returns: the event, and whether a new room was entered after it. */
  datatype Message = Message(event: Event, enteredNewRoom: bool)

  function Min(a: int, b: int): int { if a <= b then a else b }

  function Max(a: int, b: int): int { if a >= b then a else b }

  // ---------------------------------------------------------------------
  // Monsters left, victory

  predicate NoMonsters(cards: seq<Card>)
  {
    forall i :: 0 <= i < |cards| ==> !IsMonster(cards[i])
  }

  lemma {:induction false} NoMonstersIffNoneCounted(cards: seq<Card>)
    ensures NoMonsters(cards) <==> CountMonsters(cards) == 0
    decreases |cards|
  {
    if cards != [] {
      var init := cards[..|cards| - 1];
      NoMonstersIffNoneCounted(init);
      if NoMonsters(cards) {
        assert forall i :: 0 <= i < |init| ==> init[i] == cards[i];
      }
      if CountMonsters(cards) == 0 {
        forall i | 0 <= i < |cards|
          ensures !IsMonster(cards[i])
        {
          if i < |init| {
            assert init[i] == cards[i];
          }
        }
      }
    }
  }

  /** get_remaining_monster_count: the monsters in the dungeon and in the room; the discard pile is not counted. */
  function RemainingMonsters(s: State): nat
  {
    CountMonsters(s.dungeon) + CountMonsters(s.room)
  }

  /** _check_victory: the game is won exactly when no monster is left in the dungeon or the room. */
  function CheckVictory(s: State): (r: State)
    ensures RemainingMonsters(s) == 0 ==> r == s.(gameOver := true, victory := true)
    ensures RemainingMonsters(s) > 0 ==> r == s
  {
    NoMonstersIffNoneCounted(s.dungeon);
    NoMonstersIffNoneCounted(s.room);
    if NoMonsters(s.dungeon) && NoMonsters(s.room) then s.(gameOver := true, victory := true) else s
  }

  // ---------------------------------------------------------------------
  // Dealing and fleeing

  /** The card of the previous room that survives into the next one: its first, if any. */
  function Kept(room: seq<Card>): (k: seq<Card>)
    ensures |k| <= 1
    ensures room != [] ==> k == [room[0]]
  {
    if room == [] then [] else [room[0]]
  }

  /** The cards of the previous room that deal_room drops: all but the first. */
  function Dropped(room: seq<Card>): (d: seq<Card>)
    ensures room == Kept(room) + d
  {
    if room == [] then [] else room[1..]
  }

  /**
   * deal_room: reset the per-room flags, keep the first card of the room, fill it up to four
   * cards from the front of the dungeon. A dungeon too short for that moves entirely into the
   * room, and only then is victory checked.
   */
  function DealRoom(s: State): (r: State)
    ensures r.room + r.dungeon == Kept(s.room) + s.dungeon
    ensures |r.room| == Min(RoomSize, |Kept(s.room)| + |s.dungeon|)
    ensures s.room != [] ==> r.room[0] == s.room[0]
    ensures !r.potionUsed && r.cardsPlayed == 0
    ensures r.health == s.health && r.weapon == s.weapon && r.discard == s.discard
    ensures r.ranLastRoom == s.ranLastRoom
    ensures |Kept(s.room)| + |s.dungeon| >= RoomSize ==> r.gameOver == s.gameOver && r.victory == s.victory
    ensures |Kept(s.room)| + |s.dungeon| < RoomSize ==>
      && r.dungeon == []
      && (r.victory <==> s.victory || RemainingMonsters(r) == 0)
      && (r.gameOver <==> s.gameOver || RemainingMonsters(r) == 0)
  {
    var kept := Kept(s.room);
    var reset := s.(potionUsed := false, cardsPlayed := 0);
    var toDeal := RoomSize - |kept|;
    if toDeal > |s.dungeon| then
      CheckVictory(reset.(room := kept + s.dungeon, dungeon := []))
    else
      assert kept + s.dungeon == kept + s.dungeon[..toDeal] + s.dungeon[toDeal..];
      reset.(room := kept + s.dungeon[..toDeal], dungeon := s.dungeon[toDeal..])
  }

  /** Putting the room at the back of the dungeon, and dealing from an empty room, keep the monsters left. */
  lemma FleeKeepsMonsters(s: State, fled: State)
    requires fled.dungeon == s.dungeon + s.room && fled.room == []
    ensures RemainingMonsters(fled) == RemainingMonsters(s)
    ensures RemainingMonsters(DealRoom(fled)) == RemainingMonsters(s)
  {
    var r := DealRoom(fled);
    assert Kept(fled.room) == [];
    assert r.room + r.dungeon == s.dungeon + s.room;
    CountMonstersAppend(s.dungeon, s.room);
    CountMonstersAppend(r.room, r.dungeon);
  }

  /**
   * run_from_room: refused, with nothing changed, after a flee from the previous room or once a
   * card has been played; otherwise the room goes to the back of the dungeon and a new one is dealt.
   */
  function RunFromRoom(s: State): (res: (bool, State))
    ensures res.0 <==> !s.ranLastRoom && s.cardsPlayed <= 0
    ensures !res.0 ==> res.1 == s
    ensures res.0 ==>
      && res.1.ranLastRoom
      && res.1.room + res.1.dungeon == s.dungeon + s.room
      && |res.1.room| == Min(RoomSize, |s.dungeon| + |s.room|)
      && res.1.cardsPlayed == 0 && !res.1.potionUsed
      && res.1.health == s.health && res.1.weapon == s.weapon && res.1.discard == s.discard
      && RemainingMonsters(res.1) == RemainingMonsters(s)
      && (res.1.gameOver <==> s.gameOver || (|s.dungeon| + |s.room| < RoomSize && RemainingMonsters(s) == 0))
      && (res.1.victory <==> s.victory || (|s.dungeon| + |s.room| < RoomSize && RemainingMonsters(s) == 0))
  {
    if s.ranLastRoom || s.cardsPlayed > 0 then (false, s)
    else
      var fled := s.(dungeon := s.dungeon + s.room, room := [], ranLastRoom := true);
      FleeKeepsMonsters(s, fled);
      (true, DealRoom(fled))
  }

  // ---------------------------------------------------------------------
  // Resolving one card

  /** The equipped weapon is used only when asked for, present, and able to defeat the monster. */
  predicate WeaponUsable(weapon: Option<Weapon>, monster: Card, useWeapon: bool)
  {
    useWeapon && weapon.Some? && CanDefeat(weapon.value, monster)
  }

  /**
   * _handle_monster: with a usable weapon the damage is what the monster exceeds the weapon by,
   * and the weapon records the monster; otherwise the damage is the monster's full value.
   * Health that drops to zero or below ends the game as a defeat.
   */
  function HandleMonster(s: State, monster: Card, useWeapon: bool): (res: (State, Event))
    ensures res.1.Fought? && res.1.monster == monster
    ensures res.1.withWeapon <==> WeaponUsable(s.weapon, monster, useWeapon)
    ensures res.1.damage == if res.1.withWeapon then Max(0, monster.value - WeaponValue(s.weapon.value)) else monster.value
    ensures res.0.health == s.health - res.1.damage
    ensures res.0.weapon == if res.1.withWeapon then Some(Record(s.weapon.value, monster)) else s.weapon
    ensures res.1.defeated <==> res.0.health <= 0
    ensures res.0.health <= 0 ==> res.0.gameOver && !res.0.victory
    ensures res.0.health > 0 ==> res.0.gameOver == s.gameOver && res.0.victory == s.victory
    ensures res.0.(health := s.health, weapon := s.weapon, gameOver := s.gameOver, victory := s.victory) == s
  {
    var usable := WeaponUsable(s.weapon, monster, useWeapon);
    var damage := if usable then Max(0, monster.value - WeaponValue(s.weapon.value)) else monster.value;
    var weapon := if usable then Some(Record(s.weapon.value, monster)) else s.weapon;
    var health := s.health - damage;
    if health <= 0 then
      (s.(health := health, weapon := weapon, gameOver := true, victory := false), Fought(monster, damage, usable, true))
    else
      (s.(health := health, weapon := weapon), Fought(monster, damage, usable, false))
  }

  /** _handle_weapon: the played card becomes the weapon, fresh, whatever was equipped before. */
  function HandleWeapon(s: State, card: Card): (res: (State, Event))
    ensures res.0 == s.(weapon := Some(Weapon(card, None))) && res.1 == Equipped(card)
    ensures forall m :: CanDefeat(res.0.weapon.value, m)
  {
    (s.(weapon := Some(Weapon(card, None))), Equipped(card))
  }

  /**
   * _handle_potion: one potion per room heals, capped at MaxHealth, and reports the health actually
   * gained; any further potion in the same room does nothing.
   */
  function HandlePotion(s: State, potion: Card): (res: (State, Event))
    ensures s.potionUsed ==> res == (s, PotionWasted(potion))
    ensures !s.potionUsed ==>
      && res.0 == s.(health := Min(MaxHealth, s.health + potion.value), potionUsed := true)
      && res.1 == Drank(potion, res.0.health - s.health)
  {
    if s.potionUsed then (s, PotionWasted(potion))
    else
      var health := Min(MaxHealth, s.health + potion.value);
      (s.(health := health, potionUsed := true), Drank(potion, health - s.health))
  }

  /** The handler play_card dispatches to, by the card's category. */
  function Resolve(s: State, card: Card, useWeapon: bool): (res: (State, Event))
    ensures res.0.dungeon == s.dungeon && res.0.room == s.room && res.0.discard == s.discard
    ensures res.0.cardsPlayed == s.cardsPlayed && res.0.ranLastRoom == s.ranLastRoom
  {
    match Category(card)
    case MonsterCard => HandleMonster(s, card, useWeapon)
    case WeaponCard => HandleWeapon(s, card)
    case PotionCard => HandlePotion(s, card)
  }

  /** A room that has had three plays and is down to its last card is left for a new one. */
  predicate RoomCleared(s: State)
  {
    s.cardsPlayed >= 3 && |s.room| == 1
  }

  /** The bookkeeping after a card is resolved: it leaves the room for the discard pile and is counted. */
  function MoveToDiscard(s: State, index: int): (r: State)
    requires 0 <= index < |s.room|
    ensures r.room == s.room[..index] + s.room[index + 1..]
    ensures r.discard == s.discard + [s.room[index]]
    ensures r.cardsPlayed == s.cardsPlayed + 1
    ensures r.(room := s.room, discard := s.discard, cardsPlayed := s.cardsPlayed) == s
  {
    s.(room := s.room[..index] + s.room[index + 1..],
       discard := s.discard + [s.room[index]],
       cardsPlayed := s.cardsPlayed + 1)
  }

  /**
   * play_card: an index outside the room is refused with nothing changed. Otherwise the card is
   * resolved, moved from the room to the discard pile and counted; after the third play with one
   * card left, flight is allowed again and a new room is dealt around that card.
   */
  function PlayCard(s: State, index: int, useWeapon: bool): (res: (Message, bool, State))
    ensures !(0 <= index < |s.room|) ==> res == (Message(InvalidIndex, false), false, s)
    ensures 0 <= index < |s.room| ==>
      var resolved := Resolve(s, s.room[index], useWeapon);
      && res.1
      && res.0.event == resolved.1
      && (res.0.enteredNewRoom <==> s.cardsPlayed + 1 >= 3 && |s.room| == 2)
      && res.2.discard == s.discard + [s.room[index]]
      && res.2.health == resolved.0.health && res.2.weapon == resolved.0.weapon
      && (s.gameOver ==> res.2.gameOver)
      && (!res.0.enteredNewRoom ==>
            && res.2.room == s.room[..index] + s.room[index + 1..]
            && res.2.dungeon == s.dungeon
            && res.2.cardsPlayed == s.cardsPlayed + 1
            && res.2.ranLastRoom == s.ranLastRoom
            && res.2.potionUsed == resolved.0.potionUsed
            && res.2.gameOver == resolved.0.gameOver && res.2.victory == resolved.0.victory)
      && (res.0.enteredNewRoom ==>
            && res.2.room + res.2.dungeon == [s.room[1 - index]] + s.dungeon
            && |res.2.room| == Min(RoomSize, 1 + |s.dungeon|)
            && res.2.room[0] == s.room[1 - index]
            && res.2.cardsPlayed == 0 && !res.2.potionUsed && !res.2.ranLastRoom
            && (res.2.gameOver <==> resolved.0.gameOver || (1 + |s.dungeon| < RoomSize && RemainingMonsters(res.2) == 0))
            && (res.2.victory <==> resolved.0.victory || (1 + |s.dungeon| < RoomSize && RemainingMonsters(res.2) == 0)))
  {
    if index < 0 || index >= |s.room| then (Message(InvalidIndex, false), false, s)
    else
      var resolved := Resolve(s, s.room[index], useWeapon);
      var played := MoveToDiscard(resolved.0, index);
      if RoomCleared(played) then
        assert played.room == [s.room[1 - index]];
        (Message(resolved.1, true), true, DealRoom(played.(ranLastRoom := false)))
      else
        (Message(resolved.1, false), true, played)
  }

  // ---------------------------------------------------------------------
  // A new game

  function Initial(shuffled: seq<Card>): State
  {
    State(MaxHealth, None, shuffled, [], [], false, false, 0, false, false)
  }

  /** GameState(): the shuffled deck becomes the dungeon and the first room is dealt. */
  function NewGame(shuffled: seq<Card>): State
  {
    DealRoom(Initial(shuffled))
  }

  // ---------------------------------------------------------------------
  // The invariant every reachable state keeps

  /** Every card of the deck, wherever it lies. */
  ghost function AllCards(s: State): multiset<Card>
  {
    multiset(s.dungeon) + multiset(s.room) + multiset(s.discard)
  }

  /** No card is created, lost or duplicated: the three piles together are the deck. */
  ghost predicate Conserved(s: State)
  {
    AllCards(s) == multiset(FullDeck())
  }

  /** An equipped weapon is one of the deck's Diamonds. */
  predicate WeaponFromDeck(s: State)
  {
    s.weapon.Some? ==> Category(s.weapon.value.card) == WeaponCard && InDeck(s.weapon.value.card)
  }

  /** A won game is over, with no monster left outside the discard pile. */
  predicate VictoryMeansCleared(s: State)
  {
    s.victory ==> s.gameOver && RemainingMonsters(s) == 0
  }

  /** Health at zero or below means the game is over: only a fight lowers health, and it ends the game there. */
  predicate DefeatEndsGame(s: State)
  {
    s.health <= 0 ==> s.gameOver
  }

  ghost predicate Inv(s: State)
  {
    && Conserved(s)
    && 0 <= s.cardsPlayed && |s.room| + s.cardsPlayed <= RoomSize
    && s.health <= MaxHealth
    && WeaponFromDeck(s)
    && VictoryMeansCleared(s)
    && DefeatEndsGame(s)
  }

  lemma RoomCardsInDeck(s: State, card: Card)
    requires Conserved(s)
    requires card in s.room
    ensures InDeck(card)
  {
    assert card in AllCards(s);
    DeckMembership(card);
  }

  /** deal_room moves cards between the dungeon and the room and loses exactly the dropped ones. */
  lemma DealRoomMovesCards(s: State)
    ensures AllCards(DealRoom(s)) + multiset(Dropped(s.room)) == AllCards(s)
  {
    var r := DealRoom(s);
    calc {
      multiset(r.room) + multiset(r.dungeon);
      multiset(r.room + r.dungeon);
      multiset(Kept(s.room) + s.dungeon);
      multiset(Kept(s.room)) + multiset(s.dungeon);
    }
    calc {
      multiset(s.room);
      multiset(Kept(s.room) + Dropped(s.room));
      multiset(Kept(s.room)) + multiset(Dropped(s.room));
    }
    calc {
      AllCards(r) + multiset(Dropped(s.room));
      multiset(r.dungeon) + multiset(r.room) + multiset(s.discard) + multiset(Dropped(s.room));
      (multiset(r.room) + multiset(r.dungeon)) + multiset(s.discard) + multiset(Dropped(s.room));
      (multiset(Kept(s.room)) + multiset(s.dungeon)) + multiset(s.discard) + multiset(Dropped(s.room));
      multiset(s.dungeon) + (multiset(Kept(s.room)) + multiset(Dropped(s.room))) + multiset(s.discard);
      AllCards(s);
    }
  }

  /** When the room it starts from holds at most one card, deal_room loses no card. */
  lemma DealRoomConserves(s: State)
    requires |s.room| <= 1
    ensures AllCards(DealRoom(s)) == AllCards(s)
  {
    DealRoomMovesCards(s);
    assert Dropped(s.room) == [];
  }

  /** deal_room from a room of at most one card keeps every part of the invariant. */
  lemma DealRoomKeepsInv(s: State)
    requires |s.room| <= 1
    requires Conserved(s) && s.health <= MaxHealth && WeaponFromDeck(s) && VictoryMeansCleared(s)
    requires DefeatEndsGame(s)
    ensures Inv(DealRoom(s))
  {
    var r := DealRoom(s);
    DealRoomConserves(s);
    assert Kept(s.room) == s.room;
    CountMonstersAppend(r.room, r.dungeon);
    CountMonstersAppend(s.room, s.dungeon);
    assert RemainingMonsters(r) == RemainingMonsters(s);
  }

  /** Monsters left plus monsters discarded is the deck's 26 monsters. */
  lemma MonstersAccountedFor(s: State)
    requires Conserved(s)
    ensures RemainingMonsters(s) + CountMonsters(s.discard) == 26
  {
    var all := s.dungeon + s.room + s.discard;
    assert multiset(all) == AllCards(s);
    CountMonstersPermutation(all, FullDeck());
    DeckComposition();
    CountMonstersAppend(s.dungeon + s.room, s.discard);
    CountMonstersAppend(s.dungeon, s.room);
  }

  /** Discarding one more card never makes the monsters left grow. */
  lemma DiscardNeverAddsMonsters(s: State, r: State, card: Card)
    requires Conserved(s) && Conserved(r)
    requires r.discard == s.discard + [card]
    ensures RemainingMonsters(r) <= RemainingMonsters(s)
  {
    MonstersAccountedFor(s);
    MonstersAccountedFor(r);
    assert r.discard[..|r.discard| - 1] == s.discard;
  }

  /** A new game: full health, no weapon, every flag clear, four cards in the room and forty in the dungeon. */
  lemma NewGameState(shuffled: seq<Card>)
    requires multiset(shuffled) == multiset(FullDeck())
    ensures var s := NewGame(shuffled);
      && s.health == MaxHealth && s.weapon == None
      && !s.ranLastRoom && !s.potionUsed && !s.gameOver && !s.victory && s.cardsPlayed == 0
      && |s.room| == RoomSize && |s.dungeon| == DeckSize - RoomSize && s.discard == []
      && s.room + s.dungeon == shuffled
      && Inv(s)
  {
    DeckDistinct();
    assert |shuffled| == |multiset(shuffled)| == |multiset(FullDeck())| == DeckSize;
    DealRoomKeepsInv(Initial(shuffled));
  }

  lemma RunFromRoomKeepsInv(s: State)
    requires Inv(s)
    ensures Inv(RunFromRoom(s).1)
  {
    if !s.ranLastRoom && s.cardsPlayed <= 0 {
      var fled := s.(dungeon := s.dungeon + s.room, room := [], ranLastRoom := true);
      assert AllCards(fled) == AllCards(s);
      assert VictoryMeansCleared(fled) by {
        CountMonstersAppend(s.dungeon, s.room);
      }
      DealRoomKeepsInv(fled);
    }
  }

  lemma ResolveKeepsInv(s: State, card: Card, useWeapon: bool)
    requires Inv(s) && card in s.room
    ensures Inv(Resolve(s, card, useWeapon).0)
  {
    RoomCardsInDeck(s, card);
    var r := Resolve(s, card, useWeapon).0;
    assert AllCards(r) == AllCards(s);
  }

  lemma MoveToDiscardKeepsCards(s: State, index: int)
    requires Inv(s) && 0 <= index < |s.room|
    ensures var r := MoveToDiscard(s, index);
      Conserved(r) && r.health <= MaxHealth && WeaponFromDeck(r) && VictoryMeansCleared(r)
      && DefeatEndsGame(r) && 0 <= r.cardsPlayed && |r.room| + r.cardsPlayed <= RoomSize
  {
    var r := MoveToDiscard(s, index);
    var card := s.room[index];
    assert AllCards(r) == AllCards(s) by {
      assert s.room == s.room[..index] + [card] + s.room[index + 1..];
      assert multiset(s.room) == multiset(s.room[..index]) + multiset{card} + multiset(s.room[index + 1..]);
    }
    DiscardNeverAddsMonsters(s, r, card);
  }

  lemma PlayCardKeepsInv(s: State, index: int, useWeapon: bool)
    requires Inv(s)
    ensures Inv(PlayCard(s, index, useWeapon).2)
  {
    if 0 <= index < |s.room| {
      var resolved := Resolve(s, s.room[index], useWeapon).0;
      ResolveKeepsInv(s, s.room[index], useWeapon);
      var played := MoveToDiscard(resolved, index);
      MoveToDiscardKeepsCards(resolved, index);
      if RoomCleared(played) {
        DealRoomKeepsInv(played.(ranLastRoom := false));
      }
    }
  }

  // ---------------------------------------------------------------------
  // Properties of single moves and of move sequences

  /** Damage is never negative and never more than the monster's value; using a weapon never costs more health. */
  lemma MonsterDamageBounds(s: State, monster: Card, useWeapon: bool)
    requires WeaponFromDeck(s) && monster.value >= 0
    ensures var e := HandleMonster(s, monster, useWeapon).1;
      0 <= e.damage <= monster.value
    ensures HandleMonster(s, monster, true).0.health >= HandleMonster(s, monster, false).0.health
  {
  }

  /**
   * Weapon durability over a whole play: the weapon is untouched, replaced by a fresh one made
   * from a played Diamond, or records the played monster, which is strictly weaker than the one it
   * recorded before.
   */
  lemma PlayCardDurability(s: State, index: int, useWeapon: bool)
    requires 0 <= index < |s.room|
    ensures var card, w := s.room[index], PlayCard(s, index, useWeapon).2.weapon;
      || w == s.weapon
      || (Category(card) == WeaponCard && w == Some(Weapon(card, None)))
      || (&& IsMonster(card) && useWeapon && s.weapon.Some?
          && w == Some(Record(s.weapon.value, card))
          && (s.weapon.value.lastMonsterDefeated.Some? ==>
                card.value < s.weapon.value.lastMonsterDefeated.value.value))
  {
  }

  /** A potion heals between nothing and its full value, never beyond MaxHealth, and is cut short only by the cap. */
  lemma PotionHealing(s: State, potion: Card)
    requires !s.potionUsed && s.health <= MaxHealth && potion.value >= 0
    ensures var (r, e) := HandlePotion(s, potion);
      && 0 <= e.healed <= potion.value
      && r.health <= MaxHealth
      && (e.healed == potion.value || r.health == MaxHealth)
  {
  }

  /** Only the first potion of a room has an effect. */
  lemma SecondPotionWasted(s: State, first: Card, second: Card)
    requires !s.potionUsed
    ensures var afterFirst := HandlePotion(s, first).0;
      HandlePotion(afterFirst, second) == (afterFirst, PotionWasted(second))
  {
  }

  lemma RemoveAt(cards: seq<Card>, i: int)
    requires 0 <= i < |cards|
    ensures multiset(cards[..i] + cards[i + 1..]) + multiset{cards[i]} == multiset(cards)
  {
    assert cards == cards[..i] + [cards[i]] + cards[i + 1..];
  }

  /** A valid play that does not clear the room moves exactly the played card from the room to the discard pile. */
  lemma PlayWithinRoom(s: State, index: int, useWeapon: bool)
    requires 0 <= index < |s.room|
    requires !(s.cardsPlayed + 1 >= 3 && |s.room| == 2)
    ensures var r := PlayCard(s, index, useWeapon);
      && r.1 && !r.0.enteredNewRoom
      && |r.2.room| == |s.room| - 1 && r.2.cardsPlayed == s.cardsPlayed + 1
      && multiset(r.2.discard) + multiset(r.2.room) == multiset(s.discard) + multiset(s.room)
  {
    RemoveAt(s.room, index);
  }

  /** The play that clears a room discards its card and starts the next room with the other one. */
  lemma PlayClearingRoom(s: State, index: int, useWeapon: bool)
    requires |s.room| == 2 && s.cardsPlayed + 1 >= 3 && 0 <= index < 2
    ensures var r := PlayCard(s, index, useWeapon);
      && r.1 && r.0.enteredNewRoom
      && r.2.cardsPlayed == 0 && !r.2.potionUsed && !r.2.ranLastRoom
      && |r.2.room| >= 1
      && multiset(r.2.discard) + multiset{r.2.room[0]} == multiset(s.discard) + multiset(s.room)
  {
    var resolved := Resolve(s, s.room[index], useWeapon).0;
    var played := MoveToDiscard(resolved, index);
    assert played.room == [s.room[1 - index]];
    assert RoomCleared(played);
    var dealt := DealRoom(played.(ranLastRoom := false));
    assert PlayCard(s, index, useWeapon) == (Message(Resolve(s, s.room[index], useWeapon).1, true), true, dealt);
    assert dealt.room[0] == s.room[1 - index];
    assert s.room == [s.room[0], s.room[1]];
    assert multiset(s.room) == multiset{s.room[index], s.room[1 - index]};
  }

  /**
   * A room of four is left after exactly three plays: the first two stay in the room, the third
   * enters a new one. The three played cards are discarded and the fourth starts the new room.
   */
  lemma ThreePlaysEnterNewRoom(s: State, i: int, j: int, k: int, w1: bool, w2: bool, w3: bool)
    requires |s.room| == RoomSize && s.cardsPlayed == 0
    requires 0 <= i < 4 && 0 <= j < 3 && 0 <= k < 2
    ensures var p1 := PlayCard(s, i, w1);
      var p2 := PlayCard(p1.2, j, w2);
      var p3 := PlayCard(p2.2, k, w3);
      && p1.1 && p2.1 && p3.1
      && !p1.0.enteredNewRoom && !p2.0.enteredNewRoom && p3.0.enteredNewRoom
      && p3.2.cardsPlayed == 0 && !p3.2.potionUsed && !p3.2.ranLastRoom
      && |p3.2.room| >= 1
      && multiset(p3.2.discard) + multiset{p3.2.room[0]} == multiset(s.discard) + multiset(s.room)
  {
    var p1 := PlayCard(s, i, w1);
    PlayWithinRoom(s, i, w1);
    var p2 := PlayCard(p1.2, j, w2);
    PlayWithinRoom(p1.2, j, w2);
    PlayClearingRoom(p2.2, k, w3);
  }

  /**
   * Victory is not gated on health: when the third play of a room is a lethal fight against the
   * last monster and the dungeon is too short to refill the room, the same call reports a defeat
   * and then deals a room whose victory check succeeds, so the state ends lost and won at once.
   */
  lemma LethalLastMonsterStillWins(s: State, index: int, useWeapon: bool)
    requires |s.room| == 2 && s.cardsPlayed == 2 && 0 <= index < 2
    requires IsMonster(s.room[index]) && !IsMonster(s.room[1 - index])
    requires s.weapon == None && s.health <= s.room[index].value
    requires |s.dungeon| < RoomSize - 1 && NoMonsters(s.dungeon)
    ensures var r := PlayCard(s, index, useWeapon);
      && r.0.event.Fought? && r.0.event.defeated
      && r.2.health <= 0 && r.2.gameOver && r.2.victory
  {
  }

  /**
   * Victory is checked only while dealing. When the dungeon is empty and the card carried into the
   * last room is a monster, the deal does not win; beating that monster then leaves no monster
   * anywhere, an empty room and one play counted, with the game neither won nor over.
   */
  lemma LastMonsterBeatenWithoutVictory(s: State, useWeapon: bool)
    requires s.room != [] && IsMonster(s.room[0]) && s.dungeon == []
    requires !s.gameOver && !s.victory && WeaponFromDeck(s) && 0 <= s.room[0].value < s.health
    ensures var d := DealRoom(s);
      var r := PlayCard(d, 0, useWeapon);
      && d.room == [s.room[0]] && !d.gameOver && !d.victory
      && r.1 && !r.0.enteredNewRoom && r.0.event.Fought? && !r.0.event.defeated
      && r.2.room == [] && r.2.dungeon == [] && RemainingMonsters(r.2) == 0
      && r.2.cardsPlayed == 1 && !r.2.gameOver && !r.2.victory
  {
  }

  /** Once a play has emptied the room, every index is refused and so is fleeing: no operation changes the state again. */
  lemma EmptyRoomIsFinal(s: State, index: int, useWeapon: bool)
    requires s.room == [] && s.cardsPlayed > 0
    ensures PlayCard(s, index, useWeapon) == (Message(InvalidIndex, false), false, s)
    ensures RunFromRoom(s) == (false, s)
  {
  }
}
