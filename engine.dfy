/**
 * The game state object: its fields are updated in place by dealing, fleeing and playing cards.
 * Each method with a matching Rules function is proved to take the state's value to what that
 * function says, and the public operations to keep the invariant Rules.Inv. The dealing loop and
 * the monster count are specified directly on the fields.
 */
module Engine {
  import opened Cards
  import Rules

  class GameState {
    var playerHealth: int
    const maxHealth: int := Rules.MaxHealth
    var equippedWeapon: Option<Weapon>
    var currentRoom: seq<Card>
    var dungeon: seq<Card>
    var discard: seq<Card>
    var ranLastRoom: bool
    var potionUsedThisRoom: bool
    var gameOver: bool
    var victory: bool
    var cardsPlayedThisRoom: int

    /** The value of the fields. */
    function View(): Rules.State
      reads this
    {
      Rules.State(playerHealth, equippedWeapon, dungeon, currentRoom, discard,
                  ranLastRoom, potionUsedThisRoom, cardsPlayedThisRoom, gameOver, victory)
    }

    ghost predicate Valid()
      reads this
    {
      Rules.Inv(View())
    }

    /**
     * A new game. The shuffle is not modelled: `shuffled` is whatever order it produced, that is,
     * any permutation of the deck.
     */
    constructor (shuffled: seq<Card>)
      requires multiset(shuffled) == multiset(FullDeck())
      ensures View() == Rules.NewGame(shuffled)
      ensures Valid()
      ensures playerHealth == maxHealth == 20 && equippedWeapon == None && discard == []
      ensures !ranLastRoom && !potionUsedThisRoom && !gameOver && !victory && cardsPlayedThisRoom == 0
      ensures |currentRoom| == 4 && |dungeon| == 40 && currentRoom + dungeon == shuffled
    {
      playerHealth := Rules.MaxHealth;
      equippedWeapon := None;
      currentRoom := [];
      dungeon := [];
      discard := [];
      ranLastRoom := false;
      potionUsedThisRoom := false;
      gameOver := false;
      victory := false;
      cardsPlayedThisRoom := 0;
      new;
      SetupDungeon(shuffled);
      DealRoom();
      Rules.NewGameState(shuffled);
    }

    /** _setup_dungeon: the dungeon becomes a shuffled copy of a freshly built deck. */
    method SetupDungeon(shuffled: seq<Card>)
      requires multiset(shuffled) == multiset(FullDeck())
      modifies this
      ensures View() == old(View()).(dungeon := shuffled)
    {
      var deck := BuildDeck();
      assert multiset(shuffled) == multiset(deck);
      dungeon := shuffled;
    }

    /** deal_room, specified by Rules.DealRoom. */
    method DealRoom()
      modifies this
      ensures View() == Rules.DealRoom(old(View()))
    {
      ghost var s0 := View();
      potionUsedThisRoom := false;
      cardsPlayedThisRoom := 0;

      var kept: Option<Card> := None;
      if |currentRoom| > 0 {
        kept := Some(currentRoom[0]);
        currentRoom := [];
      }
      if kept.Some? {
        currentRoom := currentRoom + [kept.value];
      }
      assert currentRoom == Rules.Kept(s0.room);
      ghost var reset := s0.(potionUsed := false, cardsPlayed := 0);
      assert View() == reset.(room := Rules.Kept(s0.room));

      var cardsToDeal := Rules.RoomSize - |currentRoom|;
      if cardsToDeal > |dungeon| {
        currentRoom := currentRoom + dungeon;
        dungeon := [];
        assert View() == reset.(room := Rules.Kept(s0.room) + s0.dungeon, dungeon := []);
        CheckVictory();
        assert Rules.DealRoom(s0) == Rules.CheckVictory(reset.(room := Rules.Kept(s0.room) + s0.dungeon, dungeon := []));
      } else {
        DealFromDungeon(cardsToDeal);
        assert View() == reset.(room := Rules.Kept(s0.room) + s0.dungeon[..cardsToDeal], dungeon := s0.dungeon[cardsToDeal..]);
        assert Rules.DealRoom(s0) == View();
      }
    }

    /** The dealing loop of deal_room: the first `n` cards of the dungeon move, in order, to the room. */
    method DealFromDungeon(n: nat)
      requires n <= |dungeon|
      modifies this`currentRoom, this`dungeon
      ensures currentRoom == old(currentRoom) + old(dungeon)[..n]
      ensures dungeon == old(dungeon)[n..]
    {
      ghost var room0, dungeon0 := currentRoom, dungeon;
      for dealt := 0 to n
        invariant currentRoom == room0 + dungeon0[..dealt]
        invariant dungeon == dungeon0[dealt..]
      {
        assert dungeon0[..dealt + 1] == dungeon0[..dealt] + [dungeon[0]];
        currentRoom := currentRoom + [dungeon[0]];
        dungeon := dungeon[1..];
      }
    }

    /** run_from_room, specified by Rules.RunFromRoom. */
    method RunFromRoom() returns (ok: bool)
      modifies this
      ensures (ok, View()) == Rules.RunFromRoom(old(View()))
      ensures old(Valid()) ==> Valid()
    {
      ghost var before := View();
      if ranLastRoom {
        return false;
      }
      if cardsPlayedThisRoom > 0 {
        return false;
      }
      dungeon := dungeon + currentRoom;
      currentRoom := [];
      ranLastRoom := true;
      DealRoom();
      ok := true;
      if Rules.Inv(before) {
        Rules.RunFromRoomKeepsInv(before);
      }
    }

    /** play_card, specified by Rules.PlayCard. */
    method PlayCard(cardIndex: int, useWeapon: bool) returns (message: Rules.Message, success: bool)
      modifies this
      ensures (message, success, View()) == Rules.PlayCard(old(View()), cardIndex, useWeapon)
      ensures old(Valid()) ==> Valid()
    {
      ghost var before := View();
      if cardIndex < 0 || cardIndex >= |currentRoom| {
        return Rules.Message(Rules.InvalidIndex, false), false;
      }
      var card := currentRoom[cardIndex];
      var event := ResolveCard(card, useWeapon);

      currentRoom := currentRoom[..cardIndex] + currentRoom[cardIndex + 1..];
      discard := discard + [card];
      cardsPlayedThisRoom := cardsPlayedThisRoom + 1;
      assert View() == Rules.MoveToDiscard(Rules.Resolve(before, card, useWeapon).0, cardIndex);

      var entered := false;
      if cardsPlayedThisRoom >= 3 && |currentRoom| == 1 {
        ranLastRoom := false;
        DealRoom();
        entered := true;
      }
      message, success := Rules.Message(event, entered), true;
      if Rules.Inv(before) {
        Rules.PlayCardKeepsInv(before, cardIndex, useWeapon);
      }
    }

    /** The dispatch of play_card on the card's category, specified by Rules.Resolve. */
    method ResolveCard(card: Card, useWeapon: bool) returns (event: Rules.Event)
      modifies this
      ensures (View(), event) == Rules.Resolve(old(View()), card, useWeapon)
    {
      match Category(card) {
        case MonsterCard =>
          event := HandleMonster(card, useWeapon);
        case WeaponCard =>
          event := HandleWeapon(card);
        case PotionCard =>
          event := HandlePotion(card);
      }
    }

    /** _handle_monster, specified by Rules.HandleMonster. */
    method HandleMonster(monster: Card, useWeapon: bool) returns (event: Rules.Event)
      modifies this
      ensures (View(), event) == Rules.HandleMonster(old(View()), monster, useWeapon)
    {
      var weaponValue := 0;
      var canUseWeapon := false;
      if equippedWeapon.Some? && useWeapon {
        weaponValue := WeaponValue(equippedWeapon.value);
        canUseWeapon := CanDefeat(equippedWeapon.value, monster);
      }

      var damage := monster.value;
      var weaponUsed := false;
      if canUseWeapon {
        damage := Rules.Max(0, monster.value - weaponValue);
        weaponUsed := true;
        equippedWeapon := Some(Record(equippedWeapon.value, monster));
      }

      playerHealth := playerHealth - damage;
      if playerHealth <= 0 {
        gameOver := true;
        victory := false;
        return Rules.Fought(monster, damage, weaponUsed, true);
      }
      return Rules.Fought(monster, damage, weaponUsed, false);
    }

    /** _handle_weapon, specified by Rules.HandleWeapon. */
    method HandleWeapon(weaponCard: Card) returns (event: Rules.Event)
      modifies this
      ensures (View(), event) == Rules.HandleWeapon(old(View()), weaponCard)
    {
      equippedWeapon := Some(Weapon(weaponCard, None));
      return Rules.Equipped(weaponCard);
    }

    /** _handle_potion, specified by Rules.HandlePotion. */
    method HandlePotion(potion: Card) returns (event: Rules.Event)
      modifies this
      ensures (View(), event) == Rules.HandlePotion(old(View()), potion)
    {
      if potionUsedThisRoom {
        return Rules.PotionWasted(potion);
      }
      var healing := potion.value;
      var oldHealth := playerHealth;
      playerHealth := Rules.Min(maxHealth, playerHealth + healing);
      var actualHealing := playerHealth - oldHealth;
      potionUsedThisRoom := true;
      return Rules.Drank(potion, actualHealing);
    }

    /** _check_victory: scans the dungeon, then the room, for a monster. */
    method CheckVictory()
      modifies this
      ensures View() == Rules.CheckVictory(old(View()))
    {
      for i := 0 to |dungeon|
        invariant forall j :: 0 <= j < i ==> !IsMonster(dungeon[j])
      {
        if IsMonster(dungeon[i]) {
          return;
        }
      }
      for i := 0 to |currentRoom|
        invariant forall j :: 0 <= j < i ==> !IsMonster(currentRoom[j])
      {
        if IsMonster(currentRoom[i]) {
          return;
        }
      }
      gameOver := true;
      victory := true;
    }

    /** get_remaining_monster_count: the monsters in the dungeon and in the room. */
    method GetRemainingMonsterCount() returns (count: nat)
      ensures count == CountMonsters(dungeon) + CountMonsters(currentRoom)
    {
      count := 0;
      for i := 0 to |dungeon|
        invariant count == CountMonsters(dungeon[..i])
      {
        assert dungeon[..i + 1][..i] == dungeon[..i];
        if IsMonster(dungeon[i]) {
          count := count + 1;
        }
      }
      assert dungeon[..|dungeon|] == dungeon;
      for i := 0 to |currentRoom|
        invariant count == CountMonsters(dungeon) + CountMonsters(currentRoom[..i])
      {
        assert currentRoom[..i + 1][..i] == currentRoom[..i];
        if IsMonster(currentRoom[i]) {
          count := count + 1;
        }
      }
      assert currentRoom[..|currentRoom|] == currentRoom;
    }
  }
}
