/** Cards, the 44-card Scoundrel deck and the equipped weapon's durability rule. */
module Cards {

  datatype Option<T> = None | Some(value: T)

  datatype Suit = Clubs | Spades | Diamonds | Hearts

  datatype CardType = MonsterCard | WeaponCard | PotionCard

  /** A card is a plain value; any integer value can be built, the deck only holds 2..14. */
  datatype Card = Card(suit: Suit, value: int)

  /** The symbol each suit is displayed with. */
  function Glyph(s: Suit): char
  {
    match s
    case Clubs => '♣'
    case Spades => '♠'
    case Diamonds => '♦'
    case Hearts => '♥'
  }

  /** Inverse of Glyph: the suit a symbol stands for, or None for a character no suit is shown with. */
  function SuitOfGlyph(g: char): (r: Option<Suit>)
    ensures r.Some? ==> Glyph(r.value) == g
    ensures r.None? ==> forall s: Suit :: Glyph(s) != g
  {
    if g == '♣' then Some(Clubs)
    else if g == '♠' then Some(Spades)
    else if g == '♦' then Some(Diamonds)
    else if g == '♥' then Some(Hearts)
    else None
  }

  /** The category of a card is decided by its suit and by nothing else. */
  function Category(c: Card): (t: CardType)
    ensures t == MonsterCard <==> c.suit == Clubs || c.suit == Spades
    ensures t == WeaponCard <==> c.suit == Diamonds
    ensures t == PotionCard <==> c.suit == Hearts
  {
    match c.suit
    case Clubs => MonsterCard
    case Spades => MonsterCard
    case Diamonds => WeaponCard
    case Hearts => PotionCard
  }

  predicate IsMonster(c: Card)
  {
    Category(c) == MonsterCard
  }

  /** Every suit's symbol is read back as that suit, so no two suits share a symbol. */
  lemma GlyphRoundTrip(s: Suit)
    ensures SuitOfGlyph(Glyph(s)) == Some(s)
  {
  }

  // ---------------------------------------------------------------------
  // Display names

  predicate IsDigit(ch: char)
  {
    '0' <= ch <= '9'
  }

  predicate AllDigits(s: string)
  {
    forall i :: 0 <= i < |s| ==> IsDigit(s[i])
  }

  function DigitChar(d: int): (ch: char)
    requires 0 <= d < 10
    ensures IsDigit(ch)
  {
    (('0' as int) + d) as char
  }

  function DigitValue(ch: char): (d: nat)
    requires IsDigit(ch)
    ensures d < 10
  {
    (ch as int) - ('0' as int)
  }

  /** Decimal digits of a natural number, most significant first, as Python's str() prints them. */
  function NatToString(n: nat): (s: string)
    ensures |s| >= 1 && AllDigits(s)
    ensures n > 0 ==> s[0] != '0'
    ensures n == 0 ==> s == "0"
    decreases n
  {
    if n < 10 then [DigitChar(n)] else NatToString(n / 10) + [DigitChar(n % 10)]
  }

  /** Python's str() of an integer: a minus sign before the digits of a negative number. */
  function IntToString(n: int): (s: string)
    ensures |s| >= 1
    ensures n >= 0 ==> AllDigits(s) && (s[0] == '0' ==> s == "0")
    ensures n < 0 ==> s[0] == '-'
  {
    if n < 0 then "-" + NatToString(-n) else NatToString(n)
  }

  /** Reads back a non-empty string of decimal digits. */
  function ParseNat(s: string): nat
    requires |s| >= 1 && AllDigits(s)
    decreases |s|
  {
    if |s| == 1 then DigitValue(s[0])
    else ParseNat(s[..|s| - 1]) * 10 + DigitValue(s[|s| - 1])
  }

  function ParseInt(s: string): Option<int>
  {
    if |s| >= 2 && s[0] == '-' && AllDigits(s[1..]) then
      var magnitude: int := ParseNat(s[1..]);
      Some(-magnitude)
    else if |s| >= 1 && AllDigits(s) then Some(ParseNat(s))
    else None
  }

  lemma {:induction false} NatToStringRoundTrip(n: nat)
    ensures ParseNat(NatToString(n)) == n
  {
    if n >= 10 {
      NatToStringRoundTrip(n / 10);
      var s := NatToString(n);
      assert s[..|s| - 1] == NatToString(n / 10);
    }
  }

  lemma IntToStringRoundTrip(n: int)
    ensures ParseInt(IntToString(n)) == Some(n)
  {
    var s := IntToString(n);
    if n < 0 {
      var digits := NatToString(-n);
      assert s == "-" + digits;
      assert s[1..] == digits;
      assert |s| >= 2 && s[0] == '-' && AllDigits(s[1..]);
      NatToStringRoundTrip(-n);
    } else {
      assert AllDigits(s) && IsDigit(s[0]);
      assert s[0] != '-';
      NatToStringRoundTrip(n);
    }
  }

  /** The rank part of a card's name: digits up to 10, then J, Q, K, and A for every larger value. */
  function RankName(v: int): (s: string)
    ensures |s| >= 1
    ensures 0 <= v <= 10 ==> AllDigits(s) && (s[0] == '0' ==> s == "0")
    ensures v < 0 ==> s[0] == '-'
    ensures v >= 11 ==> |s| == 1 && !IsDigit(s[0]) && s[0] != '-'
  {
    if v <= 10 then IntToString(v)
    else if v == 11 then "J"
    else if v == 12 then "Q"
    else if v == 13 then "K"
    else "A"
  }

  /** A card's display name: its rank followed by its suit glyph. */
  function Name(c: Card): (s: string)
    ensures |s| >= 2 && s[|s| - 1] == Glyph(c.suit)
  {
    RankName(c.value) + [Glyph(c.suit)]
  }

  /** Inverse of RankName: a face letter, or the decimal text of a value of at most 10. */
  function ParseRank(r: string): Option<int>
  {
    if r == "J" then Some(11)
    else if r == "Q" then Some(12)
    else if r == "K" then Some(13)
    else if r == "A" then Some(14)
    else match ParseInt(r)
      case Some(v) => if v <= 10 then Some(v) else None
      case None => None
  }

  /** Inverse of Name on the values Name tells apart. */
  function ParseName(s: string): Option<Card>
  {
    if |s| == 0 then None
    else match SuitOfGlyph(s[|s| - 1])
      case None => None
      case Some(suit) =>
        match ParseRank(s[..|s| - 1])
        case None => None
        case Some(v) => Some(Card(suit, v))
  }

  lemma RankNameRoundTrip(v: int)
    requires v <= 14
    ensures ParseRank(RankName(v)) == Some(v)
  {
    if v <= 10 {
      var r := IntToString(v);
      IntToStringRoundTrip(v);
      if |r| == 1 {
        assert r == NatToString(v) && IsDigit(r[0]);
      }
      assert r != "J" && r != "Q" && r != "K" && r != "A";
    }
  }

  /** Every card of value at most 14 can be read back from its name. */
  lemma NameRoundTrip(c: Card)
    requires c.value <= 14
    ensures ParseName(Name(c)) == Some(c)
  {
    var s := Name(c);
    assert s[..|s| - 1] == RankName(c.value);
    RankNameRoundTrip(c.value);
  }

  /** Two cards of value at most 14 with the same name are the same card. */
  lemma NameInjective(a: Card, b: Card)
    requires a.value <= 14 && b.value <= 14
    requires Name(a) == Name(b)
    ensures a == b
  {
    NameRoundTrip(a);
    NameRoundTrip(b);
  }

  /** Every value above 13 is displayed as an ace. */
  lemma HighValuesAreAces(v: int)
    requires v >= 14
    ensures RankName(v) == "A"
  {
  }

  // ---------------------------------------------------------------------
  // The deck

  const DeckSize := 44

  /** The cards of one suit with values lo .. hi-1, in increasing order. */
  function Run(suit: Suit, lo: int, hi: int): (r: seq<Card>)
    requires lo <= hi
    ensures |r| == hi - lo
    ensures forall k :: 0 <= k < |r| ==> r[k] == Card(suit, lo + k)
  {
    seq(hi - lo, k => Card(suit, lo + k))
  }

  /** A run grows by appending its next card, as each pass of the inner deck-building loop does. */
  lemma RunSnoc(suit: Suit, lo: int, hi: int)
    requires lo <= hi
    ensures Run(suit, lo, hi + 1) == Run(suit, lo, hi) + [Card(suit, hi)]
  {
    assert Run(suit, lo, hi + 1)[..hi - lo] == Run(suit, lo, hi);
  }

  /** One run per suit, in the order the suits are listed. */
  function Runs(suits: seq<Suit>, lo: int, hi: int): seq<Card>
    requires lo <= hi
  {
    if suits == [] then [] else Runs(suits[..|suits| - 1], lo, hi) + Run(suits[|suits| - 1], lo, hi)
  }

  /** The deck in construction order: the monster suits with 2..14, then Diamonds and Hearts with 2..10. */
  function FullDeck(): seq<Card>
  {
    Runs([Clubs, Spades], 2, 15) + Runs([Diamonds, Hearts], 2, 11)
  }

  /** The cards the deck holds: monsters 2..14 (Ace is 14), weapons and potions 2..10. */
  predicate InDeck(c: Card)
  {
    if IsMonster(c) then 2 <= c.value <= 14 else 2 <= c.value <= 10
  }

  /** Position of a deck card in FullDeck. */
  function DeckIndex(c: Card): int
  {
    match c.suit
    case Clubs => c.value - 2
    case Spades => c.value + 11
    case Diamonds => c.value + 24
    case Hearts => c.value + 33
  }

  lemma FullDeckAt(i: int)
    requires 0 <= i < DeckSize
    ensures |FullDeck()| == DeckSize
    ensures InDeck(FullDeck()[i]) && DeckIndex(FullDeck()[i]) == i
  {
    var clubs, spades := Run(Clubs, 2, 15), Run(Spades, 2, 15);
    var diamonds, hearts := Run(Diamonds, 2, 11), Run(Hearts, 2, 11);
    assert Runs([Clubs, Spades], 2, 15) == clubs + spades by {
      assert [Clubs, Spades][..1] == [Clubs];
      assert Runs([Clubs], 2, 15) == clubs by { assert [Clubs][..0] == []; }
    }
    assert Runs([Diamonds, Hearts], 2, 11) == diamonds + hearts by {
      assert [Diamonds, Hearts][..1] == [Diamonds];
      assert Runs([Diamonds], 2, 11) == diamonds by { assert [Diamonds][..0] == []; }
    }
    assert FullDeck() == clubs + spades + diamonds + hearts;
  }

  /** Membership in the deck is exactly InDeck. */
  lemma DeckMembership(c: Card)
    ensures c in FullDeck() <==> InDeck(c)
  {
    FullDeckAt(0);
    if c in FullDeck() {
      var i :| 0 <= i < |FullDeck()| && FullDeck()[i] == c;
      FullDeckAt(i);
    }
    if InDeck(c) {
      var i := DeckIndex(c);
      assert 0 <= i < DeckSize by {
        match c.suit
        case Clubs =>
        case Spades =>
        case Diamonds =>
        case Hearts =>
      }
      FullDeckAt(i);
      var d := FullDeck()[i];
      assert d.suit == c.suit && d.value == c.value;
    }
  }

  /** The deck has 44 cards and no card twice. */
  lemma DeckDistinct()
    ensures |FullDeck()| == DeckSize
    ensures forall i, j :: 0 <= i < j < DeckSize ==> FullDeck()[i] != FullDeck()[j]
  {
    FullDeckAt(0);
    forall i, j | 0 <= i < j < DeckSize
      ensures FullDeck()[i] != FullDeck()[j]
    {
      FullDeckAt(i);
      FullDeckAt(j);
    }
  }

  /** Deck.cards after Deck._build_deck: the nested loops append each suit's run in turn. */
  method BuildDeck() returns (cards: seq<Card>)
    ensures cards == FullDeck()
  {
    cards := [];
    var monsterSuits := [Clubs, Spades];
    for i := 0 to |monsterSuits|
      invariant cards == Runs(monsterSuits[..i], 2, 15)
    {
      ghost var before := cards;
      for value := 2 to 15
        invariant cards == before + Run(monsterSuits[i], 2, value)
      {
        RunSnoc(monsterSuits[i], 2, value);
        cards := cards + [Card(monsterSuits[i], value)];
      }
      assert monsterSuits[..i + 1][..i] == monsterSuits[..i];
    }
    assert monsterSuits[..2] == monsterSuits;
    ghost var monsters := cards;
    var otherSuits := [Diamonds, Hearts];
    for i := 0 to |otherSuits|
      invariant cards == monsters + Runs(otherSuits[..i], 2, 11)
    {
      ghost var before := cards;
      for value := 2 to 11
        invariant cards == before + Run(otherSuits[i], 2, value)
      {
        RunSnoc(otherSuits[i], 2, value);
        cards := cards + [Card(otherSuits[i], value)];
      }
      assert otherSuits[..i + 1][..i] == otherSuits[..i];
    }
    assert otherSuits[..2] == otherSuits;
  }

  // ---------------------------------------------------------------------
  // Counting

  function SuitCount(cards: seq<Card>, s: Suit): (n: nat)
    ensures n <= |cards|
  {
    if cards == [] then 0
    else SuitCount(cards[..|cards| - 1], s) + (if cards[|cards| - 1].suit == s then 1 else 0)
  }

  function CountMonsters(cards: seq<Card>): (n: nat)
    ensures n <= |cards|
  {
    if cards == [] then 0
    else CountMonsters(cards[..|cards| - 1]) + (if IsMonster(cards[|cards| - 1]) then 1 else 0)
  }

  lemma {:induction false} SuitCountAppend(a: seq<Card>, b: seq<Card>, s: Suit)
    ensures SuitCount(a + b, s) == SuitCount(a, s) + SuitCount(b, s)
    decreases |b|
  {
    if b == [] {
      assert a + b == a;
    } else {
      assert (a + b)[..|a + b| - 1] == a + b[..|b| - 1];
      SuitCountAppend(a, b[..|b| - 1], s);
    }
  }

  lemma {:induction false} CountMonstersAppend(a: seq<Card>, b: seq<Card>)
    ensures CountMonsters(a + b) == CountMonsters(a) + CountMonsters(b)
    decreases |b|
  {
    if b == [] {
      assert a + b == a;
    } else {
      assert (a + b)[..|a + b| - 1] == a + b[..|b| - 1];
      CountMonstersAppend(a, b[..|b| - 1]);
    }
  }

  /** The monsters of a hand are its Clubs and its Spades. */
  lemma {:induction false} MonstersAreClubsAndSpades(cards: seq<Card>)
    ensures CountMonsters(cards) == SuitCount(cards, Clubs) + SuitCount(cards, Spades)
    decreases |cards|
  {
    if cards != [] {
      MonstersAreClubsAndSpades(cards[..|cards| - 1]);
    }
  }

  lemma {:induction false} SuitCountRun(suit: Suit, lo: int, hi: int, s: Suit)
    requires lo <= hi
    ensures SuitCount(Run(suit, lo, hi), s) == if suit == s then hi - lo else 0
    decreases hi - lo
  {
    if lo < hi {
      var r := Run(suit, lo, hi);
      assert r[..|r| - 1] == Run(suit, lo, hi - 1);
      SuitCountRun(suit, lo, hi - 1, s);
    }
  }

  lemma SuitCountRuns2(a: Suit, b: Suit, lo: int, hi: int, s: Suit)
    requires lo <= hi
    ensures SuitCount(Runs([a, b], lo, hi), s) == (if a == s then hi - lo else 0) + (if b == s then hi - lo else 0)
  {
    assert [a, b][..1] == [a];
    assert [a][..0] == [];
    assert Runs([a], lo, hi) == Run(a, lo, hi);
    SuitCountAppend(Run(a, lo, hi), Run(b, lo, hi), s);
    SuitCountRun(a, lo, hi, s);
    SuitCountRun(b, lo, hi, s);
  }

  /** Deck composition: 13 Clubs, 13 Spades, 9 Diamonds, 9 Hearts, hence 26 monsters. */
  lemma DeckComposition()
    ensures SuitCount(FullDeck(), Clubs) == 13 && SuitCount(FullDeck(), Spades) == 13
    ensures SuitCount(FullDeck(), Diamonds) == 9 && SuitCount(FullDeck(), Hearts) == 9
    ensures CountMonsters(FullDeck()) == 26
  {
    var m, o := Runs([Clubs, Spades], 2, 15), Runs([Diamonds, Hearts], 2, 11);
    forall s: Suit
      ensures SuitCount(FullDeck(), s) == SuitCount(m, s) + SuitCount(o, s)
    {
      SuitCountAppend(m, o, s);
    }
    SuitCountRuns2(Clubs, Spades, 2, 15, Clubs);
    SuitCountRuns2(Clubs, Spades, 2, 15, Spades);
    SuitCountRuns2(Clubs, Spades, 2, 15, Diamonds);
    SuitCountRuns2(Clubs, Spades, 2, 15, Hearts);
    SuitCountRuns2(Diamonds, Hearts, 2, 11, Clubs);
    SuitCountRuns2(Diamonds, Hearts, 2, 11, Spades);
    SuitCountRuns2(Diamonds, Hearts, 2, 11, Diamonds);
    SuitCountRuns2(Diamonds, Hearts, 2, 11, Hearts);
    MonstersAreClubsAndSpades(FullDeck());
  }

  /** Reordering cards does not change how many of them are monsters. */
  lemma {:induction false} CountMonstersPermutation(a: seq<Card>, b: seq<Card>)
    requires multiset(a) == multiset(b)
    ensures CountMonsters(a) == CountMonsters(b)
    decreases |a|
  {
    if a != [] {
      var x := a[|a| - 1];
      assert x in multiset(b);
      var k :| 0 <= k < |b| && b[k] == x;
      var b' := b[..k] + b[k + 1..];
      assert b == b[..k] + [x] + b[k + 1..];
      assert a == a[..|a| - 1] + [x];
      assert multiset(a) == multiset(a[..|a| - 1]) + multiset{x};
      assert multiset(b) == multiset(b[..k]) + multiset{x} + multiset(b[k + 1..]);
      assert multiset(b') == multiset(b[..k]) + multiset(b[k + 1..]);
      calc {
        multiset(a[..|a| - 1]);
        multiset(a) - multiset{x};
        multiset(b) - multiset{x};
        multiset(b[..k]) + multiset(b[k + 1..]);
        multiset(b');
      }
      CountMonstersPermutation(a[..|a| - 1], b');
      CountMonstersAppend(b[..k] + [x], b[k + 1..]);
      CountMonstersAppend(b[..k], [x]);
      CountMonstersAppend(b[..k], b[k + 1..]);
      assert [x][..0] == [];
    } else {
      assert |b| == |multiset(b)| == 0;
    }
  }

  // ---------------------------------------------------------------------
  // Weapons

  /** An equipped weapon: its card and the last monster it defeated, if any. */
  datatype Weapon = Weapon(card: Card, lastMonsterDefeated: Option<Card>)

  function WeaponValue(w: Weapon): int
  {
    w.card.value
  }

  /** A fresh weapon defeats anything; a used one only monsters strictly weaker than its last victim. */
  predicate CanDefeat(w: Weapon, monster: Card)
  {
    match w.lastMonsterDefeated
    case None => true
    case Some(last) => monster.value < last.value
  }

  /** The weapon after it has been used to defeat a monster. */
  function Record(w: Weapon, monster: Card): (r: Weapon)
    ensures r.card == w.card && r.lastMonsterDefeated == Some(monster)
  {
    w.(lastMonsterDefeated := Some(monster))
  }

  /** After defeating m the weapon may only take on monsters strictly weaker than m. */
  lemma CanDefeatAfterRecord(w: Weapon, m: Card, next: Card)
    ensures CanDefeat(Record(w, m), next) <==> next.value < m.value
  {
  }

  /** True when the weapon, used on each monster in turn, passes CanDefeat every time. */
  predicate DefeatsInOrder(w: Weapon, monsters: seq<Card>)
    decreases |monsters|
  {
    monsters == [] || (CanDefeat(w, monsters[0]) && DefeatsInOrder(Record(w, monsters[0]), monsters[1..]))
  }

  /** The monsters a weapon defeats one after another have strictly decreasing values, all below its previous victim. */
  lemma {:induction false} DefeatsStrictlyDecrease(w: Weapon, monsters: seq<Card>)
    requires DefeatsInOrder(w, monsters)
    ensures forall i, j :: 0 <= i < j < |monsters| ==> monsters[i].value > monsters[j].value
    ensures w.lastMonsterDefeated.Some? ==>
      forall i :: 0 <= i < |monsters| ==> monsters[i].value < w.lastMonsterDefeated.value.value
    decreases |monsters|
  {
    if monsters != [] {
      var rest := monsters[1..];
      DefeatsStrictlyDecrease(Record(w, monsters[0]), rest);
      forall i, j | 0 <= i < j < |monsters|
        ensures monsters[i].value > monsters[j].value
      {
        if i > 0 {
          assert monsters[i] == rest[i - 1] && monsters[j] == rest[j - 1];
        } else {
          assert monsters[j] == rest[j - 1];
        }
      }
      if w.lastMonsterDefeated.Some? {
        forall i | 0 <= i < |monsters|
          ensures monsters[i].value < w.lastMonsterDefeated.value.value
        {
          if i > 0 {
            assert monsters[i] == rest[i - 1];
          }
        }
      }
    }
  }
}
