/**
 The Uno variant of pywebcards/games/uno.py: its suit and face enumerations
 and the 108-card deck `GameDeck` builds from them.
 */
module Uno {
  import opened Wrappers
  import opened Cards
  import Stacks
  import Games

  /** `Suits`, in declaration order. The RGB values are display data and are dropped. */
  datatype Suit = Red | Green | Yellow | Blue | Black

  /** `Faces`, in declaration order. */
  datatype Face =
    | Zero | One | Two | Three | Four | Five | Six | Seven | Eight | Nine
    | Wild | WildDrawFour | Skip | DrawTwo | Reverse

  /** Iterating `Suits`. */
  const AllSuits: seq<Suit> := [Red, Green, Yellow, Blue, Black]

  /** Iterating `Faces`. */
  const AllFaces: seq<Face> :=
    [Zero, One, Two, Three, Four, Five, Six, Seven, Eight, Nine, Wild, WildDrawFour, Skip, DrawTwo, Reverse]

  type UnoCard = Card<Face, Suit>
  type UnoMark = Mark<Face, Suit>

  /** `Stack`, `Hand`, `Player` and `Game` subclass the base classes without adding anything. */
  type UnoStack = Stacks.Stack<UnoCard>
  type UnoHand = Stacks.Hand<UnoCard>
  type UnoPlayer = Games.Player<UnoCard>
  type UnoGame = Games.Game<UnoCard>

  /** The faces only black cards carry. */
  const WildFaces: set<Face> := {Wild, WildDrawFour}

  /** `face for face in Faces if face not in excluded`, keeping order. */
  function FacesExcept(faces: seq<Face>, excluded: set<Face>): seq<Face>
  {
    if |faces| == 0 then []
    else (if faces[0] in excluded then [] else [faces[0]]) + FacesExcept(faces[1..], excluded)
  }

  /** A coloured card, playable on its own face and its own colour. */
  function ColouredCard(face: Face, colour: Suit): UnoCard
  {
    Card(face, colour, Some([OnFace(face), OnSuit(colour)]))
  }

  /** One coloured card per face, in order. */
  function ColouredCards(colour: Suit, faces: seq<Face>): (r: seq<UnoCard>)
    ensures |r| == |faces|
    ensures forall i :: 0 <= i < |faces| ==> r[i] == ColouredCard(faces[i], colour)
  {
    if |faces| == 0 then [] else [ColouredCard(faces[0], colour)] + ColouredCards(colour, faces[1..])
  }

  /**
   The cards one pass of the `for colour in Suits` loop adds: nothing for
   black; otherwise every face but the wilds, then every face but the wilds
   and Zero.
   */
  function ColourBlock(colour: Suit, faces: seq<Face>): seq<UnoCard>
  {
    if colour != Black then
      ColouredCards(colour, FacesExcept(faces, WildFaces))
      + ColouredCards(colour, FacesExcept(faces, WildFaces + {Zero}))
    else []
  }

  /** The `for colour in Suits` loop over `suits`, each pass iterating `faces`. */
  function SuitBlocks(suits: seq<Suit>, faces: seq<Face>): seq<UnoCard>
  {
    if |suits| == 0 then [] else ColourBlock(suits[0], faces) + SuitBlocks(suits[1..], faces)
  }

  /** `list(Faces) + list(Suits)`: the marks of a wild card. */
  function WildMarks(suits: seq<Suit>, faces: seq<Face>): seq<UnoMark>
  {
    FaceMarks(faces) + SuitMarks(suits)
  }

  function FaceMarks(faces: seq<Face>): (r: seq<UnoMark>)
    ensures |r| == |faces|
    ensures forall i :: 0 <= i < |faces| ==> r[i] == OnFace(faces[i])
  {
    if |faces| == 0 then [] else [OnFace(faces[0])] + FaceMarks(faces[1..])
  }

  function SuitMarks(suits: seq<Suit>): (r: seq<UnoMark>)
    ensures |r| == |suits|
    ensures forall i :: 0 <= i < |suits| ==> r[i] == OnSuit(suits[i])
  {
    if |suits| == 0 then [] else [OnSuit(suits[0])] + SuitMarks(suits[1..])
  }

  function WildCard(face: Face, marks: seq<UnoMark>): UnoCard
  {
    Card(face, Black, Some(marks))
  }

  /**
   `GameDeck.__init__`: the coloured blocks, then four Wild and four
   WildDrawFour cards. The source asserts the total of 108; here it is a
   proved postcondition.
   */
  function GameDeck(): (deck: seq<UnoCard>)
    ensures |deck| == 108
  {
    LengthOfColourBlocks();
    BuildDeck(AllSuits, AllFaces)
  }

  /** The construction of `GameDeck` over given iteration orders of the two enumerations. */
  function BuildDeck(suits: seq<Suit>, faces: seq<Face>): seq<UnoCard>
  {
    var marks := WildMarks(suits, faces);
    SuitBlocks(suits, faces) + seq(4, _ => WildCard(Wild, marks)) + seq(4, _ => WildCard(WildDrawFour, marks))
  }

  // ---------------------------------------------------------------- lengths

  lemma {:induction false} ExceptAppend(a: seq<Face>, b: seq<Face>, ex: set<Face>)
    ensures FacesExcept(a + b, ex) == FacesExcept(a, ex) + FacesExcept(b, ex)
  {
    if |a| == 0 {
      assert a + b == b;
    } else {
      assert (a + b)[1..] == a[1..] + b;
      ExceptAppend(a[1..], b, ex);
    }
  }

  lemma {:induction false} ExceptKeeps(a: seq<Face>, ex: set<Face>)
    requires forall i :: 0 <= i < |a| ==> a[i] !in ex
    ensures FacesExcept(a, ex) == a
  {
    if |a| > 0 { ExceptKeeps(a[1..], ex); }
  }

  lemma {:induction false} ExceptDrops(a: seq<Face>, ex: set<Face>)
    requires forall i :: 0 <= i < |a| ==> a[i] in ex
    ensures FacesExcept(a, ex) == []
  {
    if |a| > 0 { ExceptDrops(a[1..], ex); }
  }

  /**
   The first pass of each colour deals these thirteen faces. The excluded
   set is a parameter pinned by the requires only so that the solver does
   not evaluate the filter on two constants eagerly.
   */
  lemma FirstPassFaces(ex: set<Face>)
    requires ex == {Wild, WildDrawFour}
    ensures FacesExcept(AllFaces, ex)
         == [Zero, One, Two, Three, Four, Five, Six, Seven, Eight, Nine, Skip, DrawTwo, Reverse]
  {
    var numbers := [Zero, One, Two, Three, Four, Five, Six, Seven, Eight, Nine];
    var wilds := [Wild, WildDrawFour];
    var actions := [Skip, DrawTwo, Reverse];
    assert AllFaces == numbers + wilds + actions;
    ExceptAppend(numbers + wilds, actions, ex);
    ExceptAppend(numbers, wilds, ex);
    ExceptKeeps(numbers, ex);
    ExceptDrops(wilds, ex);
    ExceptKeeps(actions, ex);
  }

  /** The second pass of each colour deals the same faces but Zero (parameter as above). */
  lemma SecondPassFaces(ex: set<Face>)
    requires ex == WildFaces + {Zero}
    ensures FacesExcept(AllFaces, ex)
         == [One, Two, Three, Four, Five, Six, Seven, Eight, Nine, Skip, DrawTwo, Reverse]
  {
    var zero := [Zero];
    var numbers := [One, Two, Three, Four, Five, Six, Seven, Eight, Nine];
    var wilds := [Wild, WildDrawFour];
    var actions := [Skip, DrawTwo, Reverse];
    assert AllFaces == zero + numbers + wilds + actions;
    ExceptAppend(zero + numbers + wilds, actions, ex);
    ExceptAppend(zero + numbers, wilds, ex);
    ExceptAppend(zero, numbers, ex);
    ExceptDrops(zero, ex);
    ExceptKeeps(numbers, ex);
    ExceptDrops(wilds, ex);
    ExceptKeeps(actions, ex);
  }

  lemma MulStep(o: nat, e: nat)
    ensures (o + 1) * e == e + o * e
  {
  }

  lemma ColourBlockLength(c: Suit, faces: seq<Face>)
    ensures |ColourBlock(c, faces)|
         == if c == Black then 0 else |FacesExcept(faces, WildFaces)| + |FacesExcept(faces, WildFaces + {Zero})|
  {
  }

  /** Each non-black colour gets `perColour` cards from the colour loop, black none. */
  lemma {:induction false} SuitBlocksLength(suits: seq<Suit>, faces: seq<Face>, perColour: nat)
    requires perColour == |FacesExcept(faces, WildFaces)| + |FacesExcept(faces, WildFaces + {Zero})|
    ensures |SuitBlocks(suits, faces)| + Occurrences(suits, Black) * perColour == |suits| * perColour
  {
    if |suits| > 0 {
      var tail := suits[1..];
      ColourBlockLength(suits[0], faces);
      SuitBlocksLength(tail, faces, perColour);
      MulStep(|tail|, perColour);
      MulStep(Occurrences(tail, Black), perColour);
    }
  }

  lemma LengthOfColourBlocks()
    ensures |SuitBlocks(AllSuits, AllFaces)| == 100
  {
    FirstPassFaces(WildFaces);
    SecondPassFaces(WildFaces + {Zero});
    EachSuitOnce(Black);
    SuitBlocksLength(AllSuits, AllFaces, 25);
    assert |AllSuits| == 5;
  }

  // ---------------------------------------------------------------- composition

  /**
   The Uno composition rule, stated per (face, suit) independently of the
   builder: black holds four of each wild face and nothing else; every other
   colour holds one Zero, two of each other coloured face, and no wild.
   */
  function Expected(face: Face, suit: Suit): nat
  {
    if suit == Black then (if face in WildFaces then 4 else 0)
    else if face in WildFaces then 0
    else if face == Zero then 1
    else 2
  }

  /** How many cards of `deck` have this face and this suit. */
  function Count(deck: seq<UnoCard>, face: Face, suit: Suit): nat
  {
    if |deck| == 0 then 0
    else (if deck[0].face == face && deck[0].suit == suit then 1 else 0) + Count(deck[1..], face, suit)
  }

  /** How many times `x` occurs in `s`. */
  function Occurrences<T(==)>(s: seq<T>, x: T): nat
  {
    if |s| == 0 then 0 else (if s[0] == x then 1 else 0) + Occurrences(s[1..], x)
  }

  /** `Occurrences` is the multiplicity of the sequence's multiset. */
  lemma {:induction false} OccurrencesIsMultiplicity<T>(s: seq<T>, x: T)
    ensures Occurrences(s, x) == multiset(s)[x]
  {
    if |s| > 0 {
      OccurrencesIsMultiplicity(s[1..], x);
      assert s == [s[0]] + s[1..];
    }
  }

  /** The (face, suit) identity of each card, in deck order. */
  function Identities(deck: seq<UnoCard>): (r: seq<(Face, Suit)>)
    ensures |r| == |deck|
    ensures forall i :: 0 <= i < |deck| ==> r[i] == (deck[i].face, deck[i].suit)
  {
    if |deck| == 0 then [] else [(deck[0].face, deck[0].suit)] + Identities(deck[1..])
  }

  /** `Count` is the multiplicity of a (face, suit) pair in the deck's multiset of identities. */
  lemma {:induction false} CountIsMultiplicity(deck: seq<UnoCard>, f: Face, s: Suit)
    ensures Count(deck, f, s) == multiset(Identities(deck))[(f, s)]
  {
    if |deck| > 0 {
      CountIsMultiplicity(deck[1..], f, s);
      assert Identities(deck) == [(deck[0].face, deck[0].suit)] + Identities(deck[1..]);
    }
  }

  /** The position of a face in the `Faces` enumeration. */
  function FaceOrdinal(f: Face): (i: nat)
    ensures i < |AllFaces| && AllFaces[i] == f
  {
    match f
    case Zero => 0 case One => 1 case Two => 2 case Three => 3 case Four => 4
    case Five => 5 case Six => 6 case Seven => 7 case Eight => 8 case Nine => 9
    case Wild => 10 case WildDrawFour => 11 case Skip => 12 case DrawTwo => 13 case Reverse => 14
  }

  /** The position of a suit in the `Suits` enumeration. */
  function SuitOrdinal(s: Suit): (i: nat)
    ensures i < |AllSuits| && AllSuits[i] == s
  {
    match s
    case Red => 0 case Green => 1 case Yellow => 2 case Blue => 3 case Black => 4
  }

  lemma {:induction false} OccurrencesAppend<T>(a: seq<T>, b: seq<T>, x: T)
    ensures Occurrences(a + b, x) == Occurrences(a, x) + Occurrences(b, x)
  {
    if |a| == 0 {
      assert a + b == b;
    } else {
      assert (a + b)[1..] == a[1..] + b;
      OccurrencesAppend(a[1..], b, x);
    }
  }

  /** An element found at exactly one position occurs once. */
  lemma {:induction false} OccurrencesUnique<T>(s: seq<T>, x: T, i: nat, n: nat)
    requires i < |s| && s[i] == x && n <= |s|
    requires forall j :: 0 <= j < |s| && s[j] == x ==> j == i
    ensures Occurrences(s[..n], x) == if i < n then 1 else 0
  {
    if n == 0 {
      assert s[..0] == [];
    } else {
      OccurrencesUnique(s, x, i, n - 1);
      assert s[..n] == s[..n - 1] + [s[n - 1]];
      OccurrencesAppend(s[..n - 1], [s[n - 1]], x);
      assert [s[n - 1]][1..] == [];
    }
  }

  /** `Faces` lists every face exactly once. */
  lemma EachFaceOnce(f: Face)
    ensures Occurrences(AllFaces, f) == 1
  {
    forall j | 0 <= j < |AllFaces| && AllFaces[j] == f
      ensures j == FaceOrdinal(f)
    {
      assert FaceOrdinal(AllFaces[j]) == j;
    }
    OccurrencesUnique(AllFaces, f, FaceOrdinal(f), |AllFaces|);
    assert AllFaces[..|AllFaces|] == AllFaces;
  }

  /** `Suits` lists every suit exactly once. */
  lemma EachSuitOnce(s: Suit)
    ensures Occurrences(AllSuits, s) == 1
  {
    forall j | 0 <= j < |AllSuits| && AllSuits[j] == s
      ensures j == SuitOrdinal(s)
    {
      assert SuitOrdinal(AllSuits[j]) == j;
    }
    OccurrencesUnique(AllSuits, s, SuitOrdinal(s), |AllSuits|);
    assert AllSuits[..|AllSuits|] == AllSuits;
  }

  /** Filtering drops every excluded face and keeps every other one as often as it was. */
  lemma {:induction false} OccurrencesExcept(faces: seq<Face>, ex: set<Face>, f: Face)
    ensures Occurrences(FacesExcept(faces, ex), f) == if f in ex then 0 else Occurrences(faces, f)
  {
    if |faces| > 0 {
      var head := if faces[0] in ex then [] else [faces[0]];
      OccurrencesAppend(head, FacesExcept(faces[1..], ex), f);
      OccurrencesExcept(faces[1..], ex, f);
      if faces[0] !in ex {
        assert [faces[0]][1..] == [];
      }
    }
  }

  lemma {:induction false} CountAppend(a: seq<UnoCard>, b: seq<UnoCard>, f: Face, s: Suit)
    ensures Count(a + b, f, s) == Count(a, f, s) + Count(b, f, s)
  {
    if |a| == 0 {
      assert a + b == b;
    } else {
      assert (a + b)[1..] == a[1..] + b;
      CountAppend(a[1..], b, f, s);
    }
  }

  lemma {:induction false} CountColoured(colour: Suit, faces: seq<Face>, f: Face, s: Suit)
    ensures Count(ColouredCards(colour, faces), f, s) == if s == colour then Occurrences(faces, f) else 0
  {
    if |faces| > 0 {
      CountColoured(colour, faces[1..], f, s);
      assert ColouredCards(colour, faces)[1..] == ColouredCards(colour, faces[1..]);
    }
  }

  /** One pass of the colour loop deals colour `c` its share of `faces` and nothing else. */
  lemma CountColourBlock(c: Suit, faces: seq<Face>, f: Face, s: Suit)
    requires Occurrences(faces, f) == 1
    ensures Count(ColourBlock(c, faces), f, s) == if s == c && c != Black then Expected(f, s) else 0
  {
    if c != Black {
      var first := FacesExcept(faces, WildFaces);
      var second := FacesExcept(faces, WildFaces + {Zero});
      CountAppend(ColouredCards(c, first), ColouredCards(c, second), f, s);
      CountColoured(c, first, f, s);
      CountColoured(c, second, f, s);
      OccurrencesExcept(faces, WildFaces, f);
      OccurrencesExcept(faces, WildFaces + {Zero}, f);
    }
  }

  lemma {:induction false} CountSuitBlocks(suits: seq<Suit>, faces: seq<Face>, f: Face, s: Suit)
    requires Occurrences(faces, f) == 1
    ensures Count(SuitBlocks(suits, faces), f, s)
         == if s == Black then 0 else Occurrences(suits, s) * Expected(f, s)
  {
    if |suits| > 0 {
      var block := ColourBlock(suits[0], faces);
      assert SuitBlocks(suits, faces) == block + SuitBlocks(suits[1..], faces);
      CountAppend(block, SuitBlocks(suits[1..], faces), f, s);
      CountColourBlock(suits[0], faces, f, s);
      CountSuitBlocks(suits[1..], faces, f, s);
      if suits[0] == s {
        MulStep(Occurrences(suits[1..], s), Expected(f, s));
      }
    }
  }

  lemma {:induction false} CountRepeated(n: nat, card: UnoCard, f: Face, s: Suit)
    ensures Count(seq(n, _ => card), f, s) == if card.face == f && card.suit == s then n else 0
  {
    if n > 0 {
      assert seq(n, _ => card) == [card] + seq(n - 1, _ => card);
      CountRepeated(n - 1, card, f, s);
    }
  }

  /**
   The built deck holds exactly the multiplicities of the Uno rule: one Zero
   per colour, two of each other coloured face, four of each wild in black,
   and no other combination.
   */
  lemma DeckComposition(f: Face, s: Suit)
    ensures Count(GameDeck(), f, s) == Expected(f, s)
  {
    EachFaceOnce(f);
    EachSuitOnce(s);
    BuildComposition(AllSuits, AllFaces, f, s);
  }

  /** The construction deals the Uno multiplicities whenever it visits each suit and face once. */
  lemma BuildComposition(suits: seq<Suit>, faces: seq<Face>, f: Face, s: Suit)
    requires Occurrences(faces, f) == 1 && Occurrences(suits, s) == 1
    ensures Count(BuildDeck(suits, faces), f, s) == Expected(f, s)
  {
    var marks := WildMarks(suits, faces);
    var blocks := SuitBlocks(suits, faces);
    var wilds := seq(4, _ => WildCard(Wild, marks));
    var drawFours := seq(4, _ => WildCard(WildDrawFour, marks));
    CountAppend(blocks + wilds, drawFours, f, s);
    CountAppend(blocks, wilds, f, s);
    CountSuitBlocks(suits, faces, f, s);
    CountRepeated(4, WildCard(Wild, marks), f, s);
    CountRepeated(4, WildCard(WildDrawFour, marks), f, s);
  }

  // ---------------------------------------------------------------- playability marks

  /**
   What each card of the deck may be played on: a coloured card carries no
   wild face and lists exactly its own face and its own colour; a black card
   carries a wild face and lists the wild marks.
   */
  predicate WellMarked(c: UnoCard, wildMarks: seq<UnoMark>)
  {
    && (c.suit != Black ==>
          c.face !in WildFaces && c.canBePlayedOn == Some([OnFace(c.face), OnSuit(c.suit)]))
    && (c.suit == Black ==> c.face in WildFaces && c.canBePlayedOn == Some(wildMarks))
  }

  lemma {:induction false} ExceptExcludes(faces: seq<Face>, ex: set<Face>, i: nat)
    requires i < |FacesExcept(faces, ex)|
    ensures FacesExcept(faces, ex)[i] !in ex
  {
    var head := if faces[0] in ex then [] else [faces[0]];
    if i >= |head| {
      ExceptExcludes(faces[1..], ex, i - |head|);
    }
  }

  lemma {:induction false} SuitBlocksMarked(suits: seq<Suit>, faces: seq<Face>, i: nat, marks: seq<UnoMark>)
    requires i < |SuitBlocks(suits, faces)|
    ensures WellMarked(SuitBlocks(suits, faces)[i], marks)
  {
    var block := ColourBlock(suits[0], faces);
    if i < |block| {
      var first := FacesExcept(faces, WildFaces);
      var second := FacesExcept(faces, WildFaces + {Zero});
      if i < |first| {
        ExceptExcludes(faces, WildFaces, i);
      } else {
        ExceptExcludes(faces, WildFaces + {Zero}, i - |first|);
      }
    } else {
      SuitBlocksMarked(suits[1..], faces, i - |block|, marks);
    }
  }

  /** Every card the construction deals is marked as the Uno rule says. */
  lemma BuildMarks(suits: seq<Suit>, faces: seq<Face>, i: nat)
    requires i < |BuildDeck(suits, faces)|
    ensures WellMarked(BuildDeck(suits, faces)[i], WildMarks(suits, faces))
  {
    var blocks := SuitBlocks(suits, faces);
    if i < |blocks| {
      SuitBlocksMarked(suits, faces, i, WildMarks(suits, faces));
    }
  }

  /** The wild marks of `GameDeck` name every face and every suit. */
  lemma WildMarksComplete(f: Face, s: Suit)
    ensures OnFace(f) in WildMarks(AllSuits, AllFaces)
    ensures OnSuit(s) in WildMarks(AllSuits, AllFaces)
  {
    var marks := WildMarks(AllSuits, AllFaces);
    assert marks[FaceOrdinal(f)] == OnFace(f);
    assert marks[|AllFaces| + SuitOrdinal(s)] == OnSuit(s);
  }

  /**
   The `can_be_played_on` list of every card of `GameDeck`: exactly its face
   and colour for a coloured card; every face and every suit for a black
   wild card. Black cards are exactly the wild ones.
   */
  lemma DeckMarks(i: nat)
    requires i < 108
    ensures var c := GameDeck()[i];
      && (c.suit != Black <==> c.face !in WildFaces)
      && (c.suit != Black ==> c.canBePlayedOn == Some([OnFace(c.face), OnSuit(c.suit)]))
      && (c.suit == Black ==>
            && c.canBePlayedOn.Some?
            && (forall f: Face :: OnFace(f) in c.canBePlayedOn.value)
            && (forall s: Suit :: OnSuit(s) in c.canBePlayedOn.value))
  {
    var deck := GameDeck();
    assert |deck| == 108 && deck == BuildDeck(AllSuits, AllFaces);
    BuildMarks(AllSuits, AllFaces, i);
    forall f: Face, s: Suit
      ensures OnFace(f) in WildMarks(AllSuits, AllFaces) && OnSuit(s) in WildMarks(AllSuits, AllFaces)
    {
      WildMarksComplete(f, s);
    }
  }
}
