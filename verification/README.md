# pywebcards card-game core in Dafny

A model of the two sequential pieces of the pywebcards card-game framework:

- the game-independent base classes (`pywebcards/base_classes.py`): the card
  record, the stack of cards with its `draw` and `shuffle` operations, the hand
  (a stack under another name), the player record and the game's seating
  roster with `add_player`;
- the Uno variant's deck (`pywebcards/games/uno.py`): the `Suits` and `Faces`
  enumerations and the 108-card `GameDeck` built from them.

Files:

- `wrappers.dfy` — `Option` (Python's `None`) and `Result` (a value or a raised error).
- `cards.dfy` — module `Cards`: `BaseCard` as `Card<F, S>`, generic over the
  face and suit enumerations; `can_be_played_on` is an optional list of
  `Mark`s, each a face or a suit, because the source list mixes both.
- `stacks.dfy` — module `Stacks`: a stack is a `seq` whose top is its END.
  `NewStack`, `Draw` (pop one card per step), `Shuffle` (the Fisher-Yates pass
  of `random.shuffle`, with the random draws as a parameter).
- `games.dfy` — module `Games`: `Player`, `Game`, `NewGame`, `AddPlayer`, and
  `Join`, a caller seating a list of players one at a time.
- `uno.dfy` — module `Uno`: `Suit`, `Face`, `GameDeck`, and the counting and
  marking lemmas about the deck. `Expected` is the Uno composition rule written
  independently of the builder; `DeckComposition` proves the builder matches it.

The source raises where the model returns an error value: popping an empty
stack is `Stacks.PopFromEmpty`, a full table is `Games.TableFull`, and the
roster assertion in `add_player` is `Games.RosterAssertionFailed`. The
`assert len(self) == 108` in `GameDeck.__init__` is a proved postcondition.

Facts of the source the model keeps:

- `Faces` has 15 members: Zero to Nine, Wild, WildDrawFour, Skip, DrawTwo
  and Reverse.
- Each colour gets two each of Skip, DrawTwo and Reverse.
- `draw(n)` yields cards last-first; drawing past the bottom pops every card
  and then raises Python's `IndexError`.
- A full table raises `NotImplementedError('FIXME')`.

## Model

| member | source | states |
|---|---|---|
| Stacks.NewStack | pywebcards/base_classes.py:40-44 | a stack built from a starting deck holds exactly that deck's cards in the same order; built with none it is empty |
| Stacks.Draw | pywebcards/base_classes.py:50-53 | drawing `n <= size` succeeds, drawing more fails; it yields `min(max(n,0), size)` cards, the i-th yielded being the i-th from the top (end); what is left is the untouched bottom prefix; on failure everything has been popped |
| Stacks.DrawRestores | pywebcards/base_classes.py:50-53 | drawing loses and invents nothing: the remaining pile plus the drawn cards pushed back last-first is the original pile, and the two together have the original multiset |
| Stacks.ExtendThenDraw | pywebcards/base_classes.py:40-53 | pushing cards onto a pile (the `+=` of construction) and then drawing as many gives them back top first and leaves the original pile |
| Stacks.DrawSplit | pywebcards/base_classes.py:50-53 | for every pile and all `a, b >= 0`, including draws past the bottom, the cards yielded by drawing `a + b` are those of drawing `a` followed by those of then drawing `b` from what is left, and the piles left are equal |
| Stacks.Shuffle | pywebcards/base_classes.py:46-48 | for any valid random draws, the shuffled pile is a permutation of the original (same length, same multiset); when every draw keeps its position the pile is unchanged |
| Games.NewPlayer | pywebcards/base_classes.py:60-67 | a new player has the given nickname and id and no hand yet |
| Games.NewGame | pywebcards/base_classes.py:72-92 | a new game has an empty roster whose counter agrees with it, the given limits, and no current player or stacks |
| Games.AddPlayer | pywebcards/base_classes.py:94-104 | the call raises the table-full error iff the counter plus one exceeds the maximum, and then the game is unchanged; otherwise the player is appended after everyone already seated and the counter grows by one; from a consistent roster it returns `True` and the roster stays consistent |
| Games.JoinSeatsPrefix | pywebcards/base_classes.py:94-104 | seating a list of players one by one from a consistent roster seats exactly the longest prefix the limit allows, after the earlier players and in order, and keeps `num_players == len(players)` |
| Uno.GameDeck | pywebcards/games/uno.py:36-64 | the constructed deck has exactly 108 cards |
| Uno.FirstPassFaces | pywebcards/games/uno.py:43-47 | the first pass of each colour deals Zero to Nine, Skip, DrawTwo, Reverse in this order |
| Uno.SecondPassFaces | pywebcards/games/uno.py:48-53 | the second pass of each colour deals the same faces without Zero |
| Uno.LengthOfColourBlocks | pywebcards/games/uno.py:39-53 | the colour loop deals 100 cards |
| Uno.EachFaceOnce | pywebcards/games/uno.py:14-29 | iterating `Faces` visits every face exactly once |
| Uno.EachSuitOnce | pywebcards/games/uno.py:6-11 | iterating `Suits` visits every suit exactly once |
| Uno.CountColourBlock | pywebcards/games/uno.py:41-53 | one pass of the colour loop gives a non-black colour one Zero, two of every other non-wild face and no wild, gives black nothing, and gives no card of another colour |
| Uno.CountSuitBlocks | pywebcards/games/uno.py:39-53 | over the whole colour loop, each (face, colour) occurs as many times as the colour is visited times its per-colour share, and black gets nothing |
| Uno.BuildComposition | pywebcards/games/uno.py:36-61 | when suits and faces are each visited once, the construction deals every (face, suit) exactly as often as the Uno rule `Expected` says |
| Uno.DeckComposition | pywebcards/games/uno.py:36-64 | `GameDeck` holds one Zero per colour, two each of One to Nine, Skip, DrawTwo and Reverse per colour, four Wild and four WildDrawFour in black, and nothing else |
| Uno.BuildMarks | pywebcards/games/uno.py:43-61 | every constructed coloured card is non-wild and playable on exactly its face and its colour; every black card is wild and carries the wild marks |
| Uno.WildMarksComplete | pywebcards/games/uno.py:55-61 | the wild marks `list(Faces) + list(Suits)` name every face and every suit |
| Uno.DeckMarks | pywebcards/games/uno.py:40-61 | in `GameDeck` a card is black iff it is wild; a coloured card's `can_be_played_on` is exactly `[its face, its suit]`; a wild card's contains every face and every suit |

## Left out

- `pywebcards/__main__.py` (web server start-up and threading): process plumbing with no game logic.
- `BaseCard.__str__` and `BaseGame.drop_player`: both only raise `NotImplementedError`.
- Player ids: `uuid.uuid4()` is randomness, so `NewPlayer` takes the id as a parameter.
- The RGB values of `Suits`: display data; suits are plain tags.
- `max_players`: a bound or `math.inf` (`Unlimited`); the unset default `None`, on which the comparison in `add_player` would raise `TypeError`, is not modelled. The Uno `Game` subclass sets no limits and is not modelled beyond a type name.
- `min_players`: stored, but no modelled operation reads it.
- Stacks.Shuffle: states only that the result is a permutation; uniformity of `random.shuffle`'s distribution is a property of the random source, not of this code.
- Stacks.Draw: `draw` is a generator; the model describes the generator consumed to the end, and a caller that stops early pops fewer cards.
- Turn order, card legality and card effects (skip, reverse, draw-two, wild): the source's `Card` and `Game` classes for Uno are empty, so there is nothing to model.
