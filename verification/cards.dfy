/**
 The game-independent card record of pywebcards/base_classes.py: a face, a
 suit and an optional list of the faces and suits the card may be played on.
 A game chooses its own face and suit enumerations, so both are type
 parameters here.
 */
module Cards {
  import opened Wrappers

  /** One entry of a card's `can_be_played_on` list, which mixes faces and suits. */
  datatype Mark<F, S> = OnFace(face: F) | OnSuit(suit: S)

  /** `BaseCard`: `can_be_played_on` defaults to `None`. */
  datatype Card<F, S> = Card(face: F, suit: S, canBePlayedOn: Option<seq<Mark<F, S>>>)

}
