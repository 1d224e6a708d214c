/**
 `BaseStack` and `BaseHand` of pywebcards/base_classes.py. A stack is an
 ordered pile of cards whose top is the END of the sequence: `draw` pops from
 the end. A hand is a stack with no further operations.
 */
module Stacks {
  import opened Wrappers

  type Stack<T> = seq<T>

  /** `BaseHand` adds nothing to `BaseStack`. */
  type Hand<T> = Stack<T>

  /** `BaseStack.__init__`: an empty pile, extended by the starting deck when one is given. */
  function NewStack<T>(startingDeck: Option<seq<T>>): (s: Stack<T>)
    ensures startingDeck.None? ==> s == []
    ensures startingDeck.Some? ==> s == startingDeck.value
  {
    var empty: Stack<T> := [];
    match startingDeck
    case None => empty
    case Some(deck) => empty + deck
  }

  /** The cards of `s` in the opposite order. */
  function Reverse<T>(s: seq<T>): (r: seq<T>)
    ensures |r| == |s|
    ensures forall i :: 0 <= i < |s| ==> r[i] == s[|s| - 1 - i]
  {
    if |s| == 0 then [] else [s[|s| - 1]] + Reverse(s[..|s| - 1])
  }

  /** Reversing a top slice of `k` cards starts with the top card. */
  lemma ReverseTopSlice<T>(s: seq<T>, k: nat)
    requires 0 < k <= |s|
    ensures Reverse(s[|s| - k..]) == [s[|s| - 1]] + Reverse(s[..|s| - 1][|s| - k..])
  {
    var t := s[|s| - k..];
    assert t[|t| - 1] == s[|s| - 1];
    assert t[..|t| - 1] == s[..|s| - 1][|s| - k..];
  }

  /**
   What consuming the generator `draw(amount)` leaves behind: the cards it
   yielded, in order, and the remaining pile. `PopFromEmpty` is the
   `IndexError` of popping an empty list; the cards popped before it are gone.
   */
  datatype DrawOutcome<T> =
    | Drawn(cards: seq<T>, rest: Stack<T>)
    | PopFromEmpty(cards: seq<T>, rest: Stack<T>)

  function Min(a: int, b: int): int { if a <= b then a else b }

  /**
   `BaseStack.draw`: pop one card per step, `amount` times. A non-positive
   amount pops nothing (an empty `range`). The cards come out top (end)
   first, so they are the top slice of the pile reversed.
   */
  function Draw<T>(s: Stack<T>, amount: int): (r: DrawOutcome<T>)
    decreases |s|
    ensures r.Drawn? <==> amount <= |s|
    ensures |r.cards| == Min(if amount < 0 then 0 else amount, |s|)
    ensures r.rest == s[..|s| - |r.cards|]
    ensures r.cards == Reverse(s[|s| - |r.cards|..])
  {
    if amount <= 0 then Drawn([], s)
    else if |s| == 0 then PopFromEmpty([], s)
    else
      var top := s[|s| - 1];
      var below := Draw(s[..|s| - 1], amount - 1);
      ReverseTopSlice(s, |below.cards| + 1);
      match below
      case Drawn(cards, rest) => Drawn([top] + cards, rest)
      case PopFromEmpty(cards, rest) => PopFromEmpty([top] + cards, rest)
  }

  /** Reversing twice gives back the original order. */
  lemma ReverseReverse<T>(s: seq<T>)
    ensures Reverse(Reverse(s)) == s
  {
    var r := Reverse(s);
    assert forall i :: 0 <= i < |s| ==> Reverse(r)[i] == r[|r| - 1 - i] == s[i];
  }

  /** Reversal permutes. */
  lemma {:induction false} ReverseMultiset<T>(s: seq<T>)
    ensures multiset(Reverse(s)) == multiset(s)
  {
    if |s| > 0 {
      ReverseMultiset(s[..|s| - 1]);
      assert s == s[..|s| - 1] + [s[|s| - 1]];
    }
  }

  /** Reversing a concatenation reverses the order of the parts. */
  lemma ReverseAppend<T>(x: seq<T>, y: seq<T>)
    ensures Reverse(x + y) == Reverse(y) + Reverse(x)
  {
    var l := Reverse(x + y);
    var r := Reverse(y) + Reverse(x);
    assert forall i :: 0 <= i < |l| ==> l[i] == r[i];
  }

  /** Taking the top `|cards|` cards of `s`, top first, leaving `rest`. */
  ghost predicate TookTop<T>(s: seq<T>, cards: seq<T>, rest: seq<T>)
  {
    |cards| <= |s| && rest == s[..|s| - |cards|] && cards == Reverse(s[|s| - |cards|..])
  }

  lemma DrawTookTop<T>(s: Stack<T>, amount: int)
    ensures TookTop(s, Draw(s, amount).cards, Draw(s, amount).rest)
  {
  }

  /**
   Drawing loses nothing: putting the drawn cards back on top, last drawn
   first, restores the pile, whether or not the pile ran out.
   */
  lemma DrawRestores<T>(s: Stack<T>, amount: int)
    ensures Draw(s, amount).rest + Reverse(Draw(s, amount).cards) == s
    ensures multiset(Draw(s, amount).rest) + multiset(Draw(s, amount).cards) == multiset(s)
  {
    DrawTookTop(s, amount);
    PutBack(s, Draw(s, amount).cards, Draw(s, amount).rest);
  }

  lemma PutBack<T>(s: seq<T>, cards: seq<T>, rest: seq<T>)
    requires TookTop(s, cards, rest)
    ensures rest + Reverse(cards) == s
    ensures multiset(rest) + multiset(cards) == multiset(s)
  {
    var top := s[|s| - |cards|..];
    ReverseReverse(top);
    assert s == rest + top;
    ReverseMultiset(top);
  }

  /** Pushing cards on top and drawing as many hands them back top first. */
  lemma ExtendThenDraw<T>(s: Stack<T>, cards: seq<T>)
    ensures Draw(s + cards, |cards|) == Drawn(Reverse(cards), s)
  {
    var pile := s + cards;
    assert pile[..|s|] == s;
    assert pile[|s|..] == cards;
  }

  /**
   Drawing `a + b` cards at once is drawing `a` and then `b` from what is
   left, also when the pile runs out part-way.
   */
  lemma DrawSplit<T>(s: Stack<T>, a: nat, b: nat)
    ensures Draw(s, a + b).cards == Draw(s, a).cards + Draw(Draw(s, a).rest, b).cards
    ensures Draw(s, a + b).rest == Draw(Draw(s, a).rest, b).rest
  {
    var first := Draw(s, a);
    var second := Draw(first.rest, b);
    var whole := Draw(s, a + b);
    DrawTookTop(s, a);
    DrawTookTop(first.rest, b);
    DrawTookTop(s, a + b);
    TakeTwice(s, first.cards, first.rest, second.cards, second.rest, whole.cards, whole.rest);
  }

  /** Taking the top `k1` and then the next `k2` cards is taking the top `k1 + k2`. */
  lemma TakeTwice<T>(s: seq<T>, c1: seq<T>, r1: seq<T>, c2: seq<T>, r2: seq<T>, cw: seq<T>, rw: seq<T>)
    requires TookTop(s, c1, r1) && TookTop(r1, c2, r2) && TookTop(s, cw, rw)
    requires |cw| == |c1| + |c2|
    ensures cw == c1 + c2 && rw == r2
  {
    var n := |s|;
    var upper := s[n - |c1|..];
    var lower := r1[|r1| - |c2|..];
    assert s[n - |cw|..] == lower + upper;
    ReverseAppend(lower, upper);
  }

  /**
   The random draws `random.shuffle` makes for a pile of `n` cards: for each
   position `i` from the top down to 1 it picks some `j` with `0 <= j <= i`.
   Entry 0 is never consulted.
   */
  predicate ValidChoices(choices: seq<nat>, n: nat)
  {
    |choices| == n && forall i :: 0 <= i < n ==> choices[i] <= i
  }

  /**
   `BaseStack.shuffle`, which delegates to `random.shuffle`: the
   Fisher-Yates pass that swaps position `i` with position `choices[i]` for
   `i` from the top down to 1. The randomness is the `choices` parameter.
   */
  method Shuffle<T>(s: Stack<T>, choices: seq<nat>) returns (r: Stack<T>)
    requires ValidChoices(choices, |s|)
    ensures |r| == |s|
    ensures multiset(r) == multiset(s)
    ensures (forall i :: 0 <= i < |s| ==> choices[i] == i) ==> r == s
  {
    r := s;
    var i := |s| - 1;
    while i >= 1
      invariant -1 <= i < |s|
      invariant |r| == |s|
      invariant multiset(r) == multiset(s)
      invariant (forall k :: 0 <= k < |s| ==> choices[k] == k) ==> r == s
      decreases i
    {
      var j := choices[i];
      r := r[i := r[j]][j := r[i]];
      i := i - 1;
    }
  }
}
