/**
 `BasePlayer` and `BaseGame` of pywebcards/base_classes.py: the seating
 roster and its `add_player` operation. The card type is a parameter, as the
 base classes leave it to each game.
 */
module Games {
  import opened Wrappers
  import opened Stacks

  /** `max_players`: a bound, or `math.inf` for a table without one. */
  datatype PlayerLimit = AtMost(bound: nat) | Unlimited

  /** Whether a table with this limit may seat `count` players. */
  predicate Admits(limit: PlayerLimit, count: nat)
  {
    match limit
    case AtMost(bound) => count <= bound
    case Unlimited => true
  }

  /**
   `BasePlayer`: a nickname (not necessarily unique), an id and, until the
   game deals one, no hand. The id comes from `uuid.uuid4()`; here the caller
   supplies it.
   */
  datatype Player<C> = Player(nickname: string, uid: nat, currentHand: Option<Hand<C>>)

  function NewPlayer<C>(nickname: string, uid: nat): (p: Player<C>)
    ensures p.nickname == nickname && p.uid == uid
    ensures p.currentHand.None?
  {
    Player(nickname, uid, None)
  }

  /** `BaseGame`: static rule limits plus the state of the match being formed. */
  datatype Game<C> = Game(
    minPlayers: nat,
    maxPlayers: PlayerLimit,
    players: seq<Player<C>>,
    numPlayers: nat,
    currentPlayer: Option<Player<C>>,
    unplayedStack: Option<Stack<C>>,
    playedStack: Option<Stack<C>>)

  /** The roster invariant the source asserts: the counter equals the roster length. */
  predicate RosterConsistent<C>(g: Game<C>)
  {
    g.numPlayers == |g.players|
  }

  /** `BaseGame.__init__`, with the limits a concrete game sets passed in. */
  function NewGame<C>(minPlayers: nat, maxPlayers: PlayerLimit): (g: Game<C>)
    ensures RosterConsistent(g) && g.players == []
    ensures g.minPlayers == minPlayers && g.maxPlayers == maxPlayers
    ensures g.currentPlayer.None? && g.unplayedStack.None? && g.playedStack.None?
  {
    Game(minPlayers, maxPlayers, [], 0, None, None, None)
  }

  /**
   The two ways `add_player` raises: the table is full (the
   `NotImplementedError('FIXME')` branch), or the roster assertion fails
   after the append because the counter was already out of step.
   */
  datatype RosterError = TableFull | RosterAssertionFailed

  /**
   `BaseGame.add_player`: the state after the call and what it returned or
   raised. Checking the limit uses the counter, not the roster length.
   */
  function AddPlayer<C>(g: Game<C>, p: Player<C>): (r: (Game<C>, Result<bool, RosterError>))
    ensures r.1 == Failure(TableFull) <==> !Admits(g.maxPlayers, g.numPlayers + 1)
    ensures r.1 == Failure(TableFull) ==> r.0 == g
    ensures r.1 != Failure(TableFull) ==>
      r.0 == g.(players := g.players + [p], numPlayers := g.numPlayers + 1)
    ensures r.1.Success? ==> r.1.value && RosterConsistent(r.0)
    ensures RosterConsistent(g) && r.1 != Failure(TableFull) ==> r.1 == Success(true)
  {
    if Admits(g.maxPlayers, g.numPlayers + 1) then
      var seated := g.(players := g.players + [p], numPlayers := g.numPlayers + 1);
      if |seated.players| == seated.numPlayers then (seated, Success(true))
      else (seated, Failure(RosterAssertionFailed))
    else
      (g, Failure(TableFull))
  }

  /** How many more players the table takes when the roster holds `seated`. */
  function Room(limit: PlayerLimit, seated: nat, wanted: nat): (k: nat)
    ensures k <= wanted
    ensures k > 0 ==> Admits(limit, seated + k)
    ensures k < wanted ==> !Admits(limit, seated + k + 1)
  {
    match limit
    case Unlimited => wanted
    case AtMost(bound) =>
      if seated >= bound then 0
      else if bound - seated <= wanted then bound - seated else wanted
  }

  /**
   A caller seating `ps` one after another, stopping at the first call that
   raises.
   */
  function Join<C>(g: Game<C>, ps: seq<Player<C>>): Game<C>
    decreases |ps|
  {
    if |ps| == 0 then g
    else
      var (g', status) := AddPlayer(g, ps[0]);
      if status.Failure? then g' else Join(g', ps[1..])
  }

  /**
   Seating order is insertion order: from a consistent roster, joining `ps`
   seats exactly the longest prefix of `ps` the limit allows, appended after
   the players already seated, and keeps the roster consistent.
   */
  lemma {:induction false} JoinSeatsPrefix<C>(g: Game<C>, ps: seq<Player<C>>)
    requires RosterConsistent(g)
    ensures var k := Room(g.maxPlayers, |g.players|, |ps|);
      Join(g, ps) == g.(players := g.players + ps[..k], numPlayers := |g.players| + k)
    ensures RosterConsistent(Join(g, ps))
    decreases |ps|
  {
    var k := Room(g.maxPlayers, |g.players|, |ps|);
    if |ps| == 0 {
      assert g.players + ps[..k] == g.players;
    } else if !Admits(g.maxPlayers, g.numPlayers + 1) {
      assert k == 0;
      assert g.players + ps[..k] == g.players;
    } else {
      var g' := AddPlayer(g, ps[0]).0;
      assert 1 <= k;
      JoinSeatsPrefix(g', ps[1..]);
      var k' := Room(g'.maxPlayers, |g'.players|, |ps[1..]|);
      assert k' == k - 1;
      assert ps[..k] == [ps[0]] + ps[1..][..k'];
      assert g'.players + ps[1..][..k'] == g.players + ps[..k];
    }
  }
}
