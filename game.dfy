/**
 * The fixed ten-round heads/tails game the search is run on: each round one action is played,
 * Heads scores a point for us, Tails a point for the opponent.
 */
module Game {
  import opened Util

  datatype Action = Heads | Tails

  /**
   * A game state. The source keeps the scores and the round in `i32`; they are unbounded here
   * (from the initial state none of them exceeds MAX_ROUNDS).
   */
  datatype GameState = GameState(
    myScore: int,
    opScore: int,
    myPossibleActions: seq<Action>,
    opPossibleActions: seq<Action>,
    round: int)

  /** The round at which a game is over. */
  const MAX_ROUNDS: int := 10

  /**
   * The successor state after `a` is played: one more round and exactly one more point, which
   * is ours exactly when `a` is Heads; both action lists are carried over unchanged.
   */
  function Apply(s: GameState, a: Action): (r: GameState)
    ensures r.round == s.round + 1
    ensures r.myScore + r.opScore == s.myScore + s.opScore + 1
    ensures r.myScore > s.myScore <==> a == Heads
  {
    GameState(
      if a == Heads then s.myScore + 1 else s.myScore,
      if a == Tails then s.opScore + 1 else s.opScore,
      s.myPossibleActions,
      s.opPossibleActions,
      s.round + 1)
  }

  predicate IsTerminal(s: GameState)
  {
    s.round == MAX_ROUNDS
  }

  /** The outcome from our side: a win when we are strictly ahead. */
  predicate Evaluate(s: GameState)
  {
    s.myScore > s.opScore
  }

  /** The state the program starts its search from. */
  function InitialState(): GameState
  {
    GameState(0, 0, [Heads, Tails], [Heads, Tails], 0)
  }

  /** The state reached from `s` by playing the actions of `trace` in order. */
  function PlayAll(s: GameState, trace: seq<Action>): (r: GameState)
    decreases |trace|
  {
    if trace == [] then s else PlayAll(Apply(s, trace[0]), trace[1..])
  }

  /** Scores are non-negative and, together, equal the number of rounds played. */
  predicate ScoresMatchRound(s: GameState)
  {
    0 <= s.myScore && 0 <= s.opScore && s.myScore + s.opScore == s.round
  }

  /** One transition advances the round by one and raises exactly one score, by exactly one. */
  lemma ApplyRaisesOneScore(s: GameState, a: Action)
    ensures Apply(s, a).round == s.round + 1
    ensures a == Heads ==> Apply(s, a).myScore == s.myScore + 1 && Apply(s, a).opScore == s.opScore
    ensures a == Tails ==> Apply(s, a).opScore == s.opScore + 1 && Apply(s, a).myScore == s.myScore
    ensures Apply(s, a).myPossibleActions == s.myPossibleActions
    ensures Apply(s, a).opPossibleActions == s.opPossibleActions
  {
  }

  lemma ApplyKeepsScoresMatchRound(s: GameState, a: Action)
    requires ScoresMatchRound(s)
    ensures ScoresMatchRound(Apply(s, a))
  {
  }

  lemma {:induction false} PlayAllSnoc(s: GameState, trace: seq<Action>, a: Action)
    ensures PlayAll(s, trace + [a]) == Apply(PlayAll(s, trace), a)
    decreases |trace|
  {
    if trace != [] {
      assert (trace + [a])[1..] == trace[1..] + [a];
      PlayAllSnoc(Apply(s, trace[0]), trace[1..], a);
    }
  }

  /** Playing a trace advances the round by its length and each score by the number of its actions. */
  lemma {:induction false} PlayAllEffect(s: GameState, trace: seq<Action>)
    ensures PlayAll(s, trace).round == s.round + |trace|
    ensures PlayAll(s, trace).myScore == s.myScore + Count(Heads, trace)
    ensures PlayAll(s, trace).opScore == s.opScore + Count(Tails, trace)
    ensures PlayAll(s, trace).myPossibleActions == s.myPossibleActions
    ensures PlayAll(s, trace).opPossibleActions == s.opPossibleActions
    decreases |trace|
  {
    if trace != [] {
      PlayAllEffect(Apply(s, trace[0]), trace[1..]);
    }
  }

  lemma {:induction false} CountBoth(trace: seq<Action>)
    ensures Count(Heads, trace) + Count(Tails, trace) == |trace|
    decreases |trace|
  {
    if trace != [] {
      CountBoth(trace[1..]);
      assert Count(Heads, trace) == (if trace[0] == Heads then 1 else 0) + Count(Heads, trace[1..]);
      assert Count(Tails, trace) == (if trace[0] == Tails then 1 else 0) + Count(Tails, trace[1..]);
    }
  }

  /** Every state reached from a consistent state keeps the scores summing to the round. */
  lemma PlayAllKeepsScoresMatchRound(s: GameState, trace: seq<Action>)
    requires ScoresMatchRound(s)
    ensures ScoresMatchRound(PlayAll(s, trace))
  {
    PlayAllEffect(s, trace);
    CountBoth(trace);
  }

  /** The initial state is consistent, so every state a game from it reaches is too. */
  lemma InitialPlayScoresMatchRound(trace: seq<Action>)
    ensures ScoresMatchRound(InitialState())
    ensures ScoresMatchRound(PlayAll(InitialState(), trace))
  {
    PlayAllKeepsScoresMatchRound(InitialState(), trace);
  }

  /** A playout from `s` is a win exactly when our points, old and new, outnumber the opponent's. */
  lemma PlayoutOutcome(s: GameState, trace: seq<Action>)
    ensures Evaluate(PlayAll(s, trace))
        <==> s.myScore + Count(Heads, trace) > s.opScore + Count(Tails, trace)
  {
    PlayAllEffect(s, trace);
  }

  /** From the initial state a full game is won exactly when at least six of its ten rounds are Heads. */
  lemma InitialGameOutcome(trace: seq<Action>)
    requires |trace| == MAX_ROUNDS
    ensures IsTerminal(PlayAll(InitialState(), trace))
    ensures Evaluate(PlayAll(InitialState(), trace)) <==> Count(Heads, trace) >= 6
  {
    PlayAllEffect(InitialState(), trace);
    CountBoth(trace);
  }

  /** At the end of a consistent game, a win means at least six points of the ten. */
  lemma TerminalOutcome(s: GameState)
    requires ScoresMatchRound(s) && IsTerminal(s)
    ensures Evaluate(s) <==> s.myScore >= 6
  {
  }
}
