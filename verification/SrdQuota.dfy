/** The limit on space and the queue of changes (src/enclave/srd/Srd.cpp, src/enclave/Enclave.cpp). */
module SrdQuota {
  import opened SrdAllocation
  import opened Text

  const UPPER_LIMIT := 204800
  const MAX_PER_TURN := 64

  /** What set_srd_change stores, given the number of sealed units. */
  function Capped(sealed: nat, change: int): (r: int)
    ensures r <= change && (change <= 0 ==> r == change)
    ensures r > 0 ==> sealed + r <= UPPER_LIMIT
    ensures change > 0 && sealed + change <= UPPER_LIMIT ==> r == change
  {
    if change <= 0 then change
    else if sealed >= UPPER_LIMIT then 0
    else if sealed + change > UPPER_LIMIT then UPPER_LIMIT - sealed
    else change
  }

  /** What is stored is the most that was asked for and keeps the sealed units within the limit. */
  lemma CappedIsMost(sealed: nat, change: int, other: int)
    requires other <= change && (other > 0 ==> sealed + other <= UPPER_LIMIT)
    ensures other <= Capped(sealed, change)
  {
  }

  /** g_srd_change and the two functions on it. */
  class Queue {
    var change: int

    method SetChange(sealed: nat, wanted: int)
      modifies this
      ensures change == Capped(sealed, wanted)
    {
      var x := wanted;
      if x > 0 {
        if sealed >= UPPER_LIMIT {
          x := 0;
        } else if sealed + x > UPPER_LIMIT {
          x := UPPER_LIMIT - sealed;
        }
      }
      change := x;
    }

    /** The part of the queue that this turn works on. */
    method Take() returns (turn: int)
      modifies this
      ensures turn == Min(old(change), MAX_PER_TURN) && change == old(change) - turn
    {
      if change > MAX_PER_TURN {
        turn := MAX_PER_TURN;
        change := change - MAX_PER_TURN;
      } else {
        turn := change;
        change := 0;
      }
    }
  }

  // ----- Runs -----

  /** Units sealed, taken but not yet sealed, and waiting in the queue. */
  datatype Space = Space(sealed: nat, inFlight: nat, pending: int)

  /** SetTo stands for a change asked for on the basis of any earlier reading of the queue. */
  datatype Step =
    | SetTo(wanted: int)
    | TakeTurn
    | SealOne
    | DropOne
    | Lose(units: nat)

  /** A turn starts only when the one before it is over. */
  function Next(s: Space, step: Step): Space {
    match step
    case SetTo(wanted) => s.(pending := Capped(s.sealed, wanted))
    case TakeTurn =>
      if s.inFlight > 0 then s
      else
        var turn := Min(s.pending, MAX_PER_TURN);
        s.(pending := s.pending - turn, inFlight := if turn > 0 then turn else 0)
    case SealOne => if s.inFlight == 0 then s else s.(sealed := s.sealed + 1, inFlight := s.inFlight - 1)
    case DropOne => if s.inFlight == 0 then s else s.(inFlight := s.inFlight - 1)
    case Lose(units) => if units > s.sealed then s else s.(sealed := s.sealed - units)
  }

  function Run(s: Space, steps: seq<Step>): Space
    decreases |steps|
  {
    if steps == [] then s else Run(Next(s, steps[0]), steps[1..])
  }

  const EMPTY := Space(0, 0, 0)

  /** Space is neither made nor lost on the way: a turn only moves units from the queue into the air, sealing only from
      there into the list, and at most a turn's worth is in the air. */
  lemma UnitsMove(s: Space)
    requires 0 <= s.pending && s.inFlight <= MAX_PER_TURN
    ensures var t := Next(s, TakeTurn);
            t.sealed == s.sealed && t.inFlight + t.pending == s.inFlight + s.pending && t.inFlight <= MAX_PER_TURN
    ensures s.inFlight == 0 && s.pending > 0 ==> Next(s, TakeTurn).inFlight > 0
    ensures var t := Next(s, SealOne); t.pending == s.pending && t.sealed + t.inFlight == s.sealed + s.inFlight
    ensures s.inFlight > 0 ==> Next(s, SealOne).sealed == s.sealed + 1 && Next(s, DropOne) == s.(inFlight := s.inFlight - 1)
  {
  }

  function Claimed(s: Space): nat {
    s.sealed + s.inFlight + if s.pending > 0 then s.pending else 0
  }

  predicate Within(s: Space) {
    Claimed(s) <= UPPER_LIMIT + MAX_PER_TURN && s.inFlight <= MAX_PER_TURN
  }

  lemma {:induction false} StaysWithin(s: Space, steps: seq<Step>)
    requires Within(s)
    ensures Within(Run(s, steps))
    decreases |steps|
  {
    if steps != [] {
      StaysWithin(Next(s, steps[0]), steps[1..]);
    }
  }

  /** Whatever is asked for when, the space never exceeds the limit by more than one turn. */
  lemma QuotaHolds(steps: seq<Step>)
    ensures Claimed(Run(EMPTY, steps)) <= UPPER_LIMIT + MAX_PER_TURN
  {
    StaysWithin(EMPTY, steps);
  }

  /** And it can exceed it by exactly one turn. */
  lemma QuotaIsTight()
    ensures Claimed(Run(EMPTY, [SetTo(MAX_PER_TURN), TakeTurn, SetTo(UPPER_LIMIT)])) == UPPER_LIMIT + MAX_PER_TURN
  {
    var a, b, c := SetTo(MAX_PER_TURN), TakeTurn, SetTo(UPPER_LIMIT);
    assert [a, b, c][1..] == [b, c] && [b, c][1..] == [c] && [c][1..] == [];
    var s := Next(Next(EMPTY, a), b);
    assert s == Space(0, MAX_PER_TURN, 0);
    assert Run(EMPTY, [a, b, c]) == Run(Next(EMPTY, a), [b, c]) == Run(s, [c]) == Run(Next(s, c), []);
  }
}
