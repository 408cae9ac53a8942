/** Snowflake identifiers: 41 bits of milliseconds, 10 of machine, 12 of sequence, from a clock that may
    run backward. Clock readings are milliseconds since the custom epoch. */
module Snowflakes {
  import opened Bits

  const MACHINE_ID_BITS := 10
  const SEQUENCE_BITS := 12
  const TIMESTAMP_BITS := 41
  const MACHINE_ID_SHIFT := SEQUENCE_BITS
  const TIMESTAMP_SHIFT := SEQUENCE_BITS + MACHINE_ID_BITS
  const MAX_MACHINE_ID := 1023
  const MAX_SEQUENCE := 4095
  const MAX_DRIFT_TOLERANCE_MS := 5

  datatype Error = MachineIdOutOfBounds | ClockMovedBackwards(driftMs: nat)

  datatype Result<+T> = Ok(value: T) | Err(error: Error)

  datatype State = State(lastTimestamp: nat, sequence: nat)

  function Assemble(time: nat, machine: nat, sequence: nat): nat {
    Or(Or(Shl(time, TIMESTAMP_SHIFT), Shl(machine, MACHINE_ID_SHIFT)), sequence)
  }

  // ----- the layout of an identifier

  predicate InRange(time: nat, machine: nat, sequence: nat) {
    time <= Ones(TIMESTAMP_BITS) && machine <= MAX_MACHINE_ID && sequence <= MAX_SEQUENCE
  }

  lemma FieldWidths()
    ensures Ones(MACHINE_ID_BITS) == MAX_MACHINE_ID && Ones(SEQUENCE_BITS) == MAX_SEQUENCE
  {
    assert Shifted(1, 2) == 4;
    assert Shifted(1, 4) == 16;
    assert Shifted(1, 6) == 64;
    assert Shifted(1, 8) == 256;
    assert Shifted(1, 10) == 1024;
    assert Shifted(1, 12) == 4096;
  }

  /** What the bit operations compute. */
  function Sum(time: nat, machine: nat, sequence: nat): nat {
    Shifted(time, SEQUENCE_BITS + MACHINE_ID_BITS) + Shifted(machine, SEQUENCE_BITS) + sequence
  }

  /** No field overflows into another or out of the word: the parts add up, and the sign bit stays clear. */
  lemma AssembleIsSum(time: nat, machine: nat, sequence: nat)
    requires InRange(time, machine, sequence)
    ensures Assemble(time, machine, sequence) == Sum(time, machine, sequence)
    ensures Assemble(time, machine, sequence) <= Ones(WORD_BITS - 1)
  {
    FieldWidths();
    ThreeFieldsFit(time, machine, sequence, TIMESTAMP_BITS, MACHINE_ID_BITS, SEQUENCE_BITS);
    assert TIMESTAMP_BITS + MACHINE_ID_BITS + SEQUENCE_BITS == WORD_BITS - 1;
    ShlLosesNothing(time, TIMESTAMP_SHIFT);
    ShlLosesNothing(machine, MACHINE_ID_SHIFT);
    ThreeFieldsAdd(time, machine, sequence, MACHINE_ID_BITS, SEQUENCE_BITS);
  }

  lemma SumReadsBack(time: nat, machine: nat, sequence: nat)
    requires InRange(time, machine, sequence)
    ensures var id := Sum(time, machine, sequence);
            && Shr(id, TIMESTAMP_SHIFT) == time
            && And(Shr(id, MACHINE_ID_SHIFT), MAX_MACHINE_ID) == machine
            && And(id, MAX_SEQUENCE) == sequence
  {
    FieldWidths();
    ThreeFieldsReadBack(time, machine, sequence, MACHINE_ID_BITS, SEQUENCE_BITS);
  }

  /** An identifier in plain numbers: 12 bits of sequence, 10 of machine, and 41 of time above them. */
  lemma AssembleInNumbers(time: nat, machine: nat, sequence: nat)
    requires time < 2199023255552 && machine < 1024 && sequence < 4096
    ensures InRange(time, machine, sequence)
    ensures Assemble(time, machine, sequence) == time * 4194304 + machine * 4096 + sequence
  {
    WidthsInNumbers();
    AssembleIsSum(time, machine, sequence);
    ShiftedIsProduct(time, TIMESTAMP_SHIFT);
    ShiftedIsProduct(machine, MACHINE_ID_SHIFT);
  }

  lemma WidthsInNumbers()
    ensures Shifted(1, MACHINE_ID_SHIFT) == 4096 && Shifted(1, TIMESTAMP_SHIFT) == 4194304
    ensures Ones(TIMESTAMP_BITS) == 2199023255551
  {
    FieldWidths();
    ShiftedTwice(1, 12, 10);
    ShiftedTwice(1, 22, 12);
    ShiftedTwice(1, 34, 7);
    ShiftedIsProduct(4096, 10);
    ShiftedIsProduct(4194304, 12);
    ShiftedIsProduct(17179869184, 7);
    assert Shifted(1, 7) == 128;
  }

  /** Every part can be read back from the identifier. */
  lemma PartsReadBack(time: nat, machine: nat, sequence: nat)
    requires InRange(time, machine, sequence)
    ensures var id := Assemble(time, machine, sequence);
            && Shr(id, TIMESTAMP_SHIFT) == time
            && And(Shr(id, MACHINE_ID_SHIFT), MAX_MACHINE_ID) == machine
            && And(id, MAX_SEQUENCE) == sequence
  {
    AssembleIsSum(time, machine, sequence);
    SumReadsBack(time, machine, sequence);
  }

  lemma SumsAreOrdered(machine: nat, t1: nat, s1: nat, t2: nat, s2: nat)
    requires InRange(t1, machine, s1) && InRange(t2, machine, s2)
    ensures Sum(t1, machine, s1) < Sum(t2, machine, s2) <==> t1 < t2 || (t1 == t2 && s1 < s2)
  {
    FieldWidths();
    ThreeFieldsOrder(t1, s1, t2, s2, machine, MACHINE_ID_BITS, SEQUENCE_BITS);
  }

  /** Identifiers of one machine are ordered by time and then by sequence. */
  lemma OrderedByTime(machine: nat, t1: nat, s1: nat, t2: nat, s2: nat)
    requires InRange(t1, machine, s1) && InRange(t2, machine, s2)
    ensures Assemble(t1, machine, s1) < Assemble(t2, machine, s2) <==> t1 < t2 || (t1 == t2 && s1 < s2)
  {
    AssembleIsSum(t1, machine, s1);
    AssembleIsSum(t2, machine, s2);
    SumsAreOrdered(machine, t1, s1, t2, s2);
  }

  /** Different machines make different identifiers. */
  lemma MachinesNeverCollide(t1: nat, m1: nat, s1: nat, t2: nat, m2: nat, s2: nat)
    requires InRange(t1, m1, s1) && InRange(t2, m2, s2) && m1 != m2
    ensures Assemble(t1, m1, s1) != Assemble(t2, m2, s2)
  {
    PartsReadBack(t1, m1, s1);
    PartsReadBack(t2, m2, s2);
  }

  // ----- one call

  /** Masking one more rolls the sequence over to 0 after 4095. */
  lemma SequenceRollsOver(sequence: nat)
    requires sequence <= 4095
    ensures And(sequence + 1, MAX_SEQUENCE) == if sequence == 4095 then 0 else sequence + 1
  {
    FieldWidths();
    if sequence == MAX_SEQUENCE {
      assert Shifted(1, SEQUENCE_BITS) == sequence + 1;
      FieldsReadBack(1, 0, SEQUENCE_BITS);
    } else {
      assert Shifted(0, SEQUENCE_BITS) == 0;
      FieldsReadBack(0, sequence + 1, SEQUENCE_BITS);
    }
  }

  function NextSequence(sequence: nat): (next: nat)
    ensures sequence <= MAX_SEQUENCE ==> next == if sequence == MAX_SEQUENCE then 0 else sequence + 1
  {
    if sequence <= MAX_SEQUENCE then
      SequenceRollsOver(sequence);
      And(sequence + 1, MAX_SEQUENCE)
    else And(sequence + 1, MAX_SEQUENCE)
  }

  /** The clock readings of one call: the first, the one after the sleep, and the one that ends the spin. */
  datatype Readings = Readings(first: nat, afterSleep: nat, afterSpin: nat)

  /** The clock is behind by little enough to wait. */
  predicate Sleeps(s: State, r: Readings) {
    r.first < s.lastTimestamp && s.lastTimestamp - r.first <= MAX_DRIFT_TOLERANCE_MS
  }

  predicate Fails(s: State, r: Readings) {
    r.first < s.lastTimestamp && s.lastTimestamp - r.first > MAX_DRIFT_TOLERANCE_MS
  }

  /** The time the call goes on with. */
  function TimeToUse(s: State, r: Readings): nat {
    if Sleeps(s, r) then r.afterSleep else r.first
  }

  /** One call: either the state whose time and sequence make up the new identifier, or an error. */
  function Generate(s: State, r: Readings): Result<State> {
    if Fails(s, r) then Err(ClockMovedBackwards(s.lastTimestamp - r.first))
    else
      var now := TimeToUse(s, r);
      if now == s.lastTimestamp then
        var sequence := NextSequence(s.sequence);
        Ok(State(if sequence == 0 then r.afterSpin else now, sequence))
      else Ok(State(now, 0))
  }

  /** The identifiers of this millisecond are used up. */
  predicate Spins(s: State, r: Readings) {
    !Fails(s, r) && TimeToUse(s, r) == s.lastTimestamp && s.sequence == MAX_SEQUENCE
  }

  /** The sequence is in range, and a spin ends only when the clock has moved on. */
  predicate Sane(s: State, r: Readings) {
    s.sequence <= MAX_SEQUENCE && (Spins(s, r) ==> r.afterSpin > s.lastTimestamp)
  }

  /** The reading after the sleep has caught up with the last timestamp. The code does not check this. */
  predicate CaughtUp(s: State, r: Readings) {
    Sleeps(s, r) ==> r.afterSleep >= s.lastTimestamp
  }

  predicate Later(a: State, b: State) {
    a.lastTimestamp < b.lastTimestamp || (a.lastTimestamp == b.lastTimestamp && a.sequence < b.sequence)
  }

  /** The last time a call looked at: where the clock stood when the identifier was made. */
  function Reached(s: State, r: Readings): nat {
    if Spins(s, r) then r.afterSpin else TimeToUse(s, r)
  }

  /** A call fails only when the clock is too far behind. Otherwise, if the clock has caught up, it issues the
      very next pair of time and sequence: the least that is later than the last one and not before the time
      the call reached. No pair is wasted, so a millisecond serves 4096 calls. */
  lemma IssuesTheNextPair(s: State, r: Readings, other: State)
    requires Sane(s, r) && CaughtUp(s, r)
    ensures Generate(s, r).Err? <==> r.first + 5 < s.lastTimestamp
    ensures Generate(s, r).Ok? ==>
              && Later(s, Generate(s, r).value) && Generate(s, r).value.lastTimestamp == Reached(s, r)
              && (Later(s, other) && other.lastTimestamp >= Reached(s, r) && other.sequence <= MAX_SEQUENCE ==>
                    !Later(other, Generate(s, r).value))
  {
  }

  /** A call that does not fail issues a later identifier than the previous one if and only if the reading
      after the sleep, if there was one, had caught up. If it had not, the call starts that earlier millisecond anew. */
  lemma NextIsLaterIffCaughtUp(s: State, r: Readings)
    requires Sane(s, r)
    ensures Generate(s, r).Ok? ==> Generate(s, r).value.sequence <= MAX_SEQUENCE
    ensures Generate(s, r).Ok? ==> (Later(s, Generate(s, r).value) <==> CaughtUp(s, r))
    ensures !CaughtUp(s, r) ==> Generate(s, r) == Ok(State(r.afterSleep, 0))
  {
  }

  // ----- runs

  /** The generator's state after some calls; a failed call changes nothing. */
  function After(s: State, calls: seq<Readings>): State {
    if calls == [] then s
    else
      var before := After(s, calls[..|calls| - 1]);
      var result := Generate(before, calls[|calls| - 1]);
      if result.Ok? then result.value else before
  }

  /** The identifiers issued in the course of some calls. */
  function Issued(machine: nat, s: State, calls: seq<Readings>): seq<nat> {
    if calls == [] then []
    else
      var before := After(s, calls[..|calls| - 1]);
      var ids := Issued(machine, s, calls[..|calls| - 1]);
      var result := Generate(before, calls[|calls| - 1]);
      if result.Ok? then ids + [LastId(machine, result.value)] else ids
  }

  /** The readings fit into 41 bits. */
  predicate InTime(r: Readings) {
    r.first <= Ones(TIMESTAMP_BITS) && r.afterSleep <= Ones(TIMESTAMP_BITS) && r.afterSpin <= Ones(TIMESTAMP_BITS)
  }

  /** Every call is sane and stays within 41 bits. */
  predicate Bounded(s: State, calls: seq<Readings>) {
    if calls == [] then s.sequence <= MAX_SEQUENCE && s.lastTimestamp <= Ones(TIMESTAMP_BITS)
    else
      var r := calls[|calls| - 1];
      && Bounded(s, calls[..|calls| - 1])
      && Sane(After(s, calls[..|calls| - 1]), r)
      && InTime(r)
  }

  /** After every sleep the clock has caught up. */
  predicate CatchesUp(s: State, calls: seq<Readings>) {
    calls == [] || (CatchesUp(s, calls[..|calls| - 1]) && CaughtUp(After(s, calls[..|calls| - 1]), calls[|calls| - 1]))
  }

  predicate Increasing(ids: seq<nat>) {
    forall i, j :: 0 <= i < j < |ids| ==> ids[i] < ids[j]
  }

  predicate UpTo(ids: seq<nat>, last: nat) {
    forall id :: id in ids ==> id <= last
  }

  lemma AppendLarger(ids: seq<nat>, last: nat, id: nat)
    requires Increasing(ids) && UpTo(ids, last) && last < id
    ensures Increasing(ids + [id]) && UpTo(ids + [id], id)
  {
    forall i | 0 <= i < |ids|
      ensures ids[i] < id
    {
      assert ids[i] in ids;
    }
  }

  /** The identifier that a state stands for: the one issued last, once there was one. */
  function LastId(machine: nat, s: State): nat {
    Assemble(s.lastTimestamp, machine, s.sequence)
  }

  /** One orderly call issues an identifier above that of the state before it. */
  lemma OrderlyCall(machine: nat, s: State, r: Readings)
    requires InRange(s.lastTimestamp, machine, s.sequence) && Sane(s, r) && CaughtUp(s, r)
    requires InTime(r)
    requires Generate(s, r).Ok?
    ensures InRange(Generate(s, r).value.lastTimestamp, machine, Generate(s, r).value.sequence)
    ensures LastId(machine, s) < LastId(machine, Generate(s, r).value)
  {
    NextIsLaterIffCaughtUp(s, r);
    var s' := Generate(s, r).value;
    OrderedByTime(machine, s.lastTimestamp, s.sequence, s'.lastTimestamp, s'.sequence);
  }

  /** Over any calls for which the clock catches up, the identifiers of one generator strictly increase, so
      no two are equal. */
  lemma {:induction false} IdentifiersIncrease(machine: nat, s: State, calls: seq<Readings>)
    requires machine <= MAX_MACHINE_ID && Bounded(s, calls) && CatchesUp(s, calls)
    ensures InRange(After(s, calls).lastTimestamp, machine, After(s, calls).sequence)
    ensures UpTo(Issued(machine, s, calls), LastId(machine, After(s, calls)))
    ensures Increasing(Issued(machine, s, calls))
  {
    if calls != [] {
      var init, r := calls[..|calls| - 1], calls[|calls| - 1];
      var before := After(s, init);
      IdentifiersIncrease(machine, s, init);
      if Generate(before, r).Ok? {
        OrderlyCall(machine, before, r);
        AppendLarger(Issued(machine, s, init), LastId(machine, before), LastId(machine, Generate(before, r).value));
      }
    }
  }

  /** A new generator has either issued nothing and is still at the start, or stands at its last identifier. */
  lemma {:induction false} StandsAtLastIssued(machine: nat, calls: seq<Readings>)
    ensures var ids, s := Issued(machine, State(0, 0), calls), After(State(0, 0), calls);
            if ids == [] then s == State(0, 0) else ids[|ids| - 1] == LastId(machine, s)
  {
    if calls != [] {
      StandsAtLastIssued(machine, calls[..|calls| - 1]);
    }
  }

  /** A call that succeeds although the clock has not caught up issues an identifier that is no larger. */
  lemma DisorderlyCall(machine: nat, s: State, r: Readings)
    requires InRange(s.lastTimestamp, machine, s.sequence) && Sane(s, r) && InTime(r) && !CaughtUp(s, r)
    ensures s != State(0, 0) && Generate(s, r).Ok?
    ensures LastId(machine, Generate(s, r).value) <= LastId(machine, s)
  {
    NextIsLaterIffCaughtUp(s, r);
    var s' := Generate(s, r).value;
    OrderedByTime(machine, s.lastTimestamp, s.sequence, s'.lastTimestamp, s'.sequence);
  }

  /** The identifiers of a new generator strictly increase if and only if the clock catches up after every sleep. */
  lemma {:induction false} IdentifiersIncreaseIff(machine: nat, calls: seq<Readings>)
    requires machine <= MAX_MACHINE_ID && Bounded(State(0, 0), calls)
    ensures Increasing(Issued(machine, State(0, 0), calls)) <==> CatchesUp(State(0, 0), calls)
  {
    if CatchesUp(State(0, 0), calls) {
      IdentifiersIncrease(machine, State(0, 0), calls);
    } else {
      var init, r := calls[..|calls| - 1], calls[|calls| - 1];
      var ids, earlier := Issued(machine, State(0, 0), calls), Issued(machine, State(0, 0), init);
      if CatchesUp(State(0, 0), init) {
        InRangeAfter(machine, State(0, 0), init);
        StandsAtLastIssued(machine, init);
        DisorderlyCall(machine, After(State(0, 0), init), r);
        assert ids[|ids| - 2] >= ids[|ids| - 1];
      } else {
        IdentifiersIncreaseIff(machine, init);
        var i, j :| 0 <= i < j < |earlier| && earlier[i] >= earlier[j];
        assert ids[i] >= ids[j];
      }
    }
  }

  /** Every identifier issued has parts in range. */
  lemma {:induction false} IssuedHasParts(machine: nat, s: State, calls: seq<Readings>, id: nat)
    returns (time: nat, sequence: nat)
    requires machine <= MAX_MACHINE_ID && Bounded(s, calls) && id in Issued(machine, s, calls)
    ensures InRange(time, machine, sequence) && id == Assemble(time, machine, sequence)
  {
    var init, r := calls[..|calls| - 1], calls[|calls| - 1];
    if id in Issued(machine, s, init) {
      time, sequence := IssuedHasParts(machine, s, init, id);
    } else {
      InRangeAfter(machine, s, init);
      NextIsLaterIffCaughtUp(After(s, init), r);
      time, sequence := After(s, calls).lastTimestamp, After(s, calls).sequence;
    }
  }

  lemma {:induction false} InRangeAfter(machine: nat, s: State, calls: seq<Readings>)
    requires machine <= MAX_MACHINE_ID && Bounded(s, calls)
    ensures InRange(After(s, calls).lastTimestamp, machine, After(s, calls).sequence)
  {
    if calls != [] {
      InRangeAfter(machine, s, calls[..|calls| - 1]);
      NextIsLaterIffCaughtUp(After(s, calls[..|calls| - 1]), calls[|calls| - 1]);
    }
  }

  /** Two generators with different machine identifiers never issue the same identifier, whatever their
      clocks do. */
  lemma GeneratorsNeverCollide(
      m1: nat, s1: State, calls1: seq<Readings>, m2: nat, s2: State, calls2: seq<Readings>, id: nat)
    requires m1 <= MAX_MACHINE_ID && m2 <= MAX_MACHINE_ID && m1 != m2
    requires Bounded(s1, calls1) && Bounded(s2, calls2)
    ensures id in Issued(m1, s1, calls1) ==> id !in Issued(m2, s2, calls2)
  {
    if id in Issued(m1, s1, calls1) && id in Issued(m2, s2, calls2) {
      var t1, q1 := IssuedHasParts(m1, s1, calls1, id);
      var t2, q2 := IssuedHasParts(m2, s2, calls2, id);
      MachinesNeverCollide(t1, m1, q1, t2, m2, q2);
    }
  }

  lemma FitsInTime(time: nat)
    requires time <= MAX_MACHINE_ID
    ensures time <= Ones(TIMESTAMP_BITS)
  {
    FieldWidths();
    FieldsFit(0, TIMESTAMP_BITS - MACHINE_ID_BITS, MACHINE_ID_BITS);
  }

  /** Without the assumption an identifier can be issued twice: the clock steps back by one, is still back
      after the sleep, and then reaches the earlier millisecond again. */
  lemma ClockThatDoesNotCatchUpRepeats(machine: nat)
    requires machine <= MAX_MACHINE_ID
    ensures exists calls: seq<Readings> ::
              && Bounded(State(0, 0), calls) && |Issued(machine, State(0, 0), calls)| == 3
              && Issued(machine, State(0, 0), calls)[0] == Issued(machine, State(0, 0), calls)[2]
  {
    var a, b, c := Readings(10, 0, 0), Readings(9, 9, 0), Readings(10, 0, 0);
    var one: seq<Readings> := [a];
    var two: seq<Readings> := [a, b];
    var calls: seq<Readings> := [a, b, c];
    assert one[..0] == [] && two[..1] == one && calls[..2] == two;
    assert After(State(0, 0), one) == State(10, 0);
    assert After(State(0, 0), two) == State(9, 0);
    FitsInTime(10);
    assert Bounded(State(0, 0), []) && Bounded(State(0, 0), one) && Bounded(State(0, 0), two);
    assert Bounded(State(0, 0), calls);
    assert Issued(machine, State(0, 0), one) == [Assemble(10, machine, 0)];
    assert Issued(machine, State(0, 0), two) == [Assemble(10, machine, 0), Assemble(9, machine, 0)];
    assert Issued(machine, State(0, 0), calls)
           == [Assemble(10, machine, 0), Assemble(9, machine, 0), Assemble(10, machine, 0)];
  }

  // ----- the generator, updated in place

  /** The clock shows a time after `t` at some reading from `i` on. */
  ghost predicate Advances(clock: nat -> nat, i: nat, t: nat) {
    exists j: nat :: j >= i && clock(j) > t
  }

  class SnowflakeGenerator {
    const machineId: nat
    var lastTimestamp: nat
    var sequence: nat

    ghost predicate Valid()
      reads this
    {
      machineId <= MAX_MACHINE_ID && sequence <= MAX_SEQUENCE
    }

    ghost function Current(): State
      reads this
    {
      State(lastTimestamp, sequence)
    }

    constructor (machineId: nat)
      requires machineId <= MAX_MACHINE_ID
      ensures Valid() && this.machineId == machineId && Current() == State(0, 0)
    {
      this.machineId := machineId;
      lastTimestamp, sequence := 0, 0;
    }

    /** Reads the clock until it shows a later millisecond than the last one. */
    method SpinFrom(clock: nat -> nat, start: nat) returns (reading: nat)
      requires Advances(clock, start, lastTimestamp)
      ensures reading >= start && clock(reading) > lastTimestamp
      ensures forall i :: start <= i < reading ==> clock(i) <= lastTimestamp
    {
      ghost var goal: nat :| goal >= start && clock(goal) > lastTimestamp;
      reading := start;
      while clock(reading) <= lastTimestamp
        invariant start <= reading <= goal
        invariant forall i :: start <= i < reading ==> clock(i) <= lastTimestamp
        decreases goal - reading
      {
        reading := reading + 1;
      }
    }

    /** The critical section. Reading number `i` of the clock is `clock(i)`; the call starts at `start`. */
    method GenerateId(clock: nat -> nat, start: nat) returns (id: Result<nat>, ghost spun: nat)
      requires Valid()
      requires Spins(Current(), Readings(clock(start), clock(start + 1), 0)) ==>
                 Advances(clock, start + 2, lastTimestamp)
      modifies this
      ensures Valid()
      ensures var r := Readings(clock(start), clock(start + 1), clock(spun));
              && Sane(old(Current()), r)
              && match Generate(old(Current()), r)
                 case Err(e) => id == Err(e) && Current() == old(Current())
                 case Ok(s) => Current() == s && id == Ok(Assemble(s.lastTimestamp, machineId, s.sequence))
      ensures id.Err? <==> clock(start) + 5 < old(lastTimestamp)
      ensures id.Err? ==> Current() == old(Current()) && id.error.ClockMovedBackwards?
                          && clock(start) + id.error.driftMs == old(lastTimestamp)
      ensures id.Ok? && clock(start) < old(lastTimestamp) && clock(start + 1) < old(lastTimestamp) ==>
                Current() == State(clock(start + 1), 0)
    {
      spun := start;
      var reading := start;
      var currentTime := clock(reading);
      if currentTime < lastTimestamp {
        var drift := lastTimestamp - currentTime;
        if drift <= MAX_DRIFT_TOLERANCE_MS {
          reading := start + 1;
          currentTime := clock(reading);
        } else {
          return Err(ClockMovedBackwards(drift)), spun;
        }
      }
      if currentTime == lastTimestamp {
        sequence := NextSequence(sequence);
        if sequence == 0 {
          reading := SpinFrom(clock, reading + 1);
          currentTime := clock(reading);
          spun := reading;
        }
      } else {
        sequence := 0;
      }
      lastTimestamp := currentTime;
      id := Ok(Assemble(currentTime, machineId, sequence));
    }
  }

  /** A machine identifier out of bounds is refused. */
  method NewGenerator(machineId: nat) returns (generator: Result<SnowflakeGenerator>)
    ensures generator.Ok? <==> machineId <= 1023
    ensures generator.Ok? ==> fresh(generator.value) && generator.value.Valid()
                              && generator.value.machineId == machineId && generator.value.Current() == State(0, 0)
    ensures generator.Err? ==> generator.error == MachineIdOutOfBounds
  {
    if machineId > MAX_MACHINE_ID {
      return Err(MachineIdOutOfBounds);
    }
    var g := new SnowflakeGenerator(machineId);
    return Ok(g);
  }
}
