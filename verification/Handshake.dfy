/** The one-cell handshake of `3_pageshm/producer.c` and `3_pageshm/consumer.c`: two processes that
    share a single int, interleaved load by load and store by store. */
module Handshake {

  const SIGNAL := -4
  const ENDSIGNAL := -5

  /** Where the producer is: about to store value i (the end mark when i is past the data), polling
      for its acknowledgement, or done. */
  datatype Producer = Store(i: nat) | Poll(i: nat) | Ended

  /** Where the consumer is: about to load value j, about to acknowledge it, polling for the next, or done. */
  datatype Consumer = Load(j: nat) | Acknowledge(j: nat) | Await(j: nat) | Finished

  datatype State = State(cell: int, producer: Producer, consumer: Consumer, read: seq<int>)

  datatype Process = Prod | Cons

  function Start(n: nat, cell: int): State {
    State(cell, Store(0), if n == 0 then Finished else Load(0), [])
  }

  function ProducerStep(data: seq<int>, s: State): State {
    match s.producer
    case Store(i) =>
      if i < |data| then s.(cell := data[i], producer := Poll(i)) else s.(cell := ENDSIGNAL, producer := Ended)
    case Poll(i) => if s.cell == SIGNAL then s.(producer := Store(i + 1)) else s
    case Ended => s
  }

  /** The consumer's array holds n values. */
  function ConsumerStep(n: nat, s: State): State {
    match s.consumer
    case Load(j) => s.(read := s.read + [s.cell], consumer := Acknowledge(j))
    case Acknowledge(j) => s.(cell := SIGNAL, consumer := Await(j))
    case Await(j) =>
      if s.cell == SIGNAL then s
      else s.(consumer := if j + 1 < n then Load(j + 1) else Finished)
    case Finished => s
  }

  function Step(data: seq<int>, s: State, p: Process): State {
    if p == Prod then ProducerStep(data, s) else ConsumerStep(|data|, s)
  }

  /** The state after a schedule; a poll that keeps waiting leaves the state as it is. */
  function Exec(data: seq<int>, s: State, schedule: seq<Process>): State
    decreases |schedule|
  {
    if schedule == [] then s
    else Step(data, Exec(data, s, schedule[..|schedule| - 1]), schedule[|schedule| - 1])
  }

  predicate Stuck(data: seq<int>, s: State) {
    ProducerStep(data, s) == s && ConsumerStep(|data|, s) == s
  }

  /** How many steps of the schedule had an effect: loads, stores, and polls that found what they
      waited for.  A poll that keeps waiting has none. */
  function Moves(data: seq<int>, s: State, schedule: seq<Process>): nat
    decreases |schedule|
  {
    if schedule == [] then 0
    else
      var before, p := schedule[..|schedule| - 1], schedule[|schedule| - 1];
      Moves(data, s, before) + if Step(data, Exec(data, s, before), p) != Exec(data, s, before) then 1 else 0
  }

  /** How far the two processes have come, by where they stand. */
  function Progress(n: nat, s: State): nat {
    (match s.producer case Store(i) => 2 * i case Poll(i) => 2 * i + 1 case Ended => 2 * n + 1)
    + (match s.consumer
       case Load(j) => 3 * j case Acknowledge(j) => 3 * j + 1 case Await(j) => 3 * j + 2 case Finished => 3 * n)
  }

  predicate InBounds(n: nat, s: State) {
    && (match s.producer case Store(i) => i <= n case Poll(i) => i < n case Ended => true)
    && (match s.consumer case Finished => true case _ => s.consumer.j < n)
  }

  lemma StepIsProgress(data: seq<int>, s: State, p: Process)
    requires InBounds(|data|, s)
    ensures var s' := Step(data, s, p);
            && InBounds(|data|, s')
            && Progress(|data|, s') == Progress(|data|, s) + if s' != s then 1 else 0
  {
  }

  /** Under every schedule, on any data, the steps with an effect are the distance covered. */
  lemma {:induction false} MovesAreProgress(data: seq<int>, cell: int, schedule: seq<Process>)
    ensures InBounds(|data|, Exec(data, Start(|data|, cell), schedule))
    ensures Moves(data, Start(|data|, cell), schedule) == Progress(|data|, Exec(data, Start(|data|, cell), schedule))
    decreases |schedule|
  {
    if schedule != [] {
      var before := schedule[..|schedule| - 1];
      MovesAreProgress(data, cell, before);
      StepIsProgress(data, Exec(data, Start(|data|, cell), before), schedule[|schedule| - 1]);
    }
  }

  /** What the consumer's values are compared with: they agree with the data but for the first. */
  predicate Follows(data: seq<int>, vals: seq<int>) {
    |vals| == |data| && forall k :: 0 < k < |data| ==> vals[k] == data[k]
  }

  /** Everything that can be the case once producer and consumer work on the same value: the cell's
      content tells the two sides apart. */
  predicate InStep(data: seq<int>, vals: seq<int>, s: State)
    requires Follows(data, vals)
  {
    match (s.producer, s.consumer)
    case (Poll(i), Load(j)) => i == j < |data| && s.cell == data[i] == vals[i] && s.read == vals[..i]
    case (Poll(i), Acknowledge(j)) => i == j < |data| && s.cell == data[i] && s.read == vals[..i + 1]
    case (Poll(i), Await(j)) =>
      i < |data| && ((i == j && s.cell == SIGNAL && s.read == vals[..i + 1])
                  || (i == j + 1 && s.cell == data[i] && s.read == vals[..i]))
    case (Store(i), Await(j)) => i == j + 1 <= |data| && s.cell == SIGNAL && s.read == vals[..i]
    case (Ended, Await(j)) => j + 1 == |data| && s.cell == ENDSIGNAL && s.read == vals
    case (Ended, Finished) => s.cell == ENDSIGNAL && s.read == vals
    case _ => false
  }

  lemma InStepKept(data: seq<int>, vals: seq<int>, s: State, p: Process)
    requires SIGNAL !in data && Follows(data, vals) && InStep(data, vals, s)
    ensures InStep(data, vals, Step(data, s, p))
  {
    assert vals[..|data|] == vals;
    match (s.producer, s.consumer)
    case (Poll(i), Load(j)) => assert vals[..i] + [vals[i]] == vals[..i + 1];
    case _ =>
  }

  /** Once in step, every continuation stays in step. */
  lemma {:induction false} StaysInStep(data: seq<int>, vals: seq<int>, s0: State, n: nat, schedule: seq<Process>)
    requires SIGNAL !in data && Follows(data, vals) && n <= |schedule|
    requires InStep(data, vals, Exec(data, s0, schedule[..n]))
    ensures InStep(data, vals, Exec(data, s0, schedule))
    decreases |schedule|
  {
    if n == |schedule| {
      assert schedule[..n] == schedule;
    } else {
      var before := schedule[..|schedule| - 1];
      assert before[..n] == schedule[..n];
      StaysInStep(data, vals, s0, n, before);
      InStepKept(data, vals, Exec(data, s0, before), schedule[|schedule| - 1]);
    }
  }

  lemma {:induction false} ExecOne(data: seq<int>, s0: State, p: Process)
    ensures Exec(data, s0, [p]) == Step(data, s0, p)
  {
    assert [p][..0] == [] && Exec(data, s0, []) == s0;
  }

  lemma {:induction false} ExecTwo(data: seq<int>, s0: State, p: Process, q: Process)
    ensures Exec(data, s0, [p, q]) == Step(data, Step(data, s0, p), q)
  {
    assert [p, q][..1] == [p];
    ExecOne(data, s0, p);
  }

  /** The producer stores first; then every schedule stays in step. */
  lemma {:induction false} AlwaysInStep(data: seq<int>, cell: int, schedule: seq<Process>)
    requires SIGNAL !in data && schedule != [] && schedule[0] == Prod
    ensures InStep(data, data, Exec(data, Start(|data|, cell), schedule))
  {
    assert schedule[..1] == [Prod];
    ExecOne(data, Start(|data|, cell), Prod);
    assert data[..0] == [];
    StaysInStep(data, data, Start(|data|, cell), 1, schedule);
  }

  /** After `moves` effective steps a run that ends after `last` of them, with the producer at `end` and
      the consumer done, has read a beginning of `vals`; it stops there and nowhere else. */
  predicate RunsTo(data: seq<int>, s: State, moves: nat, vals: seq<int>, end: Producer, last: int) {
    && s.read <= vals && moves <= last
    && (Stuck(data, s) <==> s.producer == end && s.consumer == Finished)
    && (Stuck(data, s) <==> moves == last)
    && (Stuck(data, s) ==> s.read == vals)
  }

  lemma InStepOutcome(data: seq<int>, vals: seq<int>, s: State)
    requires SIGNAL !in data && Follows(data, vals) && InStep(data, vals, s)
    ensures RunsTo(data, s, Progress(|data|, s), vals, Ended, 5 * |data| + 1)
  {
  }

  /** The handshake delivers the data: what has been read is always a beginning of the data, the run
      can stop only after exactly 5n + 1 effective steps, and then both are done and all was read. */
  lemma {:induction false} Delivers(data: seq<int>, cell: int, schedule: seq<Process>)
    requires SIGNAL !in data && schedule != [] && schedule[0] == Prod
    ensures RunsTo(data, Exec(data, Start(|data|, cell), schedule), Moves(data, Start(|data|, cell), schedule),
                   data, Ended, 5 * |data| + 1)
    ensures var s := Exec(data, Start(|data|, cell), schedule); s.producer == Ended ==> s.cell == -5
  {
    AlwaysInStep(data, cell, schedule);
    InStepOutcome(data, data, Exec(data, Start(|data|, cell), schedule));
    MovesAreProgress(data, cell, schedule);
  }

  lemma {:induction false} ExecNext(data: seq<int>, s: State, schedule: seq<Process>, p: Process)
    ensures Exec(data, s, schedule + [p]) == Step(data, Exec(data, s, schedule), p)
  {
    assert (schedule + [p])[..|schedule|] == schedule;
  }

  /** A schedule under which the first k values have been handed over and the producer is to store the next. */
  lemma {:induction false} HandOver(data: seq<int>, cell: int, k: nat) returns (schedule: seq<Process>)
    requires k <= |data| && SIGNAL !in data[..k] && data != []
    ensures schedule == [] || schedule[0] == Prod
    ensures Exec(data, Start(|data|, cell), schedule)
         == State(if k == 0 then cell else SIGNAL, Store(k), if k == 0 then Load(0) else Await(k - 1), data[..k])
  {
    if k == 0 {
      schedule := [];
    } else {
      assert data[..k - 1] == data[..k][..k - 1] && data[k - 1] == data[..k][k - 1];
      schedule := HandOver(data, cell, k - 1);
      var s0 := Start(|data|, cell);
      schedule := OneTurn(data, s0, schedule, k - 1);
      assert data[..k] == data[..k - 1] + [data[k - 1]];
    }
  }

  /** One value handed over: stored, noticed, loaded, acknowledged, noticed. */
  lemma OneTurn(data: seq<int>, s0: State, schedule: seq<Process>, i: nat) returns (longer: seq<Process>)
    requires i < |data| && data[i] != SIGNAL && (schedule == [] || schedule[0] == Prod)
    requires var s := Exec(data, s0, schedule);
             s.producer == Store(i) && s.consumer == if i == 0 then Load(0) else Await(i - 1)
    ensures longer != [] && longer[0] == Prod
    ensures Exec(data, s0, longer) == State(SIGNAL, Store(i + 1), Await(i), Exec(data, s0, schedule).read + [data[i]])
  {
    var read := Exec(data, s0, schedule).read;
    longer := OneStep(data, s0, schedule, Prod);
    assert Exec(data, s0, longer).cell == data[i] && Exec(data, s0, longer).producer == Poll(i);
    if i > 0 {
      longer := OneStep(data, s0, longer, Cons);
    }
    assert Exec(data, s0, longer) == State(data[i], Poll(i), Load(i), read);
    longer := OneStep(data, s0, longer, Cons);
    assert Exec(data, s0, longer) == State(data[i], Poll(i), Acknowledge(i), read + [data[i]]);
    longer := OneStep(data, s0, longer, Cons);
    assert Exec(data, s0, longer) == State(SIGNAL, Poll(i), Await(i), read + [data[i]]);
    longer := OneStep(data, s0, longer, Prod);
  }

  lemma OneStep(data: seq<int>, s0: State, schedule: seq<Process>, p: Process) returns (longer: seq<Process>)
    ensures longer == schedule + [p] && Exec(data, s0, longer) == Step(data, Exec(data, s0, schedule), p)
  {
    longer := schedule + [p];
    ExecNext(data, s0, schedule, p);
  }

  /** The producer takes its own SIGNAL for an acknowledgement and runs on to the next other value. */
  lemma {:induction false} RunOver(data: seq<int>, s0: State, schedule: seq<Process>, i: nat)
    returns (longer: seq<Process>)
    requires i <= |data| && Exec(data, s0, schedule).producer == Store(i)
    ensures |longer| > |schedule| && longer[..|schedule|] == schedule && longer[|schedule|] == Prod
    ensures var s, t := Exec(data, s0, schedule), Exec(data, s0, longer);
            t.cell != SIGNAL && t.consumer == s.consumer && t.read == s.read
    decreases |data| - i
  {
    ExecNext(data, s0, schedule, Prod);
    longer := schedule + [Prod];
    if i < |data| && data[i] == SIGNAL {
      ExecNext(data, s0, longer, Prod);
      var next := RunOver(data, s0, longer + [Prod], i + 1);
      assert next[..|schedule|] == next[..|longer| + 1][..|schedule|];
      assert next[|schedule|] == next[..|longer| + 1][|schedule|];
      longer := next;
    }
  }

  /** A SIGNAL among the values is lost under some schedule. */
  lemma SignalLost(data: seq<int>, cell: int) returns (schedule: seq<Process>)
    requires SIGNAL in data
    ensures schedule != [] && schedule[0] == Prod
    ensures !(Exec(data, Start(|data|, cell), schedule).read <= data)
  {
    var s0 := Start(|data|, cell);
    var k := FirstSignal(data, 0);
    var before := HandOver(data, cell, k);
    schedule := RunOver(data, s0, before, k);
    assert before != [] ==> schedule[0] == before[0];
    if k > 0 {
      ExecNext(data, s0, schedule, Cons);
      schedule := schedule + [Cons];
    }
    ExecNext(data, s0, schedule, Cons);
    schedule := schedule + [Cons];
    assert Exec(data, s0, schedule).read[k] != SIGNAL;
  }

  function FirstSignal(data: seq<int>, i: nat): (k: nat)
    requires i <= |data| && SIGNAL in data[i..]
    ensures i <= k < |data| && data[k] == SIGNAL && SIGNAL !in data[i..k]
    decreases |data| - i
  {
    if data[i] == SIGNAL then i
    else
      assert data[i..] == [data[i]] + data[i + 1..];
      var k := FirstSignal(data, i + 1);
      assert data[i..k] == [data[i]] + data[i + 1..k];
      k
  }

  /** The protocol is right for exactly the data that never contain the acknowledgement value. */
  lemma {:induction false} DeliversExactly(data: seq<int>, cell: int)
    ensures -4 !in data <==>
            forall schedule: seq<Process> :: schedule != [] && schedule[0] == Prod ==>
              Exec(data, Start(|data|, cell), schedule).read <= data
  {
    if SIGNAL in data {
      var schedule := SignalLost(data, cell);
    } else {
      forall schedule: seq<Process> | schedule != [] && schedule[0] == Prod
        ensures Exec(data, Start(|data|, cell), schedule).read <= data
      {
        Delivers(data, cell, schedule);
      }
    }
  }

  /** Everything that can be the case when the consumer has acknowledged the stale cell before the
      first store: the producer is one value behind from then on. */
  predicate Behind(data: seq<int>, cell: int, s: State)
    requires data != []
  {
    var vals := [cell] + data[..|data| - 1];
    match (s.producer, s.consumer)
    case (Store(i), Await(j)) => i == j < |data| && s.cell == SIGNAL && s.read == vals[..i + 1]
    case (Poll(i), Await(j)) =>
      (i == j < |data| && s.cell == data[i] && s.read == vals[..i + 1])
      || (i + 1 == j < |data| && s.cell == SIGNAL && s.read == vals[..j + 1])
    case (Poll(i), Load(j)) => i + 1 == j < |data| && s.cell == data[i] && s.read == vals[..j]
    case (Poll(i), Acknowledge(j)) => i + 1 == j < |data| && s.cell == data[i] && s.read == vals[..j + 1]
    case (Poll(i), Finished) => i + 1 == |data| && s.cell == data[i] && s.read == vals
    case _ => false
  }

  lemma BehindKept(data: seq<int>, cell: int, s: State, p: Process)
    requires data != [] && SIGNAL !in data && Behind(data, cell, s)
    ensures Behind(data, cell, Step(data, s, p))
  {
    var vals := [cell] + data[..|data| - 1];
    assert vals[..|data|] == vals;
    match (s.producer, s.consumer)
    case (Poll(i), Load(j)) => assert vals[..j] + [vals[j]] == vals[..j + 1];
    case _ =>
  }

  lemma {:induction false} StaysBehind(data: seq<int>, cell: int, s0: State, n: nat, schedule: seq<Process>)
    requires data != [] && SIGNAL !in data && n <= |schedule|
    requires Behind(data, cell, Exec(data, s0, schedule[..n]))
    ensures Behind(data, cell, Exec(data, s0, schedule))
    decreases |schedule|
  {
    if n == |schedule| {
      assert schedule[..n] == schedule;
    } else {
      var before := schedule[..|schedule| - 1];
      assert before[..n] == schedule[..n];
      StaysBehind(data, cell, s0, n, before);
      BehindKept(data, cell, Exec(data, s0, before), schedule[|schedule| - 1]);
    }
  }

  /** What the consumer gets in the end when it loads first: the second step decides.  If it is the
      first store, that value is overwritten by the acknowledgement of the stale one; otherwise every
      value arrives one place late. */
  function EarlyValues(data: seq<int>, cell: int, second: Process): seq<int>
    requires data != []
  {
    if second == Prod then [cell] + data[1..] else [cell] + data[..|data| - 1]
  }

  /** Where the producer is in the end: when it is one value behind, it polls for ever. */
  function EarlyEnd(data: seq<int>, second: Process): Producer
    requires data != []
  {
    if second == Prod then Ended else Poll(|data| - 1)
  }

  /** The second step settles which of the two situations the run stays in. */
  lemma {:induction false} AfterEarlyLoad(data: seq<int>, cell: int, schedule: seq<Process>)
    requires data != [] && SIGNAL !in data && |schedule| > 1 && schedule[0] == Cons
    ensures var s := Exec(data, Start(|data|, cell), schedule);
            if schedule[1] == Prod then InStep(data, EarlyValues(data, cell, Prod), s) else Behind(data, cell, s)
  {
    var s0, vals := Start(|data|, cell), EarlyValues(data, cell, schedule[1]);
    assert schedule[..2] == [Cons, schedule[1]];
    ExecTwo(data, s0, Cons, schedule[1]);
    assert [] + [cell] == vals[..1];
    if schedule[1] == Prod {
      StaysInStep(data, vals, s0, 2, schedule);
    } else {
      StaysBehind(data, cell, s0, 2, schedule);
    }
  }

  lemma BehindOutcome(data: seq<int>, cell: int, s: State)
    requires data != [] && SIGNAL !in data && Behind(data, cell, s)
    ensures RunsTo(data, s, Progress(|data|, s), EarlyValues(data, cell, Cons), Poll(|data| - 1), 5 * |data| - 1)
  {
  }

  /** Every run in which the consumer loads first: what it can read, and when and how it stops. */
  lemma {:induction false} EarlyLoad(data: seq<int>, cell: int, schedule: seq<Process>)
    requires data != [] && SIGNAL !in data && |schedule| > 1 && schedule[0] == Cons
    ensures RunsTo(data, Exec(data, Start(|data|, cell), schedule), Moves(data, Start(|data|, cell), schedule),
                   EarlyValues(data, cell, schedule[1]), EarlyEnd(data, schedule[1]),
                   if schedule[1] == Prod then 5 * |data| + 1 else 5 * |data| - 1)
  {
    var s := Exec(data, Start(|data|, cell), schedule);
    MovesAreProgress(data, cell, schedule);
    AfterEarlyLoad(data, cell, schedule);
    if schedule[1] == Prod {
      InStepOutcome(data, EarlyValues(data, cell, Prod), s);
    } else {
      BehindOutcome(data, cell, s);
    }
  }

  lemma {:induction false} NothingToRead(data: seq<int>, cell: int, schedule: seq<Process>)
    requires data == []
    ensures Exec(data, Start(|data|, cell), schedule).consumer == Finished
    ensures Exec(data, Start(|data|, cell), schedule).read == []
    decreases |schedule|
  {
    if schedule != [] {
      NothingToRead(data, cell, schedule[..|schedule| - 1]);
    }
  }

  lemma {:induction false} MovesBounded(data: seq<int>, cell: int, schedule: seq<Process>)
    requires SIGNAL !in data
    ensures Moves(data, Start(|data|, cell), schedule) <= 5 * |data| + 1
  {
    MovesAreProgress(data, cell, schedule);
    if |schedule| <= 1 {
      assert schedule == [] || schedule[..|schedule| - 1] == [];
    } else if data == [] {
      NothingToRead(data, cell, schedule);
    } else if schedule[0] == Prod {
      Delivers(data, cell, schedule);
    } else {
      EarlyLoad(data, cell, schedule);
    }
  }

  /** Every run can be driven on until nothing can move. */
  lemma {:induction false} CanStop(data: seq<int>, cell: int, schedule: seq<Process>) returns (rest: seq<Process>)
    requires SIGNAL !in data
    ensures Stuck(data, Exec(data, Start(|data|, cell), schedule + rest))
    decreases 5 * |data| + 1 - Moves(data, Start(|data|, cell), schedule)
  {
    var s0, s := Start(|data|, cell), Exec(data, Start(|data|, cell), schedule);
    if Stuck(data, s) {
      rest := [];
      assert schedule + rest == schedule;
    } else {
      var p := if ProducerStep(data, s) != s then Prod else Cons;
      var longer := schedule + [p];
      assert longer[..|schedule|] == schedule;
      assert Moves(data, s0, longer) == Moves(data, s0, schedule) + 1;
      MovesBounded(data, cell, longer);
      var more := CanStop(data, cell, longer);
      rest := [p] + more;
      assert schedule + rest == longer + more;
    }
  }

  /** The failing run, for any data: all values arrive one place late, the last one never, and the
      producer polls for ever. */
  lemma EarlyLoadShifts(data: seq<int>, cell: int) returns (schedule: seq<Process>)
    requires data != [] && SIGNAL !in data
    ensures schedule != [] && schedule[0] == Cons
    ensures var s := Exec(data, Start(|data|, cell), schedule);
            && Stuck(data, s) && s.producer == Poll(|data| - 1) && s.consumer == Finished
            && s.read == [cell] + data[..|data| - 1]
  {
    var rest := CanStop(data, cell, [Cons, Cons]);
    schedule := [Cons, Cons] + rest;
    EarlyLoad(data, cell, schedule);
  }

  /** Loading first is harmless for exactly the data that repeat what the cell held before. */
  lemma {:induction false} EarlyLoadDelivers(data: seq<int>, cell: int)
    requires SIGNAL !in data
    ensures (forall schedule: seq<Process> :: schedule != [] && schedule[0] == Cons ==>
               Exec(data, Start(|data|, cell), schedule).read <= data)
        <==> forall k :: 0 <= k < |data| ==> data[k] == cell
  {
    if data == [] {
      forall schedule: seq<Process> | schedule != [] && schedule[0] == Cons
        ensures Exec(data, Start(|data|, cell), schedule).read <= data
      {
        NothingToRead(data, cell, schedule);
      }
    } else if forall k :: 0 <= k < |data| ==> data[k] == cell {
      forall schedule: seq<Process> | schedule != [] && schedule[0] == Cons
        ensures Exec(data, Start(|data|, cell), schedule).read <= data
      {
        EarlyLoadRepeats(data, cell, schedule);
      }
    } else {
      var schedule := EarlyLoadShifts(data, cell);
      ShiftsAlike(data, cell);
    }
  }

  /** A sequence that is its own shift repeats its first value. */
  lemma {:induction false} ShiftsAlike(data: seq<int>, cell: int)
    requires data != []
    ensures [cell] + data[..|data| - 1] == data <==> forall k :: 0 <= k < |data| ==> data[k] == cell
  {
    if [cell] + data[..|data| - 1] == data {
      var k := 0;
      while k < |data|
        invariant k <= |data| && forall m :: 0 <= m < k ==> data[m] == cell
      {
        assert data[k] == ([cell] + data[..|data| - 1])[k];
        k := k + 1;
      }
    }
  }

  lemma RepeatedValues(data: seq<int>, cell: int, second: Process)
    requires data != [] && forall k :: 0 <= k < |data| ==> data[k] == cell
    ensures EarlyValues(data, cell, second) == data
  {
    ShiftsAlike(data, cell);
    assert [data[0]] + data[1..] == data;
  }

  lemma {:induction false} EarlyLoadRepeats(data: seq<int>, cell: int, schedule: seq<Process>)
    requires data != [] && SIGNAL !in data && schedule != [] && schedule[0] == Cons
    requires forall k :: 0 <= k < |data| ==> data[k] == cell
    ensures Exec(data, Start(|data|, cell), schedule).read <= data
  {
    if |schedule| == 1 {
      assert schedule == [Cons];
      ExecOne(data, Start(|data|, cell), Cons);
    } else {
      EarlyLoad(data, cell, schedule);
      RepeatedValues(data, cell, schedule[1]);
    }
  }

  /** With no order of the first steps given, the protocol is right for exactly the data that repeat
      the cell's old content and do not contain the acknowledgement value. */
  lemma {:induction false} DeliversUnordered(data: seq<int>, cell: int)
    ensures (forall schedule: seq<Process> :: Exec(data, Start(|data|, cell), schedule).read <= data)
        <==> SIGNAL !in data && forall k :: 0 <= k < |data| ==> data[k] == cell
  {
    DeliversExactly(data, cell);
    if SIGNAL !in data {
      EarlyLoadDelivers(data, cell);
    }
    if SIGNAL !in data && forall k :: 0 <= k < |data| ==> data[k] == cell {
      forall schedule: seq<Process>
        ensures Exec(data, Start(|data|, cell), schedule).read <= data
      {
        if schedule == [] {
          assert Exec(data, Start(|data|, cell), schedule) == Start(|data|, cell);
        } else {
          assert schedule[0] == Prod || schedule[0] == Cons;
        }
      }
    }
  }

  /** Two processes and their shared page. */
  class Page {
    const data: seq<int>
    var cell: int            // *shared_data
    var producer: Producer
    var consumer: Consumer
    var read: seq<int>       // read[..i] of the consumer

    function Abstract(): State
      reads this
    {
      State(cell, producer, consumer, read)
    }

    constructor (data: seq<int>, cell: int)
      ensures this.data == data && Abstract() == Start(|data|, cell)
    {
      this.data, this.cell, producer, read := data, cell, Store(0), [];
      consumer := if |data| == 0 then Finished else Load(0);
    }

    /** One load or store of the producer's `main`. */
    method RunProducer()
      modifies this
      ensures Abstract() == Step(data, old(Abstract()), Prod)
    {
      match producer {
        case Store(i) =>
          if i < |data| {
            cell := data[i];
            producer := Poll(i);
          } else {
            cell := ENDSIGNAL;
            producer := Ended;
          }
        case Poll(i) =>
          if cell == SIGNAL {
            producer := Store(i + 1);
          }
        case Ended =>
      }
    }

    /** One load or store of the consumer's `main`. */
    method RunConsumer()
      modifies this
      ensures Abstract() == Step(data, old(Abstract()), Cons)
    {
      match consumer {
        case Load(j) =>
          read := read + [cell];
          consumer := Acknowledge(j);
        case Acknowledge(j) =>
          cell := SIGNAL;
          consumer := Await(j);
        case Await(j) =>
          if cell != SIGNAL {
            consumer := if j + 1 < |data| then Load(j + 1) else Finished;
          }
        case Finished =>
      }
    }
  }
}
