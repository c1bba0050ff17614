/** The row pipeline of the script engine: single statements connected by queues, each with
    one state operator, run in rounds until every statement is out of work. This module has
    the steps on values and what they keep; module ComboRunner has the objects. */
module Pipeline {
  import opened Basics
  import opened Words
  import C = Compiler

  datatype Value = Number(n: int) | Row(columns: seq<int>)

  // ---------- state operators ----------

  /** What one invocation of a state operator pushes, and whether it wants to be run again
      for the same input. */
  datatype Burst = Burst(op: StateOp, out: seq<Value>, more: bool)

  datatype FeatureStep = FeatureStep(memory: int, out: seq<Value>, more: bool)

  /** What the operators of a statement hold: each keeps its result, and counters count. */
  type Results = seq<C.Val>

  /** The state operators: a table run through row by row, a range of numbers, a filter (which
      looks at the row and at what the operators hold), and a plugin's feature. A feature
      is given by what it does with its memory and its input; `work` bounds how often it
      asks to be run again. */
  datatype StateOp =
    | LoopVar(table: seq<Value>, cur: nat)
    | VectorMaker(current: Int32, end: Int32, step: Int32)
    | Filter(holds: (Results, Value) -> bool)
    | Feature(memory: int, run: (int, Option<Value>) -> FeatureStep, work: (int, Option<Value>) -> nat)

  function InvokeOp(op: StateOp, row: Option<Value>, results: Results): Burst
  {
    match op
    case LoopVar(table, cur) =>
      if cur >= |table| then Burst(op, [], false)
      else Burst(LoopVar(table, cur + 1), [table[cur]], cur + 1 < |table|)
    case VectorMaker(current, end, step) =>
      if current >= end then Burst(op, [], false)
      else Burst(VectorMaker(Wrap(current + step), end, step), [Number(current)], true)
    case Filter(holds) =>
      Burst(op, if row.Some? && holds(results, row.value) then [row.value] else [], false)
    case Feature(memory, run, work) =>
      var s := run(memory, row);
      Burst(Feature(s.memory, run, work), s.out, s.more)
  }

  /** A vector maker comes to its end or beyond in `turns` turns. */
  predicate Arrives(op: StateOp, turns: nat)
    requires op.VectorMaker?
  {
    Wrap(op.current + turns * op.step) >= op.end
  }

  /** The operator asks to be run again only finitely often. */
  ghost predicate Finite(op: StateOp)
  {
    && (op.VectorMaker? ==> exists turns :: Arrives(op, turns))
    && (op.Feature? ==> forall memory, row {:trigger op.run(memory, row)} :: op.run(memory, row).more ==>
          op.work(op.run(memory, row).memory, row) < op.work(memory, row))
  }

  /** The range `begin : end : step` as the vector maker sets it up; a step in the wrong
      direction is an error. */
  function MakeRange(begin: Int32, end: Int32, step: Int32): Option<StateOp>
  {
    if Wrap(Wrap(end - begin) * step) < 0 then None else Some(VectorMaker(begin, end, step))
  }

  function Next(op: StateOp): StateOp
    requires op.VectorMaker?
  {
    VectorMaker(Wrap(op.current + op.step), op.end, op.step)
  }

  lemma NextArrives(op: StateOp, turns: nat)
    requires op.VectorMaker?
    ensures Arrives(Next(op), turns) <==> Arrives(op, turns + 1)
  {
    assert op.current + (turns + 1) * op.step == op.current + op.step + turns * op.step;
    WrapSum(op.current + op.step, turns * op.step);
  }

  /** The first turn, up to a given one, on which the vector maker arrives. */
  ghost function Turns(op: StateOp, turns: nat): nat
    requires op.VectorMaker? && Arrives(op, turns)
    decreases turns
  {
    if op.current >= op.end then 0
    else
      NextArrives(op, turns - 1);
      1 + Turns(Next(op), turns - 1)
  }

  lemma {:induction false} TurnsFixed(op: StateOp, a: nat, b: nat)
    requires op.VectorMaker? && Arrives(op, a) && Arrives(op, b)
    ensures Turns(op, a) == Turns(op, b)
    decreases a
  {
    hide Arrives, Wrap;
    if op.current < op.end {
      NotYet(op);
      NextArrives(op, a - 1);
      NextArrives(op, b - 1);
      TurnsFixed(Next(op), a - 1, b - 1);
    }
  }

  /** The sign of difference and step is read from their product as 32 bits hold it. */
  lemma RangeAccepted(begin: Int32, end: Int32, step: Int32)
    ensures MakeRange(begin, end, step).Some? <==> (end - begin) * step % WORD <= INT_MAX
    ensures -INT_MAX - 1 <= (end - begin) * step <= INT_MAX ==>
      (MakeRange(begin, end, step).Some? <==> (end - begin) * step >= 0)
  {
    var product := (end - begin) * step;
    WrapProduct(end - begin, step);
    WrapSign(product);
    if -INT_MAX - 1 <= product <= INT_MAX {
      WrapIs(product, product, 0);
    }
  }

  /** The greatest 32-bit integer that the steps of a range can come to. */
  function Greatest(begin: Int32, step: Int32): (r: int)
  {
    INT_MAX - (INT_MAX - begin) % TwoPart(step, BITS)
  }

  /** A range ends if and only if the greatest integer that differs from its begin by a multiple of
      the power of two in its step is not before its end. A zero step has all powers of two in it. */
  lemma RangeEnds(begin: Int32, end: Int32, step: Int32)
    ensures Finite(VectorMaker(begin, end, step)) <==> Greatest(begin, step) >= end
  {
    hide TwoPart, Wrap;
    var op := VectorMaker(begin, end, step);
    if turns: nat :| Arrives(op, turns) {
      StepsStay(begin, step, turns);
    }
    if Greatest(begin, step) >= end {
      var turns := StepsReach(begin, step);
      assert Arrives(op, turns);
    }
  }

  /** Ranges that overflow: one that never ends though its step leads past the end, a proper one
      that is refused, and one in the wrong direction that is accepted and ends. */
  lemma RangesOverflow()
    ensures MakeRange(2147483646, 2147483647, 2).Some? && !Finite(VectorMaker(2147483646, 2147483647, 2))
    ensures MakeRange(0, 100000, 30000) == None
    ensures MakeRange(0, 100000, -30000).Some? && Finite(VectorMaker(0, 100000, -30000))
    ensures MakeRange(0, 1, 0).Some? && !Finite(VectorMaker(0, 1, 0))
  {
    RangeEnds(2147483646, 2147483647, 2);
    RangeEnds(0, 100000, -30000);
    RangeEnds(0, 1, 0);
  }

  ghost function Work(op: StateOp, row: Option<Value>): nat
    requires Finite(op)
  {
    match op
    case LoopVar(table, cur) => if cur < |table| then |table| - cur else 0
    case VectorMaker(_, _, _) =>
      var turns :| Arrives(op, turns);
      Turns(op, turns)
    case Filter(_) => 0
    case Feature(memory, _, work) => work(memory, row)
  }

  lemma NotYet(op: StateOp)
    requires op.VectorMaker? && op.current < op.end
    ensures !Arrives(op, 0)
  {
    WrapIs(op.current, op.current, 0);
  }

  lemma WorkIs(op: StateOp, row: Option<Value>, turns: nat)
    requires op.VectorMaker? && Arrives(op, turns)
    ensures Work(op, row) == Turns(op, turns)
  {
    hide Arrives, Turns;
    forall other: nat | Arrives(op, other) ensures Turns(op, other) == Turns(op, turns) {
      TurnsFixed(op, other, turns);
    }
  }

  /** A vector maker that has a turn to go gets on with it. */
  lemma NextWorks(op: StateOp, row: Option<Value>)
    requires op.VectorMaker? && op.current < op.end
    ensures Finite(Next(op)) <==> Finite(op)
    ensures Finite(op) ==> Work(op, row) == Work(Next(op), row) + 1
  {
    hide Arrives, Work;
    NotYet(op);
    if Finite(op) {
      var turns: nat :| Arrives(op, turns);
      NextArrives(op, turns - 1);
      WorkIs(op, row, turns);
      WorkIs(Next(op), row, turns - 1);
    }
    if Finite(Next(op)) {
      var turns: nat :| Arrives(Next(op), turns);
      NextArrives(op, turns);
    }
  }

  /** A range that does not end asks to be run again, and again. */
  lemma EndlessRange(op: StateOp, row: Option<Value>, results: Results)
    requires op.VectorMaker? && !Finite(op)
    ensures var b := InvokeOp(op, row, results); b.more && b.op.VectorMaker? && !Finite(b.op)
  {
    WrapIs(op.current, op.current, 0);
    assert !Arrives(op, 0);
    NextWorks(op, row);
  }

  lemma InvokeWorks(op: StateOp, row: Option<Value>, results: Results)
    requires Finite(op)
    ensures var b := InvokeOp(op, row, results); Finite(b.op) && (b.more ==> Work(b.op, row) < Work(op, row))
  {
    if op.Feature? {
      var s := op.run(op.memory, row);
    } else if op.VectorMaker? && op.current < op.end {
      NextWorks(op, row);
    }
  }

  // ---------- one statement, on its own ----------

  /** The operators of a statement: those that run once for a row, which leave their results
      behind and tell whether all of them succeeded, and the state operator. */
  datatype Machine = Machine(list: (Results, Value) -> (Results, bool), op: StateOp, results: Results)

  /** What a machine puts out, where it ends up, and how many invocations that takes. */
  datatype Trace = Trace(out: seq<Value>, end: Machine, events: nat)

  /** Runs the state operator until it is done with its input. */
  ghost function RunOut(m: Machine, row: Option<Value>): (t: Trace)
    requires Finite(m.op)
    ensures Finite(t.end.op)
    decreases Work(m.op, row)
  {
    InvokeWorks(m.op, row, m.results);
    var b := InvokeOp(m.op, row, m.results);
    var next := m.(op := b.op);
    if b.more then
      var rest := RunOut(next, row);
      Trace(b.out + rest.out, rest.end, rest.events + 1)
    else Trace(b.out, next, 1)
  }

  /** Takes one row: the operators that run once may refuse it. */
  ghost function TakeRow(m: Machine, row: Value): (t: Trace)
    requires Finite(m.op)
    ensures Finite(t.end.op)
  {
    var ran := m.list(m.results, row);
    var next := m.(results := ran.0);
    if ran.1 then
      var t := RunOut(next, Some(row));
      t.(events := t.events + 1)
    else Trace([], next, 1)
  }

  /** The flat map of the statement over rows, in order. */
  ghost function Flow(m: Machine, rows: seq<Value>): (t: Trace)
    requires Finite(m.op)
    ensures Finite(t.end.op)
    decreases |rows|
  {
    if rows == [] then Trace([], m, 0)
    else
      var first := TakeRow(m, rows[0]);
      var rest := Flow(first.end, rows[1..]);
      Trace(first.out + rest.out, rest.end, first.events + rest.events)
  }

  // ---------- statements connected by queues ----------

  /** `fed` tells whether the statement has an inport. */
  datatype Stage = Stage(fed: bool, machine: Machine, queue: seq<Value>, row: Option<Value>, runMore: bool, init: bool)

  /** A statement as the compiler leaves it. */
  function NewStage(fed: bool, list: (Results, Value) -> (Results, bool), op: StateOp, results: Results): Stage
  {
    Stage(fed, Machine(list, op, results), [], None, false, true)
  }

  /** Runs the state operator as long as it wants to and nothing waits in the outport. */
  function Drain(s: Stage): (s': Stage)
    requires Finite(s.machine.op)
    ensures Finite(s'.machine.op) && s'.fed == s.fed && s'.init == s.init && s'.row == s.row
    ensures s'.runMore ==> s'.queue != []
    decreases s.runMore, Work(s.machine.op, s.row)
  {
    if s.runMore && s.queue == [] then
      InvokeWorks(s.machine.op, s.row, s.machine.results);
      var b := InvokeOp(s.machine.op, s.row, s.machine.results);
      Drain(s.(machine := s.machine.(op := b.op), queue := b.out, runMore := b.more))
    else s
  }

  /** What the non-state operators do when the statement is ready for new input. Without an
      inport the first run is forced. */
  function Fetch(before: seq<Value>, s: Stage): Stage
  {
    if s.init && !s.fed then s.(init := false, runMore := true)
    else if s.runMore || !s.fed then s.(init := false)
    else if before == [] then s.(init := false, row := None)
    else
      var ran := s.machine.list(s.machine.results, before[0]);
      s.(init := false, row := Some(before[0]), machine := s.machine.(results := ran.0), runMore := ran.1)
  }

  /** Whether fetching takes a row from the queue before. */
  predicate Takes(before: seq<Value>, s: Stage)
  {
    s.fed && !s.runMore && before != []
  }

  /** One invocation of a statement. Its result is whether rows wait in its outport. */
  function Invoke(before: seq<Value>, s: Stage): Stage
    requires Finite(s.machine.op)
  {
    Drain(Fetch(before, s))
  }

  ghost predicate Sound(stages: seq<Stage>)
  {
    && stages != []
    && (forall i {:trigger stages[i]} | 0 <= i < |stages| :: Finite(stages[i].machine.op) && (stages[i].fed <==> i > 0))
    && (forall i {:trigger stages[i]} | 0 <= i < |stages| && stages[i].runMore && i > 0 :: stages[i].row.Some?)
  }

  // ---------- the future of a pipeline ----------

  /** What the last statement will still put out, and how many invocations of state operators
      and rows taken that needs in all statements. */
  datatype Future = Future(out: seq<Value>, events: nat)

  /** What is left of the input a statement is at. */
  ghost function Pending(s: Stage): (t: Trace)
    requires Finite(s.machine.op)
    ensures Finite(t.end.op)
  {
    if s.runMore || (s.init && !s.fed) then RunOut(s.machine, s.row) else Trace([], s.machine, 0)
  }

  ghost function FutureWith(before: Future, s: Stage): Future
    requires Finite(s.machine.op)
  {
    var pending := Pending(s);
    var flow := Flow(pending.end, before.out);
    Future(s.queue + pending.out + flow.out, before.events + pending.events + flow.events)
  }

  ghost function FutureOf(stages: seq<Stage>): Future
    requires Sound(stages) || stages == []
    decreases |stages|
  {
    if stages == [] then Future([], 0)
    else
      var last := |stages| - 1;
      assert stages[..last] != [] ==> Sound(stages[..last]);
      FutureWith(FutureOf(stages[..last]), stages[last])
  }

  /** Draining moves output from the future into the queue. */
  lemma {:induction false} DrainKeeps(before: Future, s: Stage)
    requires Finite(s.machine.op) && (s.init ==> s.fed)
    ensures FutureWith(before, Drain(s)).out == FutureWith(before, s).out
    ensures FutureWith(before, Drain(s)).events <= FutureWith(before, s).events
    ensures s.runMore && s.queue == [] ==> FutureWith(before, Drain(s)).events < FutureWith(before, s).events
    decreases s.runMore, Work(s.machine.op, s.row)
  {
    hide Finite, Work, InvokeOp;
    if s.runMore && s.queue == [] {
      InvokeWorks(s.machine.op, s.row, s.machine.results);
      var b := InvokeOp(s.machine.op, s.row, s.machine.results);
      var next := s.(machine := s.machine.(op := b.op), queue := b.out, runMore := b.more);
      DrainKeeps(before, next);
      assert Drain(s) == Drain(next);
      assert RunOut(s.machine, s.row).end == Pending(next).end;
      assert RunOut(s.machine, s.row).out == next.queue + Pending(next).out;
    }
  }

  /** Fetching without taking a row changes nothing that matters. */
  lemma FetchKeeps(before: Future, queue: seq<Value>, s: Stage)
    requires Finite(s.machine.op) && !Takes(queue, s)
    ensures FutureWith(before, Fetch(queue, s)) == FutureWith(before, s)
    ensures Finite(Fetch(queue, s).machine.op) && !Fetch(queue, s).init
  {
  }

  /** Taking a row is one step of the flat map. */
  lemma TakeKeeps(before: Future, rest: Future, queue: seq<Value>, s: Stage)
    requires Finite(s.machine.op) && Takes(queue, s) && before.out == [queue[0]] + rest.out
    requires before.events == rest.events
    ensures Finite(Fetch(queue, s).machine.op) && !Fetch(queue, s).init
    ensures var after := FutureWith(rest, Fetch(queue, s));
      after.out == FutureWith(before, s).out && after.events + 1 == FutureWith(before, s).events
  {
    var s' := Fetch(queue, s);
    var first := TakeRow(s.machine, queue[0]);
    assert before.out[1..] == rest.out;
    assert Flow(s.machine, before.out).out == first.out + Flow(first.end, rest.out).out;
    assert Pending(s').end == first.end && Pending(s').out == first.out && Pending(s').events + 1 == first.events;
  }

  // ---------- invoking one statement of a pipeline ----------

  ghost function Before(stages: seq<Stage>, i: nat): seq<Value>
    requires i < |stages|
  {
    if i == 0 then [] else stages[i - 1].queue
  }

  /** The pipeline without the first row in the outport of its last statement. */
  ghost function Popped(stages: seq<Stage>): seq<Stage>
    requires stages != [] && stages[|stages| - 1].queue != []
  {
    var last := |stages| - 1;
    stages[last := stages[last].(queue := stages[last].queue[1..])]
  }

  lemma PoppedSound(stages: seq<Stage>)
    requires Sound(stages) && stages[|stages| - 1].queue != []
    ensures Sound(Popped(stages)) && Popped(stages)[..|stages| - 1] == stages[..|stages| - 1]
  {
    var last := |stages| - 1;
    forall i | 0 <= i < |stages| ensures Popped(stages)[i]
      == if i == last then stages[last].(queue := stages[last].queue[1..]) else stages[i] {
    }
  }

  /** The future of a pipeline is what its last statement makes of that of the others. */
  lemma LastFuture(stages: seq<Stage>)
    requires Sound(stages)
    ensures var last := |stages| - 1;
      && (stages[..last] == [] || Sound(stages[..last])) && Finite(stages[last].machine.op)
      && FutureOf(stages) == FutureWith(FutureOf(stages[..last]), stages[last])
  {
  }

  lemma FirstGoes(before: Future, s: Stage)
    requires Finite(s.machine.op) && s.queue != []
    ensures var popped := s.(queue := s.queue[1..]);
      && FutureWith(before, s).out == [s.queue[0]] + FutureWith(before, popped).out
      && FutureWith(before, s).events == FutureWith(before, popped).events
  {
    var popped := s.(queue := s.queue[1..]);
    assert Pending(popped) == Pending(s);
    FirstOf(s.queue, Pending(s).out, Flow(Pending(s).end, before.out).out);
  }

  lemma PoppedKeeps(stages: seq<Stage>)
    requires Sound(stages) && stages[|stages| - 1].queue != []
    ensures Sound(Popped(stages))
    ensures FutureOf(stages).out == [stages[|stages| - 1].queue[0]] + FutureOf(Popped(stages)).out
    ensures FutureOf(stages).events == FutureOf(Popped(stages)).events
  {
    var last := |stages| - 1;
    PoppedSound(stages);
    LastFuture(stages);
    LastFuture(Popped(stages));
    FirstGoes(FutureOf(stages[..last]), stages[last]);
  }

  lemma FirstOf(a: seq<Value>, b: seq<Value>, c: seq<Value>)
    requires a != []
    ensures a + b + c == [a[0]] + (a[1..] + b + c)
  {
  }

  /** Invokes the statement at place `i`, which may take a row from the one before. */
  ghost function InvokeAt(stages: seq<Stage>, i: nat): seq<Stage>
    requires Sound(stages) && i < |stages|
  {
    var invoked := stages[i := Invoke(Before(stages, i), stages[i])];
    if i > 0 && Takes(Before(stages, i), stages[i])
    then invoked[i - 1 := stages[i - 1].(queue := stages[i - 1].queue[1..])] else invoked
  }

  /** Whether that gets anything done. */
  ghost predicate Progress(stages: seq<Stage>, i: nat)
    requires i < |stages|
  {
    || Takes(Before(stages, i), stages[i])
    || (stages[i].queue == [] && (stages[i].runMore || (stages[i].init && !stages[i].fed)))
  }

  ghost function Used(stages: seq<Stage>, i: nat): nat
    requires i < |stages|
  {
    if Progress(stages, i) then 1 else 0
  }

  lemma InvokeSound(stages: seq<Stage>, i: nat)
    requires Sound(stages) && i < |stages|
    ensures Sound(InvokeAt(stages, i)) && |InvokeAt(stages, i)| == |stages|
  {
  }

  lemma InvokeLast(stages: seq<Stage>)
    requires Sound(stages)
    ensures var i := |stages| - 1; SameFuture(stages, InvokeAt(stages, i), Used(stages, i)) == true
  {
    var i := |stages| - 1;
    var s, queue, stages' := stages[i], Before(stages, i), InvokeAt(stages, i);
    InvokeSound(stages, i);
    var prefix := stages[..i];
    assert prefix != [] ==> Sound(prefix);
    var before := FutureOf(prefix);
    if Takes(queue, s) {
      PoppedKeeps(prefix);
      assert stages'[..i] == Popped(prefix);
      TakeKeeps(before, FutureOf(Popped(prefix)), queue, s);
      DrainKeeps(FutureOf(Popped(prefix)), Fetch(queue, s));
    } else {
      assert stages'[..i] == prefix;
      FetchKeeps(before, queue, s);
      DrainKeeps(before, Fetch(queue, s));
    }
  }

  /** The last statement has no part in what the others do. */
  lemma InvokeFront(stages: seq<Stage>, i: nat)
    requires Sound(stages) && i < |stages| - 1
    ensures var last := |stages| - 1;
      && Sound(stages[..last]) && InvokeAt(stages, i)[..last] == InvokeAt(stages[..last], i)
      && InvokeAt(stages, i)[last] == stages[last] && Used(stages[..last], i) == Used(stages, i)
  {
    var prefix := stages[..|stages| - 1];
    assert Before(prefix, i) == Before(stages, i);
  }

  /** The second pipeline will put out what the first one will, and needs this many events less. */
  ghost predicate SameFuture(stages: seq<Stage>, after: seq<Stage>, used: nat)
  {
    && Sound(stages) && Sound(after) && |after| == |stages|
    && FutureOf(after).out == FutureOf(stages).out && FutureOf(after).events + used <= FutureOf(stages).events
  }

  /** A last statement that both have does not change that. */
  lemma SameFutureBehind(stages: seq<Stage>, after: seq<Stage>, used: nat)
    requires Sound(stages) && Sound(after) && |stages| == |after| >= 2
    requires stages[|stages| - 1] == after[|stages| - 1]
    requires SameFuture(stages[..|stages| - 1], after[..|stages| - 1], used) == true
    ensures SameFuture(stages, after, used) == true
  {
    var last := |stages| - 1;
    LastFuture(stages);
    LastFuture(after);
    SameOutput(FutureOf(stages[..last]), FutureOf(after[..last]), stages[last]);
  }

  lemma SameOutput(before: Future, after: Future, s: Stage)
    requires Finite(s.machine.op) && before.out == after.out
    ensures FutureWith(after, s).out == FutureWith(before, s).out
    ensures FutureWith(after, s).events - FutureWith(before, s).events == after.events - before.events
  {
  }

  /** Invoking any statement, at any time, leaves what the pipeline will put out as it is,
      and uses up events if it gets anything done. */
  lemma {:induction false} InvokeKeeps(stages: seq<Stage>, i: nat)
    requires Sound(stages) && i < |stages|
    ensures SameFuture(stages, InvokeAt(stages, i), Used(stages, i)) == true
    decreases |stages|
  {
    var last := |stages| - 1;
    if i == last {
      InvokeLast(stages);
    } else {
      InvokeFront(stages, i);
      InvokeKeeps(stages[..last], i);
      InvokeSound(stages, i);
      SameFutureBehind(stages, InvokeAt(stages, i), Used(stages, i));
    }
  }

  // ---------- whole runs ----------

  /** Nothing waits, nobody is at work, and the source has been run. */
  ghost predicate Quiet(stages: seq<Stage>)
  {
    forall i {:trigger stages[i]} | 0 <= i < |stages| ::
      stages[i].queue == [] && !stages[i].runMore && (stages[i].init ==> stages[i].fed)
  }

  lemma {:induction false} QuietIsDone(stages: seq<Stage>)
    requires (Sound(stages) || stages == []) && Quiet(stages)
    ensures FutureOf(stages).out == []
  {
    if stages != [] {
      var prefix := stages[..|stages| - 1];
      assert prefix != [] ==> Sound(prefix);
      QuietIsDone(prefix);
    }
  }

  /** One thing the combo may do: invoke the statement at a place, or let the collector take
      a row from the last one. */
  datatype Action = InvokeStage(place: nat) | Collect

  datatype Combo = Combo(stages: seq<Stage>, table: seq<Value>)

  ghost function Act(c: Combo, a: Action): Combo
    requires Sound(c.stages)
  {
    match a
    case InvokeStage(i) => if i < |c.stages| then c.(stages := InvokeAt(c.stages, i)) else c
    case Collect =>
      var queue := c.stages[|c.stages| - 1].queue;
      if queue == [] then c else Combo(Popped(c.stages), c.table + [queue[0]])
  }

  /** All that the combo will have collected in the end. */
  ghost function Total(c: Combo): seq<Value>
    requires Sound(c.stages)
  {
    c.table + FutureOf(c.stages).out
  }

  lemma ActKeeps(c: Combo, a: Action)
    requires Sound(c.stages)
    ensures Sound(Act(c, a).stages) && Total(Act(c, a)) == Total(c)
  {
    match a
    case InvokeStage(i) =>
      if i < |c.stages| {
        InvokeKeeps(c.stages, i);
      }
    case Collect =>
      if c.stages[|c.stages| - 1].queue != [] {
        PoppedKeeps(c.stages);
      }
  }

  ghost function Perform(c: Combo, actions: seq<Action>): Combo
    requires Sound(c.stages)
    decreases |actions|
  {
    if actions == [] then c
    else
      ActKeeps(c, actions[0]);
      Perform(Act(c, actions[0]), actions[1..])
  }

  /** Whatever the order in which statements and collector take their turns: once the
      pipeline is quiet, the table is what the pipeline was to put out. */
  lemma {:induction false} AnyOrder(c: Combo, actions: seq<Action>)
    requires Sound(c.stages)
    ensures Sound(Perform(c, actions).stages) && Total(Perform(c, actions)) == Total(c)
    ensures Quiet(Perform(c, actions).stages) ==> Perform(c, actions).table == Total(c)
    decreases |actions|
  {
    if actions == [] {
      if Quiet(c.stages) {
        QuietIsDone(c.stages);
      }
    } else {
      ActKeeps(c, actions[0]);
      AnyOrder(Act(c, actions[0]), actions[1..]);
    }
  }

  /** The composition of the statements' flat maps, from the source on. */
  ghost function Composed(stages: seq<Stage>): seq<Value>
    requires Sound(stages) || stages == []
    decreases |stages|
  {
    if stages == [] then []
    else
      var last := |stages| - 1;
      assert stages[..last] != [] ==> Sound(stages[..last]);
      if last == 0 then RunOut(stages[0].machine, None).out
      else Flow(stages[last].machine, Composed(stages[..last])).out
  }

  /** Statements that have not run yet. */
  ghost predicate Fresh(stages: seq<Stage>)
  {
    forall i {:trigger stages[i]} | 0 <= i < |stages| ::
      stages[i].queue == [] && !stages[i].runMore && stages[i].init && stages[i].row == None
  }

  /** A fresh pipeline will put out that composition. */
  lemma {:induction false} FreshIsComposed(stages: seq<Stage>)
    requires (Sound(stages) || stages == []) && Fresh(stages)
    ensures FutureOf(stages).out == Composed(stages)
  {
    if stages != [] {
      var prefix := stages[..|stages| - 1];
      assert prefix != [] ==> Sound(prefix);
      FreshIsComposed(prefix);
    }
  }

  // ---------- what the operators do, from first to last row ----------

  ghost function Numbers(from: int, end: int, step: int): seq<Value>
    requires from < end ==> step > 0
    decreases end - from
  {
    if from >= end then [] else [Number(from)] + Numbers(from + step, end, step)
  }

  /** They are the numbers before the end that are a number of steps from the first. */
  lemma {:induction false} NumbersAre(from: int, end: int, step: int)
    requires from < end && step > 0
    ensures var numbers := Numbers(from, end, step);
      && |numbers| == (end - 1 - from) / step + 1
      && forall i :: 0 <= i < |numbers| ==> numbers[i] == Number(from + i * step) && from + i * step < end
    decreases end - from
  {
    DivLess(end - 1 - from, step);
    var numbers := Numbers(from, end, step);
    if from + step < end {
      NumbersAre(from + step, end, step);
      forall i | 0 <= i < |numbers| ensures numbers[i] == Number(from + i * step) && from + i * step < end {
        NextMultiple(from, i, step);
        assert i > 0 ==> numbers[i] == Numbers(from + step, end, step)[i - 1];
      }
    } else {
      assert Numbers(from + step, end, step) == [];
      assert numbers == [Number(from)] + Numbers(from + step, end, step);
    }
  }

  lemma NextMultiple(from: int, i: int, step: int)
    ensures from + i * step == from + step + (i - 1) * step
  {
  }

  /** The first number of a range at its end or beyond. */
  function Beyond(from: int, end: int, step: int): int
    requires from < end && step > 0
  {
    from + ((end - 1 - from) / step + 1) * step
  }

  lemma DivLess(a: nat, b: nat)
    requires b > 0
    ensures if a < b then a / b == 0 else a / b == (a - b) / b + 1
  {
    if a < b {
      Remainder(a, b, 0, a);
    } else {
      var q, r := (a - b) / b, (a - b) % b;
      assert (q + 1) * b == q * b + b;
      Remainder(a, b, q + 1, r);
    }
  }

  lemma BeyondNext(from: int, end: int, step: int)
    requires from < end && step > 0
    ensures if from + step < end then Beyond(from + step, end, step) == Beyond(from, end, step)
      else Beyond(from, end, step) == from + step
  {
    DivLess(end - 1 - from, step);
    if from + step < end {
      var q := (end - 1 - from - step) / step;
      assert (q + 2) * step == step + (q + 1) * step;
    }
  }

  lemma RangeTurn(m: Machine, row: Option<Value>)
    requires m.op.VectorMaker? && Finite(m.op) && m.op.current < m.op.end
    ensures Finite(Next(m.op))
    ensures RunOut(m, row).out == [Number(m.op.current)] + RunOut(m.(op := Next(m.op)), row).out
  {
    hide Arrives, Work;
    NextWorks(m.op, row);
  }

  /** A range gives the numbers from `from`, in steps, up to but not including `end`, and ends, if
      and only if its first number not before `end` is a 32-bit integer. */
  lemma {:induction false} RangeRuns(m: Machine, row: Option<Value>, from: Int32, end: Int32, step: Int32)
    requires m.op == VectorMaker(from, end, step) && (step > 0 || from >= end)
    ensures Finite(m.op) && RunOut(m, row).out == Numbers(from, end, step)
      <==> from >= end || Beyond(from, end, step) <= INT_MAX
    decreases end - from
  {
    hide Finite, Arrives, RunOut, Beyond;
    if from >= end {
      RangeDone(m, row);
    } else {
      var next := m.(op := Next(m.op));
      NextWorks(m.op, row);
      BeyondNext(from, end, step);
      if Finite(m.op) {
        RangeTurn(m, row);
      }
      if from + step <= INT_MAX {
        WrapIs(from + step, from + step, 0);
        RangeRuns(next, row, from + step, end, step);
        assert Numbers(from, end, step)[1..] == Numbers(from + step, end, step);
        assert Finite(m.op) ==> RunOut(m, row).out[1..] == RunOut(next, row).out;
      } else {
        WrapIs(from + step, from + step - WORD, 1);
        if Finite(m.op) {
          RangeTurn(next, row);
        }
        assert Numbers(from, end, step) == [Number(from)];
      }
    }
  }

  lemma RangeDone(m: Machine, row: Option<Value>)
    requires m.op.VectorMaker? && m.op.current >= m.op.end
    ensures Finite(m.op) && RunOut(m, row).out == []
  {
    WrapIs(m.op.current, m.op.current, 0);
    assert Arrives(m.op, 0);
  }

  /** What a feature puts out for a row, and the memory that it ends with: it is run with the memory
      of the run before, until it asks for no more. */
  ghost function FeatureRuns(op: StateOp, row: Option<Value>): (r: (seq<Value>, int))
    requires op.Feature? && Finite(op)
    decreases op.work(op.memory, row)
  {
    var s := op.run(op.memory, row);
    if s.more then
      var rest := FeatureRuns(op.(memory := s.memory), row);
      (s.out + rest.0, rest.1)
    else (s.out, s.memory)
  }

  lemma {:induction false} FeaturePutsOut(m: Machine, row: Option<Value>)
    requires m.op.Feature? && Finite(m.op)
    ensures RunOut(m, row).out == FeatureRuns(m.op, row).0
    ensures RunOut(m, row).end == m.(op := m.op.(memory := FeatureRuns(m.op, row).1))
    decreases m.op.work(m.op.memory, row)
  {
    var s := m.op.run(m.op.memory, row);
    if s.more {
      FeaturePutsOut(m.(op := m.op.(memory := s.memory)), row);
    }
  }

  /** What it puts out for the rows of its inport that are accepted, its memory going on from row to
      row. */
  ghost function FeatureOver(op: StateOp, rows: seq<Value>, results: Results,
      list: (Results, Value) -> (Results, bool)): (out: seq<Value>)
    requires op.Feature? && Finite(op)
    decreases |rows|
  {
    if rows == [] then []
    else
      var ran := list(results, rows[0]);
      if ran.1 then
        var runs := FeatureRuns(op, Some(rows[0]));
        runs.0 + FeatureOver(op.(memory := runs.1), rows[1..], ran.0, list)
      else FeatureOver(op, rows[1..], ran.0, list)
  }

  lemma {:induction false} FeatureFlows(m: Machine, rows: seq<Value>)
    requires m.op.Feature? && Finite(m.op)
    ensures Flow(m, rows).out == FeatureOver(m.op, rows, m.results, m.list)
    decreases |rows|
  {
    if rows != [] {
      var ran := m.list(m.results, rows[0]);
      if ran.1 {
        FeaturePutsOut(m.(results := ran.0), Some(rows[0]));
      }
      FeatureFlows(TakeRow(m, rows[0]).end, rows[1..]);
    }
  }

  /** The rows of the table from the cursor on. */
  lemma {:induction false} TableRuns(m: Machine, row: Option<Value>, table: seq<Value>, cur: nat)
    requires m.op == LoopVar(table, cur)
    ensures RunOut(m, row).out == if cur < |table| then table[cur..] else []
    decreases |table| - cur
  {
    if cur + 1 < |table| {
      TableRuns(m.(op := LoopVar(table, cur + 1)), row, table, cur + 1);
    }
  }

  /** The rows that the operators run through and that then meet the condition, each tested with
      what the operators hold behind the rows before it. */
  ghost function Selected(rows: seq<Value>, results: Results, list: (Results, Value) -> (Results, bool),
      holds: (Results, Value) -> bool): seq<Value>
  {
    if rows == [] then []
    else
      var ran := list(results, rows[0]);
      (if ran.1 && holds(ran.0, rows[0]) then [rows[0]] else []) + Selected(rows[1..], ran.0, list, holds)
  }

  lemma {:induction false} FilterSelects(m: Machine, rows: seq<Value>)
    requires m.op.Filter?
    ensures Flow(m, rows).out == Selected(rows, m.results, m.list, m.op.holds)
    decreases |rows|
  {
    if rows != [] {
      FilterSelects(TakeRow(m, rows[0]).end, rows[1..]);
    }
  }
}
