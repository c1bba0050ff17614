/** The objects that run a pipeline: single statements with inport, outport and state
    operator, and the combo that invokes them in rounds and collects the result. */
module ComboRunner {
  import opened Basics
  import opened Pipeline

  class SingleSt {
    /** The statement whose outport the inport reads; the first statement has no inport. */
    const source: SingleSt?
    const list: (Results, Value) -> (Results, bool)
    var outport: seq<Value>
    var op: StateOp
    var row: Option<Value>
    /** What the operators in the list hold. */
    var results: Results
    var runMore: bool
    var init: bool

    ghost function Now(): Stage
      reads this
    {
      Stage(source != null, Machine(list, op, results), outport, row, runMore, init)
    }

    constructor (source: SingleSt?, list: (Results, Value) -> (Results, bool), op: StateOp, results: Results)
      ensures this.source == source && Now() == NewStage(source != null, list, op, results)
    {
      this.source, this.list, this.op, this.results := source, list, op, results;
      outport, row, runMore, init := [], None, false, true;
    }

    method PopupResult() returns (val: Option<Value>)
      modifies this`outport
      ensures if old(outport) == [] then val == None && outport == []
        else val == Some(old(outport)[0]) && outport == old(outport)[1..]
    {
      if outport == [] {
        return None;
      }
      val := Some(outport[0]);
      outport := outport[1..];
    }

    /** The inport takes the next row, then the other operators run on it. */
    method InvokeOpList() returns (running: bool)
      requires source != this
      modifies this`row, this`results, (if source == null then {} else {source})`outport
      ensures source == null ==> !running && row == old(row) && results == old(results)
      ensures source != null && old(source.outport) == [] ==>
        !running && row == None && results == old(results) && source.outport == []
      ensures source != null && old(source.outport) != [] ==>
        && row == Some(old(source.outport)[0]) && source.outport == old(source.outport)[1..]
        && (results, running) == list(old(results), old(source.outport)[0])
    {
      if source == null {
        return false;
      }
      row := source.PopupResult();
      if row == None {
        return false;
      }
      var ran := list(results, row.value);
      results := ran.0;
      return ran.1;
    }

    /** The state operator pushes its rows to the outport. It only runs when the rows it
        pushed before are all gone. */
    method InvokeStateOp() returns (more: bool)
      requires outport == []
      modifies this`outport, this`op
      ensures var b := InvokeOp(old(op), row, results); op == b.op && outport == b.out && more == b.more
    {
      var b := InvokeOp(op, row, results);
      op := b.op;
      outport := b.out;
      return b.more;
    }

    method Invoke() returns (running: bool)
      requires Finite(op) && source != this
      modifies this, (if source == null then {} else {source})`outport
      ensures var before := if source == null then [] else old(source.outport);
        && Now() == Pipeline.Invoke(before, old(Now()))
        && running == (outport != [])
        && (source != null ==> source.outport == if Takes(before, old(Now())) then before[1..] else before)
    {
      if init && source == null {
        runMore := true;
      }
      init := false;
      if !runMore {
        runMore := InvokeOpList();
      }
      ghost var fetched := Now();
      assert fetched == Fetch(if source == null then [] else old(source.outport), old(Now()));
      while runMore
        invariant Finite(op) && Drain(Now()) == Drain(fetched)
        invariant source != null ==>
          source.outport == (if Takes(old(source.outport), old(Now())) then old(source.outport)[1..]
            else old(source.outport))
        decreases runMore, Work(op, row)
      {
        if outport != [] {
          return true;
        }
        InvokeWorks(op, row, results);
        runMore := InvokeStateOp();
      }
      return outport != [];
    }
  }

  class Combo {
    const statements: seq<SingleSt>
    /** What the collector has collected. */
    var table: seq<Value>

    ghost function Stages(): (s: seq<Stage>)
      reads statements
      ensures |s| == |statements| && forall i :: 0 <= i < |s| ==> s[i] == statements[i].Now()
    {
      seq(|statements|, i requires 0 <= i < |statements| reads statements => statements[i].Now())
    }

    ghost function Now(): Pipeline.Combo
      reads this, statements
    {
      Pipeline.Combo(Stages(), table)
    }

    /** The statements form one chain. */
    ghost predicate Chained()
    {
      && (forall i, j :: 0 <= i < j < |statements| ==> statements[i] != statements[j])
      && (forall i {:trigger statements[i].source} | 0 <= i < |statements| ::
        statements[i].source == if i == 0 then null else statements[i - 1])
    }

    constructor (statements: seq<SingleSt>)
      ensures this.statements == statements && table == []
    {
      this.statements, table := statements, [];
    }

    /** The collector takes one row a round, and never asks for more rounds. */
    method Collect()
      requires statements != [] && Chained() && Sound(Stages())
      modifies this`table, {statements[|statements| - 1]}`outport
      ensures Now() == Act(old(Now()), Action.Collect)
    {
      hide Stages;
      ghost var was := Now();
      var last := statements[|statements| - 1];
      var val := last.PopupResult();
      if val.Some? {
        table := table + [val.value];
      }
      assert last.Now() == was.stages[|statements| - 1].(queue := last.outport);
      forall j | 0 <= j < |statements| - 1 ensures statements[j].Now() == was.stages[j] {
        assert statements[j] != last;
      }
      Collected(was, Now(), val);
    }

    static lemma Collected(was: Pipeline.Combo, now: Pipeline.Combo, val: Option<Value>)
      requires was.stages != [] && Sound(was.stages) && |now.stages| == |was.stages|
      requires var last := was.stages[|was.stages| - 1];
        && val == (if last.queue == [] then None else Some(last.queue[0]))
        && now.stages[|was.stages| - 1] == last.(queue := if last.queue == [] then [] else last.queue[1..])
      requires forall j | 0 <= j < |was.stages| - 1 :: now.stages[j] == was.stages[j]
      requires now.table == was.table + (if val.Some? then [val.value] else [])
      ensures now == Act(was, Action.Collect)
    {
      var last := |was.stages| - 1;
      if val.Some? {
        assert now.stages == Popped(was.stages);
      } else {
        assert now.stages == was.stages;
      }
    }

    method InvokeStatement(i: nat) returns (running: bool)
      requires i < |statements| && Chained() && Sound(Stages())
      modifies statements
      ensures Stages() == InvokeAt(old(Stages()), i) && running == (Stages()[i].queue != [])
    {
      ghost var was := Stages();
      ghost var s := if i == 0 then null else statements[i - 1];
      assert statements[i].source == s;
      running := statements[i].Invoke();
      if i > 0 {
        assert s.Now() == was[i - 1].(queue := s.outport);
      }
      forall j | 0 <= j < |statements| && j != i && j != i - 1 ensures statements[j].Now() == was[j] {
        assert statements[j] != statements[i] && statements[j] != s;
      }
      InvokedAt(was, Stages(), i);
    }

    static lemma InvokedAt(was: seq<Stage>, now: seq<Stage>, i: nat)
      requires Sound(was) && i < |was| == |now| && now[i] == Pipeline.Invoke(Before(was, i), was[i])
      requires i > 0 && Takes(was[i - 1].queue, was[i]) ==> now[i - 1] == was[i - 1].(queue := was[i - 1].queue[1..])
      requires i > 0 && !Takes(was[i - 1].queue, was[i]) ==> now[i - 1] == was[i - 1]
      requires forall j | 0 <= j < |was| && j != i && j != i - 1 :: now[j] == was[j]
      ensures now == InvokeAt(was, i)
    {
    }

    /** Invokes every statement once. */
    method InvokeAll() returns (running: bool)
      requires Chained() && Sound(Stages())
      modifies statements
      ensures RoundSo(old(Stages()), Stages(), |statements|, running) == true
    {
      hide Chained;
      running := false;
      ghost var was := Stages();
      for i := 0 to |statements|
        invariant RoundSo(was, Stages(), i, running) == true
      {
        RoundStep(was, Stages(), i, running);
        var br := InvokeStatement(i);
        running := running || br;
      }
    }

    /** A round: every statement once, then the collector. If no statement has rows waiting,
        all work is done. */
    method Round() returns (running: bool)
      requires Chained() && statements != [] && Sound(Stages()) == true
      modifies this`table, statements
      ensures Sound(Stages()) == true && Total(Now()) == Total(old(Now()))
      ensures running ==> Effort(Stages()) < Effort(old(Stages()))
      ensures !running ==> Quiet(Stages())
    {
      ghost var was := Stages();
      running := InvokeAll();
      RoundEnds(was, Now(), table, running);
      Collect();
    }

    /** Runs rounds until none has anything left to do. The table that is collected is the
        composition of the statements' flat maps over the source's rows. */
    method Invoke()
      requires Chained() && statements != [] && Sound(Stages())
      modifies this`table, statements
      ensures table == Total(old(Now())) && Quiet(Stages())
      ensures old(Fresh(Stages()) && table == []) ==> table == Composed(old(Stages()))
    {
      hide Sound;
      ghost var was := Now();
      if Fresh(Stages()) {
        FreshIsComposed(Stages());
      }
      var running := true;
      while running
        invariant Sound(Stages()) && Total(Now()) == Total(was)
        invariant !running ==> Quiet(Stages())
        decreases running, Effort(Stages())
      {
        running := Round();
      }
      QuietIsDone(Stages());
    }
  }

  /** Invocations left to do, and rows left to collect. */
  ghost function Effort(stages: seq<Stage>): nat
    requires Sound(stages)
  {
    FutureOf(stages).events + |FutureOf(stages).out|
  }

  /** The first `n` statements are out of work. */
  ghost predicate IdleUpTo(stages: seq<Stage>, n: nat)
    requires n <= |stages|
  {
    forall i {:trigger stages[i]} | 0 <= i < n :: stages[i].queue == [] && !stages[i].runMore && !stages[i].init
  }

  /** A statement whose predecessor has rows waiting gets something done, or has rows waiting
      itself; one that returns false behind idle ones is idle. */
  lemma InvokeIdles(stages: seq<Stage>, i: nat)
    requires Sound(stages) && i < |stages|
    ensures var stages' := InvokeAt(stages, i);
      && |stages'| == |stages|
      && (Before(stages, i) != [] ==> Progress(stages, i) || stages'[i].queue != [])
      && (IdleUpTo(stages, i) && stages'[i].queue == [] ==> IdleUpTo(stages', i + 1))
  {
  }

  /** How a round stands after the first `i` statements: the future is as it was, and when
      some statement returned true, something was done or the last one has rows waiting. */
  ghost predicate RoundSo(was: seq<Stage>, now: seq<Stage>, i: nat, running: bool)
  {
    && Sound(was) && Sound(now) && |now| == |was| && i <= |was|
    && FutureOf(now).out == FutureOf(was).out && FutureOf(now).events <= FutureOf(was).events
    && (running ==> FutureOf(now).events < FutureOf(was).events || (i > 0 && now[i - 1].queue != []))
    && (!running ==> IdleUpTo(now, i))
  }

  lemma RoundStep(was: seq<Stage>, now: seq<Stage>, i: nat, running: bool)
    requires RoundSo(was, now, i, running) && i < |was|
    ensures var now' := InvokeAt(now, i);
      |now'| == |was| && RoundSo(was, now', i + 1, running || now'[i].queue != []) == true
  {
    InvokeKeeps(now, i);
    InvokeIdles(now, i);
  }

  lemma RoundEnds(was: seq<Stage>, c: Pipeline.Combo, table: seq<Value>, running: bool)
    requires RoundSo(was, c.stages, |was|, running) && c.table == table
    ensures var c' := Act(c, Action.Collect);
      && Sound(c'.stages) == true && Total(c') == table + FutureOf(was).out
      && (running ==> Effort(c'.stages) < Effort(was)) && (!running ==> Quiet(c'.stages))
  {
    CollectKeeps(c);
  }

  lemma CollectKeeps(c: Pipeline.Combo)
    requires Sound(c.stages)
    ensures var c' := Act(c, Action.Collect);
      && Sound(c'.stages) && Total(c') == Total(c)
      && (if c.stages[|c.stages| - 1].queue != [] then Effort(c'.stages) + 1 == Effort(c.stages) else c' == c)
  {
    ActKeeps(c, Action.Collect);
    if c.stages[|c.stages| - 1].queue != [] {
      PoppedKeeps(c.stages);
    }
  }
}
