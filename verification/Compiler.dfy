/** The compiler of the script engine: the parser's methods emit operators, and each operator
    is put into the outermost sequence that its sources allow, so that it runs once instead
    of once for every row. */
module Compiler {
  import opened Basics
  import opened Syntax

  // ---------- operators and sequences ----------

  /** The comparisons that operators exist for; the others swap their operands. */
  datatype RelKind = LT | LE | EQ

  /** An operator names its sources by their numbers. */
  datatype Op =
    | Constant(n: int)
    | Variable(name: string)
    | Member(of: nat, name: string)
    | ColumnVal(name: string)
    | PdvIndex
    | AthOperator(ath: AthOp, l: nat, r: nat)
    | RelOperator(kind: RelKind, l: nat, r: nat)
    | BoolOperator(bool_: BoolOp, l: nat, r: nat)
    | NotOperator(of: nat)

  datatype Node = Node(op: Op, dependency: nat)

  const SCRIPT_DEPENDENCY := 0
  const COMBO_DEPENDENCY := 1

  /** The operators compiled so far and the three sequences they are in. The single statement
      has dependency `inner`, and so has its inport. */
  datatype Code = Code(nodes: seq<Node>, script: seq<nat>, combo: seq<nat>, single: seq<nat>, inner: nat)

  predicate SourcesIn(op: Op, n: nat)
  {
    match op
    case Member(of, _) => of < n
    case AthOperator(_, l, r) => l < n && r < n
    case RelOperator(_, l, r) => l < n && r < n
    case BoolOperator(_, l, r) => l < n && r < n
    case NotOperator(of) => of < n
    case _ => true
  }

  /** The dependency is the largest one of the sources. */
  function DependencyOf(code: Code, op: Op): nat
    requires SourcesIn(op, |code.nodes|)
  {
    match op
    case Constant(_) => SCRIPT_DEPENDENCY
    case Variable(_) => SCRIPT_DEPENDENCY
    case Member(of, _) => code.nodes[of].dependency
    case ColumnVal(_) => code.inner
    case PdvIndex => code.inner
    case AthOperator(_, l, r) => Max(code.nodes[l].dependency, code.nodes[r].dependency)
    case RelOperator(_, l, r) => Max(code.nodes[l].dependency, code.nodes[r].dependency)
    case BoolOperator(_, l, r) => Max(code.nodes[l].dependency, code.nodes[r].dependency)
    case NotOperator(of) => code.nodes[of].dependency
  }

  function AddToSingle(code: Code, op: Op): Code
    requires SourcesIn(op, |code.nodes|)
  {
    var node, id := Node(op, DependencyOf(code, op)), |code.nodes|;
    var more := code.(nodes := code.nodes + [node]);
    if node.dependency < code.inner then AddToCombo(more, id, node.dependency)
    else more.(single := code.single + [id])
  }

  function AddToCombo(code: Code, id: nat, dependency: nat): Code
  {
    if dependency < COMBO_DEPENDENCY then code.(script := code.script + [id])
    else code.(combo := code.combo + [id])
  }

  // ---------- what is emitted for a tree ----------

  function EmitMembers(code: Code, of: nat, members: seq<string>): (r: (Code, nat))
    requires of < |code.nodes|
    ensures r.1 < |r.0.nodes|
    ensures |r.0.nodes| == |code.nodes| + |members|
    decreases |members|
  {
    if members == [] then (code, of)
    else EmitMembers(AddToSingle(code, Member(of, members[0])), |code.nodes|, members[1..])
  }

  /** The number of operators a tree makes. */
  function Size(e: Exp): nat
  {
    match e
    case Var(_, members) => 1 + |members|
    case Bin(_, l, r) => Size(l) + Size(r) + 1
    case _ => 1
  }

  function CondSize(c: Cond): nat
  {
    match c
    case Compare(_, l, r) => Size(l) + Size(r) + 1
    case Both(_, l, r) => CondSize(l) + CondSize(r) + 1
    case Not(cond) => CondSize(cond) + 1
  }

  function EmitExp(code: Code, e: Exp): (r: (Code, nat))
    ensures r.1 < |r.0.nodes|
    ensures |r.0.nodes| == |code.nodes| + Size(e)
    decreases e
  {
    match e
    case Num(n) => (AddToSingle(code, Constant(n)), |code.nodes|)
    case Var(first, members) =>
      EmitMembers(AddToSingle(code, Variable(first)), |code.nodes|, members)
    case Column(name) => (AddToSingle(code, ColumnVal(name)), |code.nodes|)
    case Index => (AddToSingle(code, PdvIndex), |code.nodes|)
    case Bin(op, l, r) =>
      var cl := EmitExp(code, l);
      var cr := EmitExp(cl.0, r);
      (AddToSingle(cr.0, AthOperator(op, cl.1, cr.1)), |cr.0.nodes|)
  }

  function Comparison(rel: RelOp, l: nat, r: nat): Op
  {
    match rel
    case Less => RelOperator(LT, l, r)
    case Greater => RelOperator(LT, r, l)
    case LessEqual => RelOperator(LE, l, r)
    case GreaterEqual => RelOperator(LE, r, l)
    case Equal => RelOperator(EQ, l, r)
  }

  function EmitCond(code: Code, c: Cond): (r: (Code, nat))
    ensures r.1 < |r.0.nodes|
    ensures |r.0.nodes| == |code.nodes| + CondSize(c)
    decreases c
  {
    match c
    case Compare(rel, l, r) =>
      var cl := EmitExp(code, l);
      var cr := EmitExp(cl.0, r);
      (AddToSingle(cr.0, Comparison(rel, cl.1, cr.1)), |cr.0.nodes|)
    case Both(op, l, r) =>
      var cl := EmitCond(code, l);
      var cr := EmitCond(cl.0, r);
      (AddToSingle(cr.0, BoolOperator(op, cl.1, cr.1)), |cr.0.nodes|)
    case Not(cond) =>
      var cc := EmitCond(code, cond);
      (AddToSingle(cc.0, NotOperator(cc.1)), |cc.0.nodes|)
  }

  lemma BinEmits(code: Code, op: AthOp, l: Exp, r: Exp)
    ensures var cl := EmitExp(code, l); var cr := EmitExp(cl.0, r);
      EmitExp(code, Bin(op, l, r)) == (AddToSingle(cr.0, AthOperator(op, cl.1, cr.1)), |cr.0.nodes|)
  {
  }

  lemma CompareEmits(code: Code, rel: RelOp, l: Exp, r: Exp)
    ensures var cl := EmitExp(code, l); var cr := EmitExp(cl.0, r);
      EmitCond(code, Compare(rel, l, r)) == (AddToSingle(cr.0, Comparison(rel, cl.1, cr.1)), |cr.0.nodes|)
  {
  }

  lemma BothEmits(code: Code, op: BoolOp, l: Cond, r: Cond)
    ensures var cl := EmitCond(code, l); var cr := EmitCond(cl.0, r);
      EmitCond(code, Both(op, l, r)) == (AddToSingle(cr.0, BoolOperator(op, cl.1, cr.1)), |cr.0.nodes|)
  {
  }

  lemma NotEmits(code: Code, cond: Cond)
    ensures var cc := EmitCond(code, cond);
      EmitCond(code, Not(cond)) == (AddToSingle(cc.0, NotOperator(cc.1)), |cc.0.nodes|)
  {
  }

  // ---------- what every emission keeps ----------

  /** An operator that does not touch the inport, directly or through a source. */
  ghost predicate Outer(code: Code, id: nat)
    requires id < |code.nodes|
  {
    code.nodes[id].dependency == SCRIPT_DEPENDENCY
  }

  ghost predicate NodeOk(code: Code, id: nat)
    requires id < |code.nodes|
  {
    && SourcesIn(code.nodes[id].op, id)
    && code.nodes[id].dependency == DependencyOf(code, code.nodes[id].op)
    && (code.nodes[id].dependency == SCRIPT_DEPENDENCY || code.nodes[id].dependency == code.inner)
    && (id in code.script <==> Outer(code, id))
    && (id in code.single <==> !Outer(code, id))
  }

  /** Every operator has its sources before it; it is in the script exactly when it does not
      depend on the inport, else in the single statement; the combo's own list stays free
      of operators; and the lists keep the order of creation. */
  ghost predicate Hoisted(code: Code)
  {
    && code.inner > COMBO_DEPENDENCY && code.combo == []
    && Increasing(code.script) && Increasing(code.single)
    && (forall id :: id in code.script || id in code.single ==> id < |code.nodes|)
    && (forall id: nat {:trigger NodeOk(code, id)} | id < |code.nodes| :: NodeOk(code, id))
  }

  /** `code'` goes on from `code`. */
  ghost predicate Extends(code: Code, code': Code)
  {
    && |code.nodes| <= |code'.nodes| && code'.nodes[..|code.nodes|] == code.nodes && code'.inner == code.inner
  }

  lemma TwoDependencies(code: Code, op: Op)
    requires Hoisted(code) && SourcesIn(op, |code.nodes|)
    ensures DependencyOf(code, op) == SCRIPT_DEPENDENCY || DependencyOf(code, op) == code.inner
  {
    match op
    case Member(of, _) => assert NodeOk(code, of);
    case AthOperator(_, l, r) => assert NodeOk(code, l) && NodeOk(code, r);
    case RelOperator(_, l, r) => assert NodeOk(code, l) && NodeOk(code, r);
    case BoolOperator(_, l, r) => assert NodeOk(code, l) && NodeOk(code, r);
    case NotOperator(of) => assert NodeOk(code, of);
    case _ =>
  }

  lemma AddKeeps(code: Code, op: Op)
    requires Hoisted(code) && SourcesIn(op, |code.nodes|)
    ensures Hoisted(AddToSingle(code, op)) && Extends(code, AddToSingle(code, op))
  {
    var code', n := AddToSingle(code, op), |code.nodes|;
    TwoDependencies(code, op);
    assert n !in code.script && n !in code.single;
    forall id: nat | id < |code'.nodes| ensures NodeOk(code', id) {
      if id < n {
        assert NodeOk(code, id);
      }
    }
    forall i, j | 0 <= i < j < |code'.script| ensures code'.script[i] < code'.script[j] {
      assert code'.script[i] in code.script;
    }
    forall i, j | 0 <= i < j < |code'.single| ensures code'.single[i] < code'.single[j] {
      assert code'.single[i] in code.single;
    }
  }

  lemma {:induction false} EmitMembersKeeps(code: Code, of: nat, members: seq<string>)
    requires Hoisted(code) && of < |code.nodes|
    ensures Hoisted(EmitMembers(code, of, members).0) && Extends(code, EmitMembers(code, of, members).0)
    decreases |members|
  {
    if members != [] {
      AddKeeps(code, Member(of, members[0]));
      EmitMembersKeeps(AddToSingle(code, Member(of, members[0])), |code.nodes|, members[1..]);
    }
  }

  lemma {:induction false} EmitExpKeeps(code: Code, e: Exp)
    requires Hoisted(code)
    ensures Hoisted(EmitExp(code, e).0) && Extends(code, EmitExp(code, e).0)
    decreases e
  {
    match e
    case Num(n) => AddKeeps(code, Constant(n));
    case Column(name) => AddKeeps(code, ColumnVal(name));
    case Index => AddKeeps(code, PdvIndex);
    case Var(first, members) =>
      AddKeeps(code, Variable(first));
      EmitMembersKeeps(AddToSingle(code, Variable(first)), |code.nodes|, members);
    case Bin(op, l, r) =>
      var cl := EmitExp(code, l);
      var cr := EmitExp(cl.0, r);
      EmitExpKeeps(code, l);
      EmitExpKeeps(cl.0, r);
      AddKeeps(cr.0, AthOperator(op, cl.1, cr.1));
  }

  lemma {:induction false} EmitCondKeeps(code: Code, c: Cond)
    requires Hoisted(code)
    ensures Hoisted(EmitCond(code, c).0) && Extends(code, EmitCond(code, c).0)
    decreases c
  {
    hide Hoisted, EmitExp;
    match c
    case Compare(rel, l, r) =>
      var cl := EmitExp(code, l);
      var cr := EmitExp(cl.0, r);
      EmitExpKeeps(code, l);
      EmitExpKeeps(cl.0, r);
      AddKeeps(cr.0, Comparison(rel, cl.1, cr.1));
    case Both(op, l, r) =>
      var cl := EmitCond(code, l);
      var cr := EmitCond(cl.0, r);
      EmitCondKeeps(code, l);
      EmitCondKeeps(cl.0, r);
      AddKeeps(cr.0, BoolOperator(op, cl.1, cr.1));
    case Not(cond) =>
      var cc := EmitCond(code, cond);
      EmitCondKeeps(code, cond);
      AddKeeps(cc.0, NotOperator(cc.1));
  }

  // ---------- meaning ----------

  datatype Val = N(n: int) | B(b: bool)

  /** What the engine takes from elsewhere: arithmetic on typed values, the variables and
      their members. */
  datatype Semantics = Semantics(apply: (AthOp, int, int) -> int, variable: string -> int, member: (int, string) -> int)

  /** A row, and the number that each operator that counts rows has for it. The operators are
      told apart by their own numbers. */
  datatype Input = Input(columns: string -> int, index: nat -> nat)

  /** A row that all operators have the same number for. */
  function Row(columns: string -> int, number: nat): Input
  {
    Input(columns, _ => number)
  }

  function AsInt(v: Val): int
  {
    if v.N? then v.n else 0
  }

  function AsBool(v: Val): bool
  {
    v.B? && v.b
  }

  /** The comparisons as the engine has them: the operator for `<` tests `<=`, and the other
      way round. */
  function Holds(kind: RelKind, l: int, r: int): bool
  {
    match kind
    case LT => l <= r
    case LE => l < r
    case EQ => l == r
  }

  function EvalMembers(sem: Semantics, v: int, members: seq<string>): int
    decreases |members|
  {
    if members == [] then v else EvalMembers(sem, sem.member(v, members[0]), members[1..])
  }

  /** What a tree is worth whose operators are numbered from `from` on. */
  function Eval(sem: Semantics, e: Exp, input: Input, from: nat): int
  {
    match e
    case Num(n) => n
    case Var(first, members) => EvalMembers(sem, sem.variable(first), members)
    case Column(name) => input.columns(name)
    case Index => input.index(from)
    case Bin(op, l, r) => sem.apply(op, Eval(sem, l, input, from), Eval(sem, r, input, from + Size(l)))
  }

  function EvalRelation(rel: RelOp, l: int, r: int): bool
  {
    match rel
    case Less => Holds(LT, l, r)
    case Greater => Holds(LT, r, l)
    case LessEqual => Holds(LE, l, r)
    case GreaterEqual => Holds(LE, r, l)
    case Equal => Holds(EQ, l, r)
  }

  function EvalCond(sem: Semantics, c: Cond, input: Input, from: nat): bool
  {
    match c
    case Compare(rel, l, r) => EvalRelation(rel, Eval(sem, l, input, from), Eval(sem, r, input, from + Size(l)))
    case Both(And, l, r) => EvalCond(sem, l, input, from) && EvalCond(sem, r, input, from + CondSize(l))
    case Both(Or, l, r) => EvalCond(sem, l, input, from) || EvalCond(sem, r, input, from + CondSize(l))
    case Not(cond) => !EvalCond(sem, cond, input, from)
  }

  /** What the comparisons mean in the textbook. */
  function Textbook(rel: RelOp, l: int, r: int): bool
  {
    match rel
    case Less => l < r
    case Greater => l > r
    case LessEqual => l <= r
    case GreaterEqual => l >= r
    case Equal => l == r
  }

  /** For operands of one type a comparison has its textbook meaning unless it is an inequality of
      equal numbers. */
  lemma ComparisonAgrees(rel: RelOp, l: int, r: int)
    ensures EvalRelation(rel, l, r) == Textbook(rel, l, r) <==> rel == Equal || l != r
  {
  }

  // ---------- operands of different types ----------

  /** The integer types, in the order of their numbers. */
  datatype IntType = I8 | U8 | I16 | U16 | I32 | U32 | I64 | U64

  function Rank(t: IntType): nat
  {
    match t
    case I8 => 0
    case U8 => 1
    case I16 => 2
    case U16 => 3
    case I32 => 4
    case U32 => 5
    case I64 => 6
    case U64 => 7
  }

  function Modulus(t: IntType): int
  {
    if Rank(t) < 2 then 0x100
    else if Rank(t) < 4 then 0x1_0000
    else if Rank(t) < 6 then 0x1_0000_0000
    else 0x1_0000_0000_0000_0000
  }

  predicate Signed(t: IntType)
  {
    Rank(t) % 2 == 0
  }

  predicate InType(t: IntType, x: int)
  {
    if Signed(t) then -(Modulus(t) / 2) <= x < Modulus(t) / 2 else 0 <= x < Modulus(t)
  }

  function Cast(t: IntType, x: int): int
  {
    var half := if Signed(t) then Modulus(t) / 2 else 0;
    (x + half) % Modulus(t) - half
  }

  /** Both operands are compared in the type with the larger number. */
  function Larger(a: IntType, b: IntType): IntType
  {
    if Rank(a) < Rank(b) then b else a
  }

  function Compared(rel: RelOp, tl: IntType, l: int, tr: IntType, r: int): bool
  {
    EvalRelation(rel, Cast(Larger(tl, tr), l), Cast(Larger(tl, tr), r))
  }

  /** What a comparison needs to come out right. A negative operand in an unsigned comparison is
      taken for a large number, and the other one has to be larger still. */
  predicate ComparesWell(rel: RelOp, t: IntType, l: int, r: int)
  {
    if Signed(t) || (l >= 0 && r >= 0) then rel == Equal || l != r
    else
      var taken, other := Min(l, r) + Modulus(t), Max(l, r);
      match rel
      case Equal => other != taken
      case Less => if l < 0 then taken <= other else taken < other
      case GreaterEqual => if l < 0 then taken <= other else taken < other
      case Greater => if l < 0 then taken < other else taken <= other
      case LessEqual => if l < 0 then taken < other else taken <= other
  }

  /** A negative operand does not fit into the larger type when that is unsigned. */
  lemma CastIs(a: IntType, b: IntType, x: int)
    requires InType(a, x)
    ensures var t := Larger(a, b);
      if Signed(t) || x >= 0 then Cast(t, x) == x else Cast(t, x) == x + Modulus(t) && -Modulus(t) <= x
  {
  }

  /** The exact condition for operands of any two integer types. */
  lemma TypedComparisonAgrees(rel: RelOp, tl: IntType, l: int, tr: IntType, r: int)
    requires InType(tl, l) && InType(tr, r)
    ensures Compared(rel, tl, l, tr, r) == Textbook(rel, l, r) <==> ComparesWell(rel, Larger(tl, tr), l, r)
  {
    hide Cast, Rank, Modulus, Signed, Larger, InType, EvalRelation, Textbook, ComparesWell;
    var t := Larger(tl, tr);
    LargerIs(tl, tr);
    CastIs(tl, tr, l);
    CastIs(tr, tl, r);
    if Signed(t) || (l >= 0 && r >= 0) {
      TakenAsIs(rel, t, l, r);
    } else if l < 0 {
      assert r >= 0 by { NotNegative(tl, l, tr, r); }
      TakenLeft(rel, t, l, r);
    } else {
      TakenRight(rel, t, l, r);
    }
  }

  lemma NotNegative(tl: IntType, l: int, tr: IntType, r: int)
    requires InType(tl, l) && InType(tr, r) && !Signed(Larger(tl, tr)) && l < 0
    ensures r >= 0
  {
    LargerIs(tl, tr);
  }

  lemma TakenAsIs(rel: RelOp, t: IntType, l: int, r: int)
    requires Signed(t) || (l >= 0 && r >= 0)
    ensures EvalRelation(rel, l, r) == Textbook(rel, l, r) <==> ComparesWell(rel, t, l, r)
  {
    hide Signed;
    ComparisonAgrees(rel, l, r);
  }

  lemma TakenLeft(rel: RelOp, t: IntType, l: int, r: int)
    requires !Signed(t) && -Modulus(t) <= l < 0 <= r
    ensures EvalRelation(rel, l + Modulus(t), r) == Textbook(rel, l, r) <==> ComparesWell(rel, t, l, r)
  {
    hide Modulus;
  }

  lemma TakenRight(rel: RelOp, t: IntType, l: int, r: int)
    requires !Signed(t) && -Modulus(t) <= r < 0 <= l
    ensures EvalRelation(rel, l, r + Modulus(t)) == Textbook(rel, l, r) <==> ComparesWell(rel, t, l, r)
  {
    hide Modulus;
  }

  lemma LargerIs(a: IntType, b: IntType)
    ensures Larger(a, b) == Larger(b, a) && (Larger(a, b) == a || Larger(a, b) == b)
  {
  }

  // ---------- running the sequences ----------

  /** The result of an operator, from the results its sources hold. `was` is its last one. */
  function Compute(op: Op, results: seq<Val>, was: Val, sem: Semantics, columns: string -> int): Val
    requires SourcesIn(op, |results|)
  {
    match op
    case Constant(n) => N(n)
    case Variable(name) => N(sem.variable(name))
    case Member(of, name) => N(sem.member(AsInt(results[of]), name))
    case ColumnVal(name) => N(columns(name))
    case PdvIndex => N(AsInt(was) + 1)
    case AthOperator(op, l, r) => N(sem.apply(op, AsInt(results[l]), AsInt(results[r])))
    case RelOperator(kind, l, r) => B(Holds(kind, AsInt(results[l]), AsInt(results[r])))
    case BoolOperator(And, l, r) => B(AsBool(results[l]) && AsBool(results[r]))
    case BoolOperator(Or, l, r) => B(AsBool(results[l]) || AsBool(results[r]))
    case NotOperator(of) => B(!AsBool(results[of]))
  }

  /** Operators run in order, each leaves its result behind. The operator `not` returns its
      own result, and a sequence stops at the first operator that returns false. */
  function RunList(nodes: seq<Node>, list: seq<nat>, results: seq<Val>, sem: Semantics,
      columns: string -> int): (r: (seq<Val>, bool))
    requires |results| == |nodes| && forall i :: 0 <= i < |list| ==> list[i] < |nodes|
    requires forall id: nat {:trigger nodes[id]} :: id < |nodes| ==> SourcesIn(nodes[id].op, id)
    ensures |r.0| == |nodes|
    decreases |list|
  {
    if list == [] then (results, true)
    else
      var id := list[0];
      Wider(nodes[id].op, id, |results|);
      var v := Compute(nodes[id].op, results, results[id], sem, columns);
      if nodes[id].op.NotOperator? && !AsBool(v) then (results[id := v], false)
      else RunList(nodes, list[1..], results[id := v], sem, columns)
  }

  lemma Wider(op: Op, n: nat, m: nat)
    requires SourcesIn(op, n) && n <= m
    ensures SourcesIn(op, m)
  {
  }

  ghost predicate Sourced(nodes: seq<Node>)
  {
    forall id: nat {:trigger nodes[id]} :: id < |nodes| ==> SourcesIn(nodes[id].op, id)
  }

  lemma HoistedSourced(code: Code)
    requires Hoisted(code)
    ensures Sourced(code.nodes)
    ensures forall i :: 0 <= i < |code.script| ==> code.script[i] < |code.nodes|
    ensures forall i :: 0 <= i < |code.single| ==> code.single[i] < |code.nodes|
  {
    forall id: nat | id < |code.nodes| ensures SourcesIn(code.nodes[id].op, id) {
      assert NodeOk(code, id);
    }
    assert forall i | 0 <= i < |code.script| :: code.script[i] in code.script;
    assert forall i | 0 <= i < |code.single| :: code.single[i] in code.single;
  }

  /** The value of an operator for a row, by recursion over its sources. */
  ghost function ValueAt(nodes: seq<Node>, id: nat, sem: Semantics, input: Input): Val
    requires id < |nodes| && Sourced(nodes)
    decreases id
  {
    var op := nodes[id].op;
    assert SourcesIn(op, id);
    match op
    case Constant(n) => N(n)
    case Variable(name) => N(sem.variable(name))
    case Member(of, name) => N(sem.member(AsInt(ValueAt(nodes, of, sem, input)), name))
    case ColumnVal(name) => N(input.columns(name))
    case PdvIndex => N(input.index(id))
    case AthOperator(op, l, r) =>
      N(sem.apply(op, AsInt(ValueAt(nodes, l, sem, input)), AsInt(ValueAt(nodes, r, sem, input))))
    case RelOperator(kind, l, r) =>
      B(Holds(kind, AsInt(ValueAt(nodes, l, sem, input)), AsInt(ValueAt(nodes, r, sem, input))))
    case BoolOperator(And, l, r) => B(AsBool(ValueAt(nodes, l, sem, input)) && AsBool(ValueAt(nodes, r, sem, input)))
    case BoolOperator(Or, l, r) => B(AsBool(ValueAt(nodes, l, sem, input)) || AsBool(ValueAt(nodes, r, sem, input)))
    case NotOperator(of) => B(!AsBool(ValueAt(nodes, of, sem, input)))
  }

  predicate IsSource(op: Op, id: nat)
  {
    match op
    case Member(of, _) => id == of
    case AthOperator(_, l, r) => id == l || id == r
    case RelOperator(_, l, r) => id == l || id == r
    case BoolOperator(_, l, r) => id == l || id == r
    case NotOperator(of) => id == of
    case _ => false
  }

  /** An operator asks for the row or its number, itself or through its sources. */
  ghost predicate RowBound(nodes: seq<Node>, id: nat)
    requires id < |nodes|
    decreases id
  {
    || nodes[id].op.ColumnVal? || nodes[id].op.PdvIndex?
    || exists s: nat :: s < id && IsSource(nodes[id].op, s) && RowBound(nodes, s)
  }

  /** What is run once for all rows is exactly what does not ask for the row. */
  lemma {:induction false} HoistedExactly(code: Code, id: nat)
    requires Hoisted(code) && id < |code.nodes|
    ensures id in code.single <==> RowBound(code.nodes, id)
    ensures id in code.script <==> !RowBound(code.nodes, id)
    decreases id
  {
    assert NodeOk(code, id);
    var op := code.nodes[id].op;
    forall s: nat | s < id && IsSource(op, s)
      ensures code.nodes[s].dependency == SCRIPT_DEPENDENCY <==> !RowBound(code.nodes, s)
    {
      assert NodeOk(code, s);
      HoistedExactly(code, s);
    }
    match op
    case Member(of, _) => assert IsSource(op, of);
    case AthOperator(_, l, r) => assert IsSource(op, l) && IsSource(op, r);
    case RelOperator(_, l, r) => assert IsSource(op, l) && IsSource(op, r);
    case BoolOperator(_, l, r) => assert IsSource(op, l) && IsSource(op, r);
    case NotOperator(of) => assert IsSource(op, of);
    case _ =>
  }

  /** An operator whose sources hold their values, and that has counted the rows before,
      computes its value. */
  lemma ComputesValue(nodes: seq<Node>, id: nat, results: seq<Val>, sem: Semantics, input: Input)
    requires Sourced(nodes) && id < |nodes| == |results|
    requires forall s: nat {:trigger IsSource(nodes[id].op, s)} | s < id && IsSource(nodes[id].op, s) ::
      results[s] == ValueAt(nodes, s, sem, input)
    requires nodes[id].op.PdvIndex? ==> input.index(id) > 0 && results[id] == N(input.index(id) - 1)
    ensures SourcesIn(nodes[id].op, |results|)
    ensures Compute(nodes[id].op, results, results[id], sem, input.columns) == ValueAt(nodes, id, sem, input)
  {
    var op := nodes[id].op;
    assert SourcesIn(op, id);
    match op
    case Member(of, _) => assert IsSource(op, of);
    case AthOperator(_, l, r) => assert IsSource(op, l) && IsSource(op, r);
    case RelOperator(_, l, r) => assert IsSource(op, l) && IsSource(op, r);
    case BoolOperator(_, l, r) => assert IsSource(op, l) && IsSource(op, r);
    case NotOperator(of) => assert IsSource(op, of);
    case _ =>
  }

  /** A source of an operator is in the script, or before it in the same sequence. */
  lemma SourcePlaced(code: Code, id: nat, s: nat)
    requires Hoisted(code) && id < |code.nodes| && s < id && IsSource(code.nodes[id].op, s)
    ensures s in code.script || s in code.single
    ensures id in code.script ==> s in code.script
  {
    assert NodeOk(code, id) && NodeOk(code, s);
  }

  ghost predicate Holding(code: Code, results: seq<Val>, ids: seq<nat>, sem: Semantics, input: Input)
    requires Hoisted(code) && |results| == |code.nodes|
  {
    HoistedSourced(code);
    forall id {:trigger id in ids} | id in ids && id < |code.nodes| ::
      results[id] == ValueAt(code.nodes, id, sem, input)
  }

  /** The counters of the operators in the list stand at the row before. */
  ghost predicate Counting(code: Code, results: seq<Val>, ids: seq<nat>, input: Input)
    requires |results| == |code.nodes|
  {
    forall id {:trigger id in ids} | id in ids && id < |code.nodes| && code.nodes[id].op.PdvIndex? ::
      input.index(id) > 0 && results[id] == N(input.index(id) - 1)
  }

  /** Every `not` in the list comes out true. */
  ghost predicate NotsHold(code: Code, ids: seq<nat>, sem: Semantics, input: Input)
    requires Hoisted(code)
  {
    HoistedSourced(code);
    forall id {:trigger id in ids} | id in ids && id < |code.nodes| && code.nodes[id].op.NotOperator? ::
      AsBool(ValueAt(code.nodes, id, sem, input))
  }

  lemma Slices(list: seq<nat>, k: nat)
    requires k < |list| && Increasing(list)
    ensures list[k..][0] == list[k] && list[k..][1..] == list[k + 1..] && list[..k + 1] == list[..k] + [list[k]]
    ensures forall x :: x in list[k..] ==> x == list[k] || x in list[k + 1..]
    ensures forall x :: x in list[k + 1..] ==> x in list[k..]
    ensures list[k] in list && list[k] in list[k..] && list[k] !in list[..k] && list[k] !in list[k + 1..]
  {
    assert list[k..] == [list[k]] + list[k + 1..];
  }

  ghost function ListOf(code: Code, inner: bool): seq<nat>
  {
    if inner then code.single else code.script
  }

  lemma SourceReady(code: Code, inner: bool, k: nat, s: nat)
    requires Hoisted(code)
    requires var list := ListOf(code, inner);
      k < |list| && list[k] < |code.nodes| && s < list[k] && IsSource(code.nodes[list[k]].op, s)
    ensures s in ListOf(code, inner)[..k] || (inner && s in code.script)
  {
    var list := ListOf(code, inner);
    SourcePlaced(code, list[k], s);
    assert list[k] in list;
    if s in list {
      var j :| 0 <= j < |list| && list[j] == s;
      assert j < k;
      assert list[..k][j] == s;
    }
  }

  /** The operator at place `k` computes its value, and what is behind and before stays. */
  lemma OperatorRuns(code: Code, inner: bool, k: nat, results: seq<Val>, sem: Semantics, input: Input)
    requires Hoisted(code) && |results| == |code.nodes|
    requires inner ==> Holding(code, results, code.script, sem, input)
    requires var list := ListOf(code, inner);
      k < |list| && Holding(code, results, list[..k], sem, input) && Counting(code, results, list[k..], input)
    ensures var list := ListOf(code, inner);
      && Sourced(code.nodes) && list[k] < |code.nodes| && SourcesIn(code.nodes[list[k]].op, |results|)
      && Compute(code.nodes[list[k]].op, results, results[list[k]], sem, input.columns) ==
        ValueAt(code.nodes, list[k], sem, input)
    ensures var list := ListOf(code, inner);
      var results' := results[list[k] := ValueAt(code.nodes, list[k], sem, input)];
      && (inner ==> Holding(code, results', code.script, sem, input))
      && Holding(code, results', list[..k + 1], sem, input) && Counting(code, results', list[k + 1..], input)
  {
    hide Increasing;
    var list := ListOf(code, inner);
    HoistedSourced(code);
    Slices(list, k);
    var id := list[k];
    forall s: nat | s < id && IsSource(code.nodes[id].op, s)
      ensures results[s] == ValueAt(code.nodes, s, sem, input)
    {
      SourceReady(code, inner, k, s);
    }
    assert id in list[k..];
    ComputesValue(code.nodes, id, results, sem, input);
    assert NodeOk(code, id);
    var results' := results[id := ValueAt(code.nodes, id, sem, input)];
    forall x | x in list[k + 1..] && x < |code.nodes| && code.nodes[x].op.PdvIndex?
      ensures input.index(x) > 0 && results'[x] == N(input.index(x) - 1)
    {
      assert x in list[k..] && x != id;
    }
  }

  /** One operator of a sequence, and the rest of it. */
  lemma RunStep(nodes: seq<Node>, list: seq<nat>, k: nat, results: seq<Val>, sem: Semantics, columns: string -> int)
    requires Sourced(nodes) && |results| == |nodes| && k < |list|
    requires forall i :: 0 <= i < |list| ==> list[i] < |nodes|
    ensures SourcesIn(nodes[list[k]].op, |results|)
    ensures var v := Compute(nodes[list[k]].op, results, results[list[k]], sem, columns);
      RunList(nodes, list[k..], results, sem, columns) ==
        if nodes[list[k]].op.NotOperator? && !AsBool(v) then (results[list[k] := v], false)
        else RunList(nodes, list[k + 1..], results[list[k] := v], sem, columns)
  {
    assert SourcesIn(nodes[list[k]].op, list[k]);
    assert list[k..][1..] == list[k + 1..] && list[k..][0] == list[k];
  }

  lemma NotsStep(code: Code, inner: bool, k: nat, sem: Semantics, input: Input)
    requires Hoisted(code) && k < |ListOf(code, inner)|
    ensures Sourced(code.nodes) && ListOf(code, inner)[k] < |code.nodes|
    ensures var list := ListOf(code, inner);
      NotsHold(code, list[k..], sem, input) <==>
        && (code.nodes[list[k]].op.NotOperator? ==> AsBool(ValueAt(code.nodes, list[k], sem, input)))
        && NotsHold(code, list[k + 1..], sem, input)
  {
    HoistedSourced(code);
    var list := ListOf(code, inner);
    Slices(list, k);
    if NotsHold(code, list[k..], sem, input) {
      assert list[k] in list[k..];
      forall id | id in list[k + 1..] && id < |code.nodes| && code.nodes[id].op.NotOperator?
        ensures AsBool(ValueAt(code.nodes, id, sem, input))
      {
        assert id in list[k..];
      }
    }
  }

  /** A sequence, from place `k` on: it completes exactly when every `not` in it comes out
      true, and then all its operators hold their values for the row. */
  lemma {:induction false} ListRuns(code: Code, inner: bool, k: nat, results: seq<Val>, sem: Semantics, input: Input)
    requires Hoisted(code) && |results| == |code.nodes|
    requires inner ==> Holding(code, results, code.script, sem, input)
    requires var list := ListOf(code, inner);
      k <= |list| && Holding(code, results, list[..k], sem, input) && Counting(code, results, list[k..], input)
    ensures Sourced(code.nodes) && forall i :: 0 <= i < |ListOf(code, inner)| ==> ListOf(code, inner)[i] < |code.nodes|
    ensures var list := ListOf(code, inner);
      var r := RunList(code.nodes, list[k..], results, sem, input.columns);
      && (r.1 <==> NotsHold(code, list[k..], sem, input))
      && (r.1 ==> Holding(code, r.0, list, sem, input))
      && (forall id: nat :: id < |code.nodes| && id !in list ==> r.0[id] == results[id])
    decreases |code.single| + |code.script| - k
  {
    var list := ListOf(code, inner);
    HoistedSourced(code);
    if k < |list| {
      assert list[k] in list;
      OperatorRuns(code, inner, k, results, sem, input);
      RunStep(code.nodes, list, k, results, sem, input.columns);
      NotsStep(code, inner, k, sem, input);
      var id, v := list[k], ValueAt(code.nodes, list[k], sem, input);
      if !code.nodes[id].op.NotOperator? || AsBool(v) {
        ListRuns(code, inner, k + 1, results[id := v], sem, input);
      }
    } else {
      assert list[..k] == list && list[k..] == [];
    }
  }

  // ---------- once for the script, then row by row ----------

  /** What is hoisted into the script has the same value for every row. */
  lemma {:induction false} OuterSame(code: Code, id: nat, sem: Semantics, a: Input, b: Input)
    requires Hoisted(code) && id < |code.nodes| && Outer(code, id)
    ensures Sourced(code.nodes) && ValueAt(code.nodes, id, sem, a) == ValueAt(code.nodes, id, sem, b)
    decreases id
  {
    HoistedSourced(code);
    assert NodeOk(code, id);
    forall s: nat | s < id && IsSource(code.nodes[id].op, s)
      ensures ValueAt(code.nodes, s, sem, a) == ValueAt(code.nodes, s, sem, b)
    {
      assert NodeOk(code, s);
      OuterSame(code, s, sem, a, b);
    }
    SourcesDecide(code.nodes, id, sem, a, b);
  }

  lemma SourcesDecide(nodes: seq<Node>, id: nat, sem: Semantics, a: Input, b: Input)
    requires Sourced(nodes) && id < |nodes| && !nodes[id].op.ColumnVal? && !nodes[id].op.PdvIndex?
    requires forall s: nat {:trigger IsSource(nodes[id].op, s)} | s < id && IsSource(nodes[id].op, s) ::
      ValueAt(nodes, s, sem, a) == ValueAt(nodes, s, sem, b)
    ensures ValueAt(nodes, id, sem, a) == ValueAt(nodes, id, sem, b)
  {
    var op := nodes[id].op;
    match op
    case Member(of, _) => assert IsSource(op, of);
    case AthOperator(_, l, r) => assert IsSource(op, l) && IsSource(op, r);
    case RelOperator(_, l, r) => assert IsSource(op, l) && IsSource(op, r);
    case BoolOperator(_, l, r) => assert IsSource(op, l) && IsSource(op, r);
    case NotOperator(of) => assert IsSource(op, of);
    case _ =>
  }

  /** The script's operators are run once, before the combo. */
  lemma ScriptRuns(code: Code, results: seq<Val>, sem: Semantics, columns: string -> int, input: Input)
    requires Hoisted(code) && |results| == |code.nodes|
    ensures Sourced(code.nodes) && forall i :: 0 <= i < |code.script| ==> code.script[i] < |code.nodes|
    ensures var r := RunList(code.nodes, code.script, results, sem, columns);
      && (r.1 <==> NotsHold(code, code.script, sem, input))
      && (r.1 ==> Holding(code, r.0, code.script, sem, input))
      && (forall id: nat :: id < |code.nodes| && id !in code.script ==> r.0[id] == results[id])
  {
    HoistedSourced(code);
    var here := Row(columns, 1);
    forall id | id in code.script ensures NodeOk(code, id) && Outer(code, id) {
      assert NodeOk(code, id);
    }
    assert code.script[0..] == code.script;
    ListRuns(code, false, 0, results, sem, here);
    forall id | id in code.script
      ensures ValueAt(code.nodes, id, sem, here) == ValueAt(code.nodes, id, sem, input)
    {
      OuterSame(code, id, sem, here, input);
    }
  }

  /** One row, with the results of the script and the counters of the rows before: the list
      completes exactly when every `not` comes out true, and then every operator holds its
      value for the row. */
  lemma RowRuns(code: Code, results: seq<Val>, sem: Semantics, input: Input)
    requires Hoisted(code) && |results| == |code.nodes|
    requires Holding(code, results, code.script, sem, input) && Counting(code, results, code.single, input)
    ensures Sourced(code.nodes) && forall i :: 0 <= i < |code.single| ==> code.single[i] < |code.nodes|
    ensures var r := RunList(code.nodes, code.single, results, sem, input.columns);
      && (r.1 <==> NotsHold(code, code.single, sem, input))
      && (r.1 ==> forall id: nat :: id < |code.nodes| ==> r.0[id] == ValueAt(code.nodes, id, sem, input))
  {
    HoistedSourced(code);
    assert code.single[0..] == code.single;
    ListRuns(code, true, 0, results, sem, input);
    var r := RunList(code.nodes, code.single, results, sem, input.columns);
    if r.1 {
      forall id: nat | id < |code.nodes| ensures r.0[id] == ValueAt(code.nodes, id, sem, input) {
        assert NodeOk(code, id);
      }
    }
  }

  /** The rows, one after the other; a row on which the list stops is left half done. */
  function RunRows(code: Code, results: seq<Val>, sem: Semantics, rows: seq<string -> int>): (r: seq<Val>)
    requires |results| == |code.nodes| && forall i :: 0 <= i < |code.single| ==> code.single[i] < |code.nodes|
    requires forall id: nat {:trigger code.nodes[id]} :: id < |code.nodes| ==> SourcesIn(code.nodes[id].op, id)
    ensures |r| == |code.nodes|
    decreases |rows|
  {
    if rows == [] then results
    else
      var before := RunRows(code, results, sem, rows[..|rows| - 1]);
      RunList(code.nodes, code.single, before, sem, rows[|rows| - 1]).0
  }

  // ---------- how many rows an operator has counted ----------

  /** Every `not` from place `k` up to place `j` of the single statement comes out true. */
  ghost predicate NotsBetween(code: Code, k: nat, j: nat, sem: Semantics, input: Input)
    requires Hoisted(code) && j <= |code.single|
  {
    HoistedSourced(code);
    forall i {:trigger code.single[i]} | k <= i < j && code.nodes[code.single[i]].op.NotOperator? ::
      AsBool(ValueAt(code.nodes, code.single[i], sem, input))
  }

  /** Whether the `not` operators before an operator all come out true, so that the list gets
      as far as it. */
  ghost predicate Reached(code: Code, id: nat, sem: Semantics, input: Input)
    requires Hoisted(code)
  {
    HoistedSourced(code);
    forall i {:trigger code.single[i]}
      | 0 <= i < |code.single| && code.single[i] < id && code.nodes[code.single[i]].op.NotOperator? ::
      AsBool(ValueAt(code.nodes, code.single[i], sem, input))
  }

  /** An operator that counts rows is one further behind a row if the list got as far as it. */
  lemma {:induction false} ListCounts(code: Code, k: nat, results: seq<Val>, sem: Semantics, input: Input)
    requires Hoisted(code) && |results| == |code.nodes| && Holding(code, results, code.script, sem, input)
    requires k <= |code.single| && Holding(code, results, code.single[..k], sem, input)
    requires Counting(code, results, code.single[k..], input)
    ensures Sourced(code.nodes) && forall i :: 0 <= i < |code.single| ==> code.single[i] < |code.nodes|
    ensures var r := RunList(code.nodes, code.single[k..], results, sem, input.columns).0;
      && (forall j {:trigger code.single[j]} | 0 <= j < k :: r[code.single[j]] == results[code.single[j]])
      && (forall j {:trigger code.single[j]} | k <= j < |code.single| && code.nodes[code.single[j]].op.PdvIndex? ::
          r[code.single[j]] == N(input.index(code.single[j]) - if NotsBetween(code, k, j, sem, input) then 0 else 1))
    decreases |code.single| - k
  {
    HoistedSourced(code);
    var list := code.single;
    if k < |list| {
      OperatorRuns(code, true, k, results, sem, input);
      RunStep(code.nodes, list, k, results, sem, input.columns);
      var id, v := list[k], ValueAt(code.nodes, list[k], sem, input);
      assert list[k..][0] == id;
      if !code.nodes[id].op.NotOperator? || AsBool(v) {
        ListCounts(code, k + 1, results[id := v], sem, input);
        forall j | k < j < |list|
          ensures NotsBetween(code, k, j, sem, input) <==> NotsBetween(code, k + 1, j, sem, input)
        {
        }
      } else {
        forall j | k < j < |list|
          ensures !NotsBetween(code, k, j, sem, input) && list[j] in list[k..] && list[j] != id {
          assert list[k..][j - k] == list[j];
          assert code.nodes[list[k]].op.NotOperator?;
        }
      }
    }
  }

  /** The number that an operator has for the row behind these: one more than the rows that it
      was reached on. */
  ghost function NumberFor(code: Code, sem: Semantics, rows: seq<string -> int>, id: nat): (n: nat)
    requires Hoisted(code)
    ensures n >= 1
    decreases |rows|, 0
  {
    if rows == [] then 1
    else
      var last := |rows| - 1;
      NumberFor(code, sem, rows[..last], id)
        + if Reached(code, id, sem, InputFor(code, sem, rows[..last], rows[last])) then 1 else 0
  }

  /** The row behind these, with those numbers. */
  ghost function InputFor(code: Code, sem: Semantics, rows: seq<string -> int>, columns: string -> int): Input
    requires Hoisted(code)
    decreases |rows|, 1
  {
    Input(columns, id => NumberFor(code, sem, rows, id))
  }

  lemma NumberGrows(code: Code, sem: Semantics, rows: seq<string -> int>, columns: string -> int, id: nat)
    requires Hoisted(code)
    ensures NumberFor(code, sem, rows + [columns], id)
      == NumberFor(code, sem, rows, id) + if Reached(code, id, sem, InputFor(code, sem, rows, columns)) then 1 else 0
  {
    assert (rows + [columns])[..|rows|] == rows;
  }

  lemma ReachedAt(code: Code, j: nat, sem: Semantics, input: Input)
    requires Hoisted(code) && j < |code.single|
    ensures NotsBetween(code, 0, j, sem, input) <==> Reached(code, code.single[j], sem, input)
  {
  }

  /** One row makes the counters right for the next one. */
  lemma RowCounts(code: Code, before: seq<Val>, sem: Semantics, rows: seq<string -> int>, columns: string -> int)
    requires Hoisted(code) && |before| == |code.nodes|
    requires Holding(code, before, code.script, sem, InputFor(code, sem, rows, columns))
    requires Counting(code, before, code.single, InputFor(code, sem, rows, columns))
    ensures Sourced(code.nodes) && forall i :: 0 <= i < |code.single| ==> code.single[i] < |code.nodes|
    ensures var r := RunList(code.nodes, code.single, before, sem, columns).0;
      Counted(code, r, sem, rows + [columns]) && (forall id: nat ::
        id < |code.nodes| && id !in code.single ==> r[id] == before[id])
  {
    hide NumberFor, Reached, NotsBetween, RunList, ValueAt, Holding, Counting;
    HoistedSourced(code);
    var input := InputFor(code, sem, rows, columns);
    NoneYet(code, before, sem, input);
    ListCounts(code, 0, before, sem, input);
    ListRuns(code, true, 0, before, sem, input);
    var r := RunList(code.nodes, code.single, before, sem, columns).0;
    forall id | id in code.single && id < |code.nodes| && code.nodes[id].op.PdvIndex?
      ensures r[id] == N(NumberFor(code, sem, rows + [columns], id) - 1)
    {
      var j :| 0 <= j < |code.single| && code.single[j] == id;
      ReachedAt(code, j, sem, input);
      NumberGrows(code, sem, rows, columns, id);
    }
  }

  lemma NoneYet(code: Code, results: seq<Val>, sem: Semantics, input: Input)
    requires Hoisted(code) && |results| == |code.nodes| && Counting(code, results, code.single, input)
    ensures code.single[0..] == code.single && Holding(code, results, code.single[..0], sem, input)
    ensures Counting(code, results, code.single[0..], input)
  {
    assert code.single[0..] == code.single;
  }

  ghost predicate Counted(code: Code, results: seq<Val>, sem: Semantics, rows: seq<string -> int>)
    requires Hoisted(code) && |results| == |code.nodes|
  {
    forall id {:trigger id in code.single} | id in code.single && id < |code.nodes| && code.nodes[id].op.PdvIndex? ::
      results[id] == N(NumberFor(code, sem, rows, id) - 1)
  }

  /** Whatever the rows are, completed or not: the script's values hold for the next one, and
      each counter holds the number of rows that it was reached on. */
  ghost predicate Standing(code: Code, results: seq<Val>, sem: Semantics, rows: seq<string -> int>,
      columns: string -> int)
    requires Hoisted(code) && |results| == |code.nodes|
  {
    && Counted(code, results, sem, rows)
    && Holding(code, results, code.script, sem, InputFor(code, sem, rows, columns))
    && Counting(code, results, code.single, InputFor(code, sem, rows, columns))
  }

  lemma StandsAtFirst(code: Code, start: seq<Val>, sem: Semantics, columns: string -> int)
    requires Hoisted(code) && |start| == |code.nodes| && Holding(code, start, code.script, sem, Row(columns, 1))
    requires forall id: nat {:trigger start[id]} :: id < |start| && id !in code.script ==> start[id] == N(0)
    ensures Standing(code, start, sem, [], columns)
  {
    forall id | id in code.single ensures id < |code.nodes| && id !in code.script {
      assert id < |code.nodes| && NodeOk(code, id);
    }
    ScriptStays(code, start, sem, Row(columns, 1), InputFor(code, sem, [], columns));
  }

  lemma StandsAfterRow(code: Code, before: seq<Val>, sem: Semantics, rows: seq<string -> int>, row: string -> int,
      columns: string -> int)
    requires Hoisted(code) && |before| == |code.nodes| && Standing(code, before, sem, rows, row)
    ensures Sourced(code.nodes) && forall i :: 0 <= i < |code.single| ==> code.single[i] < |code.nodes|
    ensures Standing(code, RunList(code.nodes, code.single, before, sem, row).0, sem, rows + [row], columns)
  {
    hide RunList, ValueAt, NumberFor;
    HoistedSourced(code);
    RowCounts(code, before, sem, rows, row);
    var r := RunList(code.nodes, code.single, before, sem, row).0;
    forall id | id in code.script ensures id < |code.nodes| && id !in code.single {
      assert id < |code.nodes| && NodeOk(code, id);
    }
    assert Holding(code, r, code.script, sem, InputFor(code, sem, rows, row));
    ScriptStays(code, r, sem, InputFor(code, sem, rows, row), InputFor(code, sem, rows + [row], columns));
  }

  lemma {:induction false} RowsCount(code: Code, start: seq<Val>, sem: Semantics, rows: seq<string -> int>,
      columns: string -> int)
    requires Hoisted(code) && |start| == |code.nodes| && Holding(code, start, code.script, sem, Row(columns, 1))
    requires forall id: nat {:trigger start[id]} :: id < |start| && id !in code.script ==> start[id] == N(0)
    ensures Sourced(code.nodes) && forall i :: 0 <= i < |code.single| ==> code.single[i] < |code.nodes|
    ensures Standing(code, RunRows(code, start, sem, rows), sem, rows, columns)
    decreases |rows|
  {
    hide Standing, Holding, RunList;
    HoistedSourced(code);
    if rows == [] {
      StandsAtFirst(code, start, sem, columns);
    } else {
      var last := |rows| - 1;
      ScriptStays(code, start, sem, Row(columns, 1), Row(rows[last], 1));
      RowsCount(code, start, sem, rows[..last], rows[last]);
      StandsAfterRow(code, RunRows(code, start, sem, rows[..last]), sem, rows[..last], rows[last], columns);
      assert rows[..last] + [rows[last]] == rows;
    }
  }

  lemma ScriptStays(code: Code, results: seq<Val>, sem: Semantics, a: Input, b: Input)
    requires Hoisted(code) && |results| == |code.nodes| && Holding(code, results, code.script, sem, a)
    ensures Holding(code, results, code.script, sem, b)
  {
    HoistedSourced(code);
    forall id | id in code.script && id < |code.nodes| ensures results[id] == ValueAt(code.nodes, id, sem, b) {
      assert NodeOk(code, id);
      OuterSame(code, id, sem, a, b);
    }
  }

  // ---------- the operators emitted for a tree compute it ----------

  /** Operators that are added later do not change a value. */
  lemma {:induction false} ValueStays(code: Code, code': Code, id: nat, sem: Semantics, input: Input)
    requires Hoisted(code) && Hoisted(code') && Extends(code, code') && id < |code.nodes|
    ensures Sourced(code.nodes) && Sourced(code'.nodes)
    ensures ValueAt(code'.nodes, id, sem, input) == ValueAt(code.nodes, id, sem, input)
    decreases id
  {
    HoistedSourced(code);
    HoistedSourced(code');
    var op := code.nodes[id].op;
    assert code'.nodes[..|code.nodes|][id] == code.nodes[id];
    assert SourcesIn(op, id);
    match op
    case Member(of, _) => ValueStays(code, code', of, sem, input);
    case AthOperator(_, l, r) => ValueStays(code, code', l, sem, input); ValueStays(code, code', r, sem, input);
    case RelOperator(_, l, r) => ValueStays(code, code', l, sem, input); ValueStays(code, code', r, sem, input);
    case BoolOperator(_, l, r) => ValueStays(code, code', l, sem, input); ValueStays(code, code', r, sem, input);
    case NotOperator(of) => ValueStays(code, code', of, sem, input);
    case _ =>
  }

  ghost function Value(code: Code, id: nat, sem: Semantics, input: Input): Val
    requires Hoisted(code) && id < |code.nodes|
  {
    HoistedSourced(code);
    ValueAt(code.nodes, id, sem, input)
  }

  lemma {:induction false} MembersValue(code: Code, of: nat, members: seq<string>, sem: Semantics, input: Input)
    requires Hoisted(code) && of < |code.nodes| && Value(code, of, sem, input).N?
    ensures var r := EmitMembers(code, of, members);
      Hoisted(r.0) && Value(r.0, r.1, sem, input) == N(EvalMembers(sem, Value(code, of, sem, input).n, members))
    decreases |members|
  {
    if members != [] {
      var next := AddToSingle(code, Member(of, members[0]));
      AddKeeps(code, Member(of, members[0]));
      ValueStays(code, next, of, sem, input);
      MembersValue(next, |code.nodes|, members[1..], sem, input);
    }
  }

  /** What an operator is worth over the results compiled so far. */
  ghost function OverResults(code: Code, op: Op, sem: Semantics, input: Input): Val
    requires Hoisted(code) && SourcesIn(op, |code.nodes|)
  {
    match op
    case Constant(n) => N(n)
    case Variable(name) => N(sem.variable(name))
    case Member(of, name) => N(sem.member(AsInt(Value(code, of, sem, input)), name))
    case ColumnVal(name) => N(input.columns(name))
    case PdvIndex => N(input.index(|code.nodes|))
    case AthOperator(op, l, r) => N(sem.apply(op, AsInt(Value(code, l, sem, input)), AsInt(Value(code, r, sem, input))))
    case RelOperator(kind, l, r) => B(Holds(kind, AsInt(Value(code, l, sem, input)), AsInt(Value(code, r, sem, input))))
    case BoolOperator(And, l, r) => B(AsBool(Value(code, l, sem, input)) && AsBool(Value(code, r, sem, input)))
    case BoolOperator(Or, l, r) => B(AsBool(Value(code, l, sem, input)) || AsBool(Value(code, r, sem, input)))
    case NotOperator(of) => B(!AsBool(Value(code, of, sem, input)))
  }

  /** An operator that is added is worth just that. */
  lemma AddedValue(code: Code, op: Op, sem: Semantics, input: Input)
    requires Hoisted(code) == true && SourcesIn(op, |code.nodes|)
    ensures Hoisted(AddToSingle(code, op)) == true
    ensures Value(AddToSingle(code, op), |code.nodes|, sem, input) == OverResults(code, op, sem, input)
  {
    var added := AddToSingle(code, op);
    AddKeeps(code, op);
    match op
    case Member(of, _) => ValueStays(code, added, of, sem, input);
    case AthOperator(_, l, r) => ValueStays(code, added, l, sem, input); ValueStays(code, added, r, sem, input);
    case RelOperator(_, l, r) => ValueStays(code, added, l, sem, input); ValueStays(code, added, r, sem, input);
    case BoolOperator(_, l, r) => ValueStays(code, added, l, sem, input); ValueStays(code, added, r, sem, input);
    case NotOperator(of) => ValueStays(code, added, of, sem, input);
    case _ =>
  }

  /** The number of the compiled result and what it is worth. */
  ghost predicate Yields(r: (Code, nat), v: Val, sem: Semantics, input: Input)
  {
    Hoisted(r.0) && r.1 < |r.0.nodes| && Value(r.0, r.1, sem, input) == v
  }

  /** An operator over two results that are compiled one behind the other. */
  lemma OverTwo(cl: (Code, nat), cr: (Code, nat), op: Op, v: Val, w: Val, sem: Semantics, input: Input)
    requires Yields(cl, v, sem, input) == true && Yields(cr, w, sem, input) == true && Extends(cl.0, cr.0) == true
    requires SourcesIn(op, |cr.0.nodes|)
    ensures cl.1 < |cr.0.nodes| && Value(cr.0, cl.1, sem, input) == v
    ensures Yields((AddToSingle(cr.0, op), |cr.0.nodes|), OverResults(cr.0, op, sem, input), sem, input) == true
  {
    ValueStays(cl.0, cr.0, cl.1, sem, input);
    AddedValue(cr.0, op, sem, input);
  }

  lemma YieldsHoisted(r: (Code, nat), v: Val, sem: Semantics, input: Input)
    requires Yields(r, v, sem, input) == true
    ensures Hoisted(r.0) == true && Value(r.0, r.1, sem, input) == v
  {
  }

  lemma {:induction false} ExpValue(code: Code, e: Exp, sem: Semantics, input: Input)
    requires Hoisted(code) == true
    ensures Extends(code, EmitExp(code, e).0) == true
    ensures Yields(EmitExp(code, e), N(Eval(sem, e, input, |code.nodes|)), sem, input) == true
    decreases e
  {
    EmitExpKeeps(code, e);
    match e
    case Num(n) => AddedValue(code, Constant(n), sem, input);
    case Column(name) => AddedValue(code, ColumnVal(name), sem, input);
    case Index => AddedValue(code, PdvIndex, sem, input);
    case Var(first, members) =>
      AddKeeps(code, Variable(first));
      AddedValue(code, Variable(first), sem, input);
      MembersValue(AddToSingle(code, Variable(first)), |code.nodes|, members, sem, input);
    case Bin(op, l, r) => BinValue(code, op, l, r, sem, input);
  }

  lemma {:induction false} BinValue(code: Code, op: AthOp, l: Exp, r: Exp, sem: Semantics, input: Input)
    requires Hoisted(code) == true
    ensures Yields(EmitExp(code, Bin(op, l, r)), N(Eval(sem, Bin(op, l, r), input, |code.nodes|)), sem, input) == true
    decreases Bin(op, l, r), 0
  {
    hide EmitExp, Hoisted, Extends, Yields, AddToSingle;
    BinEmits(code, op, l, r);
    var cl := EmitExp(code, l);
    var cr := EmitExp(cl.0, r);
    var v, w := Eval(sem, l, input, |code.nodes|), Eval(sem, r, input, |cl.0.nodes|);
    ExpValue(code, l, sem, input);
    YieldsHoisted(cl, N(v), sem, input);
    ExpValue(cl.0, r, sem, input);
    YieldsHoisted(cr, N(w), sem, input);
    OverTwo(cl, cr, AthOperator(op, cl.1, cr.1), N(v), N(w), sem, input);
  }

  /** Two operators applied to three values, the one that binds tighter first, and of two alike the
      first. */
  function Applied(sem: Semantics, x: int, f: AthOp, y: int, g: AthOp, z: int): int
  {
    if Tighter(g, f) then sem.apply(f, x, sem.apply(g, y, z)) else sem.apply(g, sem.apply(f, x, y), z)
  }

  lemma BinEval(sem: Semantics, op: AthOp, l: Exp, r: Exp, input: Input, from: nat)
    ensures Eval(sem, Bin(op, l, r), input, from)
      == sem.apply(op, Eval(sem, l, input, from), Eval(sem, r, input, from + Size(l)))
    ensures Size(Bin(op, l, r)) == Size(l) + Size(r) + 1
  {
  }

  lemma GroupedEval(sem: Semantics, a: Exp, f: AthOp, b: Exp, g: AthOp, c: Exp, input: Input, from: nat)
    ensures Eval(sem, Grouped(a, f, b, g, c), input, from)
      == Applied(sem, Eval(sem, a, input, from), f, Eval(sem, b, input, from + Size(a)), g,
        Eval(sem, c, input, from + Size(a) + Size(b) + if Tighter(g, f) then 0 else 1))
  {
    hide Eval, Size, Tighter;
    if Tighter(g, f) {
      BinEval(sem, f, a, Bin(g, b, c), input, from);
      BinEval(sem, g, b, c, input, from + Size(a));
    } else {
      BinEval(sem, g, Bin(f, a, b), c, input, from);
      BinEval(sem, f, a, b, input, from);
    }
  }

  /** What is compiled from tokens with two operators between factors applies them so. */
  lemma TwoOperatorsValue(code: Code, a: Exp, f: AthOp, b: Exp, g: AthOp, c: Exp, rest: seq<Token>, sem: Semantics,
      input: Input)
    requires Hoisted(code) == true && (rest != [] ==> rest[0] != Dot && rest[0] != Square && !rest[0].Ath?)
    ensures var tail := [Ath(f)] + (Print(-1, b) + ([Ath(g)] + (Print(-1, c) + rest)));
      var parsed := Parse(LOOSEST, Print(-1, a) + tail);
      var n := |code.nodes|;
      && parsed.Match?
      && Yields(EmitExp(code, parsed.tree),
        N(Applied(sem, Eval(sem, a, input, n), f, Eval(sem, b, input, n + Size(a)), g,
          Eval(sem, c, input, n + Size(a) + Size(b) + if Tighter(g, f) then 0 else 1))), sem, input) == true
  {
    hide Yields, EmitExp, Parse, Print, Eval, Tighter, Applied, Size, Hoisted, Extends;
    TwoOperators(a, f, b, g, c, rest);
    GroupedEval(sem, a, f, b, g, c, input, |code.nodes|);
    ExpValue(code, Grouped(a, f, b, g, c), sem, input);
  }

  lemma CompareValue(code: Code, rel: RelOp, l: Exp, r: Exp, sem: Semantics, input: Input)
    requires Hoisted(code) == true
    ensures Yields(EmitCond(code, Compare(rel, l, r)), B(EvalCond(sem, Compare(rel, l, r), input, |code.nodes|)),
      sem, input) == true
  {
    hide EmitCond, EmitExp, Hoisted, Extends, Yields, AddToSingle;
    CompareEmits(code, rel, l, r);
    var cl := EmitExp(code, l);
    var cr := EmitExp(cl.0, r);
    var v, w := Eval(sem, l, input, |code.nodes|), Eval(sem, r, input, |cl.0.nodes|);
    ExpValue(code, l, sem, input);
    YieldsHoisted(cl, N(v), sem, input);
    ExpValue(cl.0, r, sem, input);
    YieldsHoisted(cr, N(w), sem, input);
    OverTwo(cl, cr, Comparison(rel, cl.1, cr.1), N(v), N(w), sem, input);
    assert OverResults(cr.0, Comparison(rel, cl.1, cr.1), sem, input) == B(EvalRelation(rel, v, w));
  }

  lemma {:induction false} CondValue(code: Code, c: Cond, sem: Semantics, input: Input)
    requires Hoisted(code) == true
    ensures Extends(code, EmitCond(code, c).0) == true
    ensures Yields(EmitCond(code, c), B(EvalCond(sem, c, input, |code.nodes|)), sem, input) == true
    decreases c
  {
    hide EmitCond, EmitExp, Hoisted, Extends, Yields, AddToSingle;
    EmitCondKeeps(code, c);
    match c
    case Compare(rel, l, r) => CompareValue(code, rel, l, r, sem, input);
    case Both(op, l, r) =>
      BothEmits(code, op, l, r);
      var cl := EmitCond(code, l);
      var cr := EmitCond(cl.0, r);
      var v, w := EvalCond(sem, l, input, |code.nodes|), EvalCond(sem, r, input, |cl.0.nodes|);
      CondValue(code, l, sem, input);
      YieldsHoisted(cl, B(v), sem, input);
      CondValue(cl.0, r, sem, input);
      YieldsHoisted(cr, B(w), sem, input);
      OverTwo(cl, cr, BoolOperator(op, cl.1, cr.1), B(v), B(w), sem, input);
    case Not(cond) =>
      NotEmits(code, cond);
      var cc := EmitCond(code, cond);
      var v := EvalCond(sem, cond, input, |code.nodes|);
      CondValue(code, cond, sem, input);
      YieldsHoisted(cc, B(v), sem, input);
      OverOne(cc, NotOperator(cc.1), sem, input);
  }

  lemma OverOne(cc: (Code, nat), op: Op, sem: Semantics, input: Input)
    requires Hoisted(cc.0) == true && SourcesIn(op, |cc.0.nodes|)
    ensures Yields((AddToSingle(cc.0, op), |cc.0.nodes|), OverResults(cc.0, op, sem, input), sem, input) == true
  {
    AddedValue(cc.0, op, sem, input);
  }

  // ---------- hoisting preserves meaning ----------

  /** A single statement behind another one, before its expression is compiled. */
  function Start(inner: nat): Code
  {
    Code([], [], [], [], inner)
  }

  predicate NotFree(c: Cond)
  {
    match c
    case Compare(_, _, _) => true
    case Both(_, l, r) => NotFree(l) && NotFree(r)
    case Not(_) => false
  }

  /** Every `not` inside the condition comes out true. */
  function AllNotsHold(sem: Semantics, c: Cond, input: Input, from: nat): bool
  {
    match c
    case Compare(_, _, _) => true
    case Both(_, l, r) => AllNotsHold(sem, l, input, from) && AllNotsHold(sem, r, input, from + CondSize(l))
    case Not(cond) => AllNotsHold(sem, cond, input, from) && !EvalCond(sem, cond, input, from)
  }

  ghost predicate NoNotFrom(code: Code, lo: nat)
  {
    forall id: nat {:trigger code.nodes[id]} :: lo <= id < |code.nodes| ==> !code.nodes[id].op.NotOperator?
  }

  /** The `not` operators from number `lo` on come out true. */
  ghost predicate NotsFrom(code: Code, lo: nat, sem: Semantics, input: Input)
    requires Hoisted(code)
  {
    forall id: nat {:trigger Value(code, id, sem, input)} ::
      lo <= id < |code.nodes| && code.nodes[id].op.NotOperator? ==>
      AsBool(Value(code, id, sem, input))
  }

  lemma AddNoNot(code: Code, op: Op, lo: nat)
    requires SourcesIn(op, |code.nodes|) && !op.NotOperator? && NoNotFrom(code, lo)
    ensures NoNotFrom(AddToSingle(code, op), lo)
  {
  }

  lemma {:induction false} MembersNoNot(code: Code, of: nat, members: seq<string>, lo: nat)
    requires of < |code.nodes| && NoNotFrom(code, lo)
    ensures NoNotFrom(EmitMembers(code, of, members).0, lo)
    decreases |members|
  {
    if members != [] {
      AddNoNot(code, Member(of, members[0]), lo);
      MembersNoNot(AddToSingle(code, Member(of, members[0])), |code.nodes|, members[1..], lo);
    }
  }

  /** Expressions have no `not`. */
  lemma {:induction false} ExpNoNot(code: Code, e: Exp, lo: nat)
    requires NoNotFrom(code, lo)
    ensures NoNotFrom(EmitExp(code, e).0, lo)
    decreases e
  {
    match e
    case Num(n) => AddNoNot(code, Constant(n), lo);
    case Column(name) => AddNoNot(code, ColumnVal(name), lo);
    case Index => AddNoNot(code, PdvIndex, lo);
    case Var(first, members) =>
      AddNoNot(code, Variable(first), lo);
      MembersNoNot(AddToSingle(code, Variable(first)), |code.nodes|, members, lo);
    case Bin(op, l, r) =>
      var cl := EmitExp(code, l);
      var cr := EmitExp(cl.0, r);
      ExpNoNot(code, l, lo);
      ExpNoNot(cl.0, r, lo);
      AddNoNot(cr.0, AthOperator(op, cl.1, cr.1), lo);
  }

  lemma {:induction false} CondNoNot(code: Code, c: Cond, lo: nat)
    requires NoNotFrom(code, lo) && NotFree(c)
    ensures NoNotFrom(EmitCond(code, c).0, lo)
    decreases c
  {
    match c
    case Compare(rel, l, r) =>
      var cl := EmitExp(code, l);
      var cr := EmitExp(cl.0, r);
      ExpNoNot(code, l, lo);
      ExpNoNot(cl.0, r, lo);
      AddNoNot(cr.0, Comparison(rel, cl.1, cr.1), lo);
    case Both(op, l, r) =>
      var cl := EmitCond(code, l);
      var cr := EmitCond(cl.0, r);
      CondNoNot(code, l, lo);
      CondNoNot(cl.0, r, lo);
      AddNoNot(cr.0, BoolOperator(op, cl.1, cr.1), lo);
  }

  lemma NotsSplit(a: Code, b: Code, lo: nat, sem: Semantics, input: Input)
    requires Hoisted(a) && Hoisted(b) && Extends(a, b) && lo <= |a.nodes|
    ensures NotsFrom(b, lo, sem, input) <==> NotsFrom(a, lo, sem, input) && NotsFrom(b, |a.nodes|, sem, input)
  {
    forall id: nat | id < |a.nodes|
      ensures Value(a, id, sem, input) == Value(b, id, sem, input) && b.nodes[id] == a.nodes[id]
    {
      ValueStays(a, b, id, sem, input);
      assert b.nodes[..|a.nodes|][id] == a.nodes[id];
    }
  }

  /** One operator more adds a `not` or it does not. */
  lemma NotsAdded(code: Code, op: Op, lo: nat, sem: Semantics, input: Input)
    requires Hoisted(code) == true && SourcesIn(op, |code.nodes|) && lo <= |code.nodes|
    ensures Hoisted(AddToSingle(code, op)) == true
    ensures NotsFrom(AddToSingle(code, op), lo, sem, input)
      <==> NotsFrom(code, lo, sem, input) && (op.NotOperator? ==> AsBool(OverResults(code, op, sem, input)))
  {
    var added := AddToSingle(code, op);
    AddKeeps(code, op);
    AddedValue(code, op, sem, input);
    NotsSplit(code, added, lo, sem, input);
    if op.NotOperator? && NotsFrom(added, |code.nodes|, sem, input) {
      assert AsBool(Value(added, |code.nodes|, sem, input));
    }
  }

  /** The emitted `not` operators come out true exactly when those of the condition do. */
  lemma {:induction false} CondNots(code: Code, c: Cond, sem: Semantics, input: Input)
    requires Hoisted(code) == true
    ensures Hoisted(EmitCond(code, c).0) == true && Extends(code, EmitCond(code, c).0) == true
    ensures NotsFrom(EmitCond(code, c).0, |code.nodes|, sem, input) <==> AllNotsHold(sem, c, input, |code.nodes|)
    decreases c
  {
    hide EmitCond, EmitExp, Hoisted, Extends, NotsFrom, AddToSingle, Yields;
    EmitCondKeeps(code, c);
    match c
    case Compare(_, _, _) => CompareNoNots(code, c, sem, input);
    case Both(op, l, r) =>
      BothEmits(code, op, l, r);
      var (cl, il) := EmitCond(code, l);
      var (cr, ir) := EmitCond(cl, r);
      CondNots(code, l, sem, input);
      CondNots(cl, r, sem, input);
      NotsSplit(cl, cr, |code.nodes|, sem, input);
      NotsAdded(cr, BoolOperator(op, il, ir), |code.nodes|, sem, input);
    case Not(cond) =>
      var (cc, id) := EmitCond(code, cond);
      NotEmits(code, cond);
      CondNots(code, cond, sem, input);
      CondValue(code, cond, sem, input);
      YieldsHoisted((cc, id), B(EvalCond(sem, cond, input, |code.nodes|)), sem, input);
      NotsAdded(cc, NotOperator(id), |code.nodes|, sem, input);
  }

  lemma CompareNoNots(code: Code, c: Cond, sem: Semantics, input: Input)
    requires Hoisted(code) == true && c.Compare?
    ensures Hoisted(EmitCond(code, c).0) == true && NotsFrom(EmitCond(code, c).0, |code.nodes|, sem, input)
  {
    EmitCondKeeps(code, c);
    CondNoNot(code, c, |code.nodes|);
  }

  lemma NotsOfLists(code: Code, sem: Semantics, input: Input)
    requires Hoisted(code)
    ensures NotsFrom(code, 0, sem, input) <==>
      NotsHold(code, code.script, sem, input) && NotsHold(code, code.single, sem, input)
  {
    HoistedSourced(code);
    forall id: nat | id < |code.nodes| ensures id in code.script || id in code.single {
      assert NodeOk(code, id);
    }
    if NotsFrom(code, 0, sem, input) {
      forall id: nat | id < |code.nodes| && code.nodes[id].op.NotOperator?
        ensures AsBool(ValueAt(code.nodes, id, sem, input))
      {
        assert AsBool(Value(code, id, sem, input));
      }
    }
    if NotsHold(code, code.script, sem, input) && NotsHold(code, code.single, sem, input) {
      forall id: nat | id < |code.nodes| && code.nodes[id].op.NotOperator?
        ensures AsBool(Value(code, id, sem, input))
      {
        assert id in code.script || id in code.single;
      }
    }
  }

  /** The results before any row: the script has run over operators that hold zero. */
  function ScriptDone(code: Code, sem: Semantics): (r: (seq<Val>, bool))
    requires Hoisted(code)
    ensures |r.0| == |code.nodes|
  {
    HoistedSourced(code);
    RunList(code.nodes, code.script, seq(|code.nodes|, _ => N(0)), sem, _ => 0)
  }

  lemma ScriptStarts(code: Code, sem: Semantics, columns: string -> int)
    requires Hoisted(code)
    ensures ScriptDone(code, sem).1 <==> NotsHold(code, code.script, sem, Row(columns, 1))
    ensures ScriptDone(code, sem).1 ==> Holding(code, ScriptDone(code, sem).0, code.script, sem, Row(columns, 1))
    ensures forall id: nat {:trigger ScriptDone(code, sem).0[id]} ::
      id < |code.nodes| && id !in code.script ==> ScriptDone(code, sem).0[id] == N(0)
  {
    ScriptRuns(code, seq(|code.nodes|, _ => N(0)), sem, _ => 0, Row(columns, 1));
  }

  /** The results after the script and some rows, whether the list was completed on them or not. */
  function RowsDone(code: Code, sem: Semantics, rows: seq<string -> int>): (r: seq<Val>)
    requires Hoisted(code)
    ensures |r| == |code.nodes|
  {
    HoistedSourced(code);
    RunRows(code, ScriptDone(code, sem).0, sem, rows)
  }

  /** The operator INDEX stands at the number of rows that it was reached on: a row on which a
      `not` before it came out false is not counted. */
  lemma IndexCounts(code: Code, sem: Semantics, rows: seq<string -> int>, id: nat)
    requires Hoisted(code) && ScriptDone(code, sem).1 && id < |code.nodes| && code.nodes[id].op.PdvIndex?
    ensures RowsDone(code, sem, rows)[id] == N(NumberFor(code, sem, rows, id) - 1)
  {
    ScriptStarts(code, sem, _ => 0);
    RowsCount(code, ScriptDone(code, sem).0, sem, rows, _ => 0);
    assert NodeOk(code, id);
  }

  /** The code of a filter with this condition, and the number of the condition's operator. */
  function Filter(c: Cond, inner: nat): (Code, nat)
  {
    EmitCond(Start(inner), c)
  }

  /** Whether that filter lets a row through that comes behind other ones. */
  ghost predicate Passes(c: Cond, inner: nat, sem: Semantics, rows: seq<string -> int>, columns: string -> int)
    requires inner > COMBO_DEPENDENCY
  {
    var (code, root) := Filter(c, inner);
    EmitCondKeeps(Start(inner), c);
    HoistedSourced(code);
    var row := RunList(code.nodes, code.single, RowsDone(code, sem, rows), sem, columns);
    ScriptDone(code, sem).1 && row.1 && AsBool(row.0[root])
  }

  /** A row passes, whatever came before it, exactly when the condition holds and every `not` in
      it comes out true on its own, for the list stops at one that does not. The numbers of the
      row are those that the counters have come to. */
  lemma PassesWhen(c: Cond, inner: nat, sem: Semantics, rows: seq<string -> int>, columns: string -> int)
    requires inner > COMBO_DEPENDENCY
    ensures var code := Filter(c, inner).0;
      && Hoisted(code)
      && (var input := InputFor(code, sem, rows, columns);
          Passes(c, inner, sem, rows, columns) <==> EvalCond(sem, c, input, 0) && AllNotsHold(sem, c, input, 0))
  {
    var (code, root) := Filter(c, inner);
    EmitCondKeeps(Start(inner), c);
    var input := InputFor(code, sem, rows, columns);
    CondValue(Start(inner), c, sem, input);
    CondNots(Start(inner), c, sem, input);
    NotsOfLists(code, sem, input);
    ScriptStarts(code, sem, columns);
    ScriptNots(code, sem, Row(columns, 1), input);
    if ScriptDone(code, sem).1 {
      RowsCount(code, ScriptDone(code, sem).0, sem, rows, columns);
      RowRuns(code, RowsDone(code, sem, rows), sem, input);
    }
  }

  lemma ScriptNots(code: Code, sem: Semantics, a: Input, b: Input)
    requires Hoisted(code)
    ensures NotsHold(code, code.script, sem, a) <==> NotsHold(code, code.script, sem, b)
  {
    HoistedSourced(code);
    forall id | id in code.script
      ensures id < |code.nodes| && ValueAt(code.nodes, id, sem, a) == ValueAt(code.nodes, id, sem, b)
    {
      assert id < |code.nodes| && NodeOk(code, id);
      OuterSame(code, id, sem, a, b);
    }
  }

  // ---------- where all counters agree ----------

  predicate IndexFreeExp(e: Exp)
  {
    match e
    case Index => false
    case Bin(_, l, r) => IndexFreeExp(l) && IndexFreeExp(r)
    case _ => true
  }

  predicate IndexFree(c: Cond)
  {
    match c
    case Compare(_, l, r) => IndexFreeExp(l) && IndexFreeExp(r)
    case Both(_, l, r) => IndexFree(l) && IndexFree(r)
    case Not(cond) => IndexFree(cond)
  }

  /** The two inputs are one for this tree. */
  ghost predicate SameFor(a: Input, b: Input, indexFree: bool)
  {
    a.columns == b.columns && (indexFree || forall id :: a.index(id) == b.index(id))
  }

  lemma {:induction false} EvalSame(sem: Semantics, e: Exp, a: Input, b: Input, from: nat)
    requires SameFor(a, b, IndexFreeExp(e))
    ensures Eval(sem, e, a, from) == Eval(sem, e, b, from)
    decreases e
  {
    if e.Bin? {
      EvalSame(sem, e.left, a, b, from);
      EvalSame(sem, e.right, a, b, from + Size(e.left));
    }
  }

  lemma {:induction false} CondSame(sem: Semantics, c: Cond, a: Input, b: Input, from: nat)
    requires SameFor(a, b, IndexFree(c))
    ensures EvalCond(sem, c, a, from) == EvalCond(sem, c, b, from)
    ensures AllNotsHold(sem, c, a, from) == AllNotsHold(sem, c, b, from)
    decreases c
  {
    match c
    case Compare(_, l, r) =>
      EvalSame(sem, l, a, b, from);
      EvalSame(sem, r, a, b, from + Size(l));
    case Both(_, l, r) =>
      CondSame(sem, l, a, b, from);
      CondSame(sem, r, a, b, from + CondSize(l));
    case Not(cond) =>
      CondSame(sem, cond, a, b, from);
  }

  lemma {:induction false} NoNotNoStop(sem: Semantics, c: Cond, input: Input, from: nat)
    requires NotFree(c)
    ensures AllNotsHold(sem, c, input, from)
    decreases c
  {
    if c.Both? {
      NoNotNoStop(sem, c.left, input, from);
      NoNotNoStop(sem, c.right, input, from + CondSize(c.left));
    }
  }

  /** Without a `not` every row is counted by every counter. */
  lemma {:induction false} AllCount(code: Code, sem: Semantics, rows: seq<string -> int>, id: nat)
    requires Hoisted(code) && NoNotFrom(code, 0)
    ensures NumberFor(code, sem, rows, id) == |rows| + 1
    decreases |rows|
  {
    HoistedSourced(code);
    if rows != [] {
      AllCount(code, sem, rows[..|rows| - 1], id);
    }
  }

  /** A filter without INDEX, or without `not`, tests each row on its own, and with its true
      number. */
  lemma PassesAlone(c: Cond, inner: nat, sem: Semantics, rows: seq<string -> int>, columns: string -> int)
    requires inner > COMBO_DEPENDENCY && (IndexFree(c) || NotFree(c))
    ensures var row := Row(columns, |rows| + 1);
      Passes(c, inner, sem, rows, columns) <==> EvalCond(sem, c, row, 0) && AllNotsHold(sem, c, row, 0)
  {
    PassesWhen(c, inner, sem, rows, columns);
    var code, row := Filter(c, inner).0, Row(columns, |rows| + 1);
    var input := InputFor(code, sem, rows, columns);
    if NotFree(c) {
      CondNoNot(Start(inner), c, 0);
      forall id: nat ensures input.index(id) == row.index(id) {
        AllCount(code, sem, rows, id);
      }
    }
    CondSame(sem, c, input, row, 0);
  }

  /** The hoisted operators run once and the others for each row: with no `not` in it, a filter
      lets through exactly the rows that the condition holds for, with their numbers. */
  lemma HoistingPreservesMeaning(c: Cond, inner: nat, sem: Semantics, rows: seq<string -> int>, columns: string -> int)
    requires inner > COMBO_DEPENDENCY && NotFree(c)
    ensures Passes(c, inner, sem, rows, columns) <==> EvalCond(sem, c, Row(columns, |rows| + 1), 0)
  {
    PassesAlone(c, inner, sem, rows, columns);
    NoNotNoStop(sem, c, Row(columns, |rows| + 1), 0);
  }

  /** A row that all operators have the same number for: it does not matter how they are numbered. */
  lemma {:induction false} ExpFrom(sem: Semantics, e: Exp, columns: string -> int, number: nat, a: nat, b: nat)
    ensures Eval(sem, e, Row(columns, number), a) == Eval(sem, e, Row(columns, number), b)
    decreases e
  {
    if e.Bin? {
      ExpFrom(sem, e.left, columns, number, a, b);
      ExpFrom(sem, e.right, columns, number, a + Size(e.left), b + Size(e.left));
    }
  }

  lemma {:induction false} CondFrom(sem: Semantics, c: Cond, columns: string -> int, number: nat, a: nat, b: nat)
    ensures EvalCond(sem, c, Row(columns, number), a) == EvalCond(sem, c, Row(columns, number), b)
    decreases c
  {
    match c
    case Compare(_, l, r) =>
      ExpFrom(sem, l, columns, number, a, b);
      ExpFrom(sem, r, columns, number, a + Size(l), b + Size(l));
    case Both(_, l, r) =>
      CondFrom(sem, l, columns, number, a, b);
      CondFrom(sem, r, columns, number, a + CondSize(l), b + CondSize(l));
    case Not(cond) => CondFrom(sem, cond, columns, number, a, b);
  }

  /** A filter for `l and r` lets through what both filters let through, one for `l or r` what one of
      them does, and one for `not l` what that for `l` does not, if it has no `not` in it. */
  lemma FiltersCombine(l: Cond, r: Cond, inner: nat, sem: Semantics, rows: seq<string -> int>, columns: string -> int)
    requires inner > COMBO_DEPENDENCY && NotFree(l) && NotFree(r)
    ensures Passes(Both(And, l, r), inner, sem, rows, columns) <==>
      Passes(l, inner, sem, rows, columns) && Passes(r, inner, sem, rows, columns)
    ensures Passes(Both(Or, l, r), inner, sem, rows, columns) <==>
      Passes(l, inner, sem, rows, columns) || Passes(r, inner, sem, rows, columns)
    ensures IndexFree(l) ==>
      (Passes(Not(l), inner, sem, rows, columns) <==> !Passes(l, inner, sem, rows, columns))
  {
    hide Passes;
    var number := |rows| + 1;
    HoistingPreservesMeaning(l, inner, sem, rows, columns);
    HoistingPreservesMeaning(r, inner, sem, rows, columns);
    HoistingPreservesMeaning(Both(And, l, r), inner, sem, rows, columns);
    HoistingPreservesMeaning(Both(Or, l, r), inner, sem, rows, columns);
    CondFrom(sem, r, columns, number, 0, CondSize(l));
    if IndexFree(l) {
      PassesAlone(Not(l), inner, sem, rows, columns);
      NoNotNoStop(sem, l, Row(columns, number), 0);
    }
  }

  /** `not .a == 1 or .b == 1` drops a row although it holds for it. */
  lemma NotMayDropARow(inner: nat, sem: Semantics, rows: seq<string -> int>)
    requires inner > COMBO_DEPENDENCY
    ensures var c := Both(Or, Not(Compare(Equal, Column("a"), Num(1))), Compare(Equal, Column("b"), Num(1)));
      var columns := (_: string) => 1;
      EvalCond(sem, c, Row(columns, |rows| + 1), 0) && !Passes(c, inner, sem, rows, columns)
  {
    hide Passes;
    var c := Both(Or, Not(Compare(Equal, Column("a"), Num(1))), Compare(Equal, Column("b"), Num(1)));
    PassesAlone(c, inner, sem, rows, (_: string) => 1);
  }
}
