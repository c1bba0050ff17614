/** The recursive descent parser with its one token of look-ahead. It emits operators while
    it parses, and every operator is put into its sequence at once. */
module ScriptParser {
  import opened Basics
  import opened Syntax
  import opened Compiler

  /** What a match method comes back with: the operator that holds the result, false, or a
      syntax error thrown. */
  datatype Matched = Operator(id: nat) | NotMatched | SyntaxError

  class Parser {
    /** The tokens from the look-ahead on. */
    var input: seq<Token>
    var nodes: seq<Node>
    var script: seq<nat>
    var combo: seq<nat>
    var single: seq<nat>
    const inner: nat
    /** Whether the single statement has an inport for columns to come from. */
    const hasInport: bool

    function Now(): Code
      reads this
    {
      Code(nodes, script, combo, single, inner)
    }

    constructor (input: seq<Token>, inner: nat, hasInport: bool)
      ensures this.input == input && Now() == Start(inner) && this.inner == inner && this.hasInport == hasInport
    {
      this.input, this.inner, this.hasInport := input, inner, hasInport;
      nodes, script, combo, single := [], [], [], [];
    }

    method NextToken()
      requires input != []
      modifies this`input
      ensures input == old(input)[1..]
    {
      input := input[1..];
    }

    /** Adds an operator to the single statement, which passes it on when it does not depend
        on the inport. */
    method AddOp(op: Op) returns (id: nat)
      requires SourcesIn(op, |nodes|)
      modifies this`nodes, this`script, this`combo, this`single
      ensures Now() == AddToSingle(old(Now()), op) && id == |old(nodes)|
    {
      id := |nodes|;
      var dependency := DependencyOf(Now(), op);
      nodes := nodes + [Node(op, dependency)];
      if dependency < inner {
        if dependency < COMBO_DEPENDENCY {
          script := script + [id];
        } else {
          combo := combo + [id];
        }
      } else {
        single := single + [id];
      }
    }

    /** The result of matching an expression: as the parsing function says, with the operators
        of the tree emitted. Without an inport a column is a syntax error. */
    twostate predicate Matches(m: Matched, parsed: Parsed<Exp>)
      reads this
    {
      match m
      case Operator(id) =>
        parsed.Match? && input == parsed.rest && (Now(), id) == EmitExp(old(Now()), parsed.tree)
      case NotMatched => parsed.NoMatch? && input == old(input) && Now() == old(Now())
      case SyntaxError => hasInport ==> parsed.Error?
    }

    /** The members picked from a variable, one operator each. */
    method MatchMembers(of: nat) returns (m: Matched)
      requires of < |nodes|
      modifies this`input, this`nodes, this`script, this`combo, this`single
      ensures if m.Operator? then
          var p := ParseMembers(old(input));
          p.Match? && input == p.rest && (Now(), m.id) == EmitMembers(old(Now()), of, p.tree)
        else m == SyntaxError && ParseMembers(old(input)).Error?
    {
      var id := of;
      ghost var members: seq<string> := [];
      assert Prefixed([], ParseMembers(input)) == ParseMembers(input) by { NoPrefix(ParseMembers(input)); }
      while input != [] && (input[0] == Dot || input[0] == Square)
        invariant id < |nodes|
        invariant ParseMembers(old(input)) == Prefixed(members, ParseMembers(input))
        invariant (Now(), id) == EmitMembers(old(Now()), of, members)
        decreases |input|
      {
        if input[0] == Square || |input| < 2 || !input[1].Word? {
          return SyntaxError;
        }
        ghost var rest := input;
        EmitMembersMore(old(Now()), of, members, input[1].name);
        MorePrefix(members, input[1].name, ParseMembers(input[2..]));
        NextToken();
        id := AddOp(Member(id, input[0].name));
        members := members + [input[0].name];
        NextToken();
        assert input == rest[2..];
      }
      assert members + [] == members;
      return Operator(id);
    }

    method MatchVariable() returns (m: Matched)
      requires input != [] && input[0] == Dollar
      modifies this`input, this`nodes, this`script, this`combo, this`single
      ensures Matches(m, ParseFactor(old(input)))
    {
      NextToken();
      if input == [] || !input[0].Word? {
        return SyntaxError;
      }
      var id := AddOp(Variable(input[0].name));
      NextToken();
      assert input == old(input)[2..];
      m := MatchMembers(id);
    }

    method MatchFactor() returns (m: Matched)
      modifies this`input, this`nodes, this`script, this`combo, this`single
      ensures Matches(m, ParseFactor(old(input)))
      decreases |input|, 0
    {
      if input == [] {
        return NotMatched;
      }
      var id;
      match input[0]
      case Numeral(n) =>
        id := AddOp(Constant(n));
        NextToken();
        return Operator(id);
      case Open =>
        NextToken();
        m := MatchBinaryOperate(LOOSEST);
        if !m.Operator? || input == [] || input[0] != Close {
          return SyntaxError;
        }
        NextToken();
      case Dollar =>
        m := MatchVariable();
      case IndexVar =>
        if !hasInport {
          return SyntaxError;
        }
        id := AddOp(PdvIndex);
        NextToken();
        return Operator(id);
      case Dot =>
        NextToken();
        if !hasInport || input == [] || !input[0].Word? {
          return SyntaxError;
        }
        id := AddOp(ColumnVal(input[0].name));
        NextToken();
        assert input == old(input)[2..];
        return Operator(id);
      case _ =>
        return NotMatched;
    }

    /** The next tighter level, down to factors. */
    method MatchTerm(level: int) returns (m: Matched)
      requires -1 <= level <= LOOSEST
      modifies this`input, this`nodes, this`script, this`combo, this`single
      ensures Matches(m, Parse(level, old(input)))
      decreases |input|, level + 2, 0
    {
      if level == -1 {
        m := MatchFactor();
      } else {
        m := MatchBinaryOperate(level);
      }
    }

    /** A chain of operators of one level, from left to right. */
    method MatchBinaryOperate(level: int) returns (m: Matched)
      requires 0 <= level <= LOOSEST
      modifies this`input, this`nodes, this`script, this`combo, this`single
      ensures Matches(m, Parse(level, old(input)))
      decreases |input|, level + 1, 1
    {
      hide Size, AddToSingle, SourcesIn;
      m := MatchTerm(level - 1);
      if !m.Operator? {
        return;
      }
      ghost var first := Parse(level - 1, old(input));
      ghost var left := first.tree;
      var id := m.id;
      while input != [] && input[0].Ath? && Level(input[0].ath) == level
        invariant Parse(level, old(input)) == ParseTail(level, left, input) && |input| < |old(input)|
        invariant (Now(), id) == EmitExp(old(Now()), left)
        decreases |input|
      {
        ghost var ts, code := input, Now();
        var ath := input[0].ath;
        NextToken();
        m := MatchTerm(level - 1);
        if !m.Operator? {
          return SyntaxError;
        }
        id := AddOp(AthOperator(ath, id, m.id));
        left := Bin(ath, left, Parse(level - 1, ts[1..]).tree);
      }
      return Operator(id);
    }

    /** The same for a condition. */
    twostate predicate MatchesCond(m: Matched, parsed: Parsed<Cond>)
      reads this
    {
      match m
      case Operator(id) =>
        parsed.Match? && input == parsed.rest && (Now(), id) == EmitCond(old(Now()), parsed.tree)
      case NotMatched => parsed.NoMatch? && input == old(input) && Now() == old(Now())
      case SyntaxError => hasInport ==> parsed.Error?
    }

    method MatchRelationExp() returns (m: Matched)
      modifies this`input, this`nodes, this`script, this`combo, this`single
      ensures MatchesCond(m, ParseRelation(old(input)))
    {
      var l := MatchBinaryOperate(LOOSEST);
      if !l.Operator? {
        return l;
      }
      if input == [] || !input[0].Rel? {
        return SyntaxError;
      }
      var rel := input[0].rel;
      NextToken();
      var r := MatchBinaryOperate(LOOSEST);
      if !r.Operator? {
        return SyntaxError;
      }
      var id;
      match rel {
      case Less => id := AddOp(RelOperator(LT, l.id, r.id));
      case Greater => id := AddOp(RelOperator(LT, r.id, l.id));
      case LessEqual => id := AddOp(RelOperator(LE, l.id, r.id));
      case GreaterEqual => id := AddOp(RelOperator(LE, r.id, l.id));
      case Equal => id := AddOp(RelOperator(EQ, l.id, r.id));
      }
      return Operator(id);
    }

    method MatchRelationFactor() returns (m: Matched)
      modifies this`input, this`nodes, this`script, this`combo, this`single
      ensures MatchesCond(m, ParseCondFactor(old(input)))
      decreases |input|, 0
    {
      if input != [] && input[0] == Open {
        NextToken();
        m := MatchCondition();
        if !m.Operator? || input == [] || input[0] != Close {
          return SyntaxError;
        }
        NextToken();
      } else if input != [] && input[0] == NotSign {
        NextToken();
        m := MatchRelationFactor();
        if !m.Operator? {
          return SyntaxError;
        }
        var id := AddOp(NotOperator(m.id));
        return Operator(id);
      } else {
        m := MatchRelationExp();
      }
    }

    /** `and` and `or` are of one level, and taken from left to right. */
    method MatchCondition() returns (m: Matched)
      modifies this`input, this`nodes, this`script, this`combo, this`single
      ensures MatchesCond(m, ParseCond(old(input)))
      decreases |input|, 1
    {
      m := MatchRelationFactor();
      if !m.Operator? {
        return;
      }
      ghost var left := ParseCondFactor(old(input)).tree;
      var id := m.id;
      while input != [] && input[0].Bool?
        invariant ParseCond(old(input)) == ParseCondTail(left, input) && |input| < |old(input)|
        invariant (Now(), id) == EmitCond(old(Now()), left)
        decreases |input|
      {
        ghost var ts := input;
        var op := input[0].bool_;
        NextToken();
        m := MatchRelationFactor();
        if !m.Operator? {
          return SyntaxError;
        }
        id := AddOp(BoolOperator(op, id, m.id));
        left := Both(op, left, ParseCondFactor(ts[1..]).tree);
      }
      return Operator(id);
    }

    /** Compiles the condition of a filter, whatever tokens there are. If they begin with a
        condition, the parser stops behind it, its operators are hoisted, and the last of them is
        the condition's; otherwise there is none. */
    method CompileCondition() returns (root: Option<nat>)
      requires hasInport && inner > COMBO_DEPENDENCY && Now() == Start(inner)
      modifies this`input, this`nodes, this`script, this`combo, this`single
      ensures root.Some? <==> ParseCond(old(input)).Match?
      ensures root.Some? ==>
        var parsed := ParseCond(old(input));
        input == parsed.rest && (Now(), root.value) == EmitCond(Start(inner), parsed.tree) && Hoisted(Now())
    {
      var m := MatchCondition();
      if !m.Operator? {
        return None;
      }
      EmitCondKeeps(Start(inner), ParseCond(old(input)).tree);
      return Some(m.id);
    }
  }

  lemma NoPrefix(p: Parsed<seq<string>>)
    ensures Prefixed([], p) == p
  {
    assert p.Match? ==> [] + p.tree == p.tree;
  }

  lemma MorePrefix(members: seq<string>, name: string, p: Parsed<seq<string>>)
    ensures Prefixed(members + [name], p) == Prefixed(members, Prefixed([name], p))
  {
    assert p.Match? ==> members + [name] + p.tree == members + ([name] + p.tree);
  }

  ghost function Prefixed(members: seq<string>, p: Parsed<seq<string>>): Parsed<seq<string>>
  {
    if p.Match? then Match(members + p.tree, p.rest) else p
  }

  /** Emitting one more member after the others. */
  lemma {:induction false} EmitMembersMore(code: Code, of: nat, members: seq<string>, name: string)
    requires of < |code.nodes|
    ensures var r := EmitMembers(code, of, members);
      EmitMembers(code, of, members + [name]) == (AddToSingle(r.0, Member(r.1, name)), |r.0.nodes|)
    decreases |members|
  {
    if members == [] {
      assert ([] + [name])[1..] == [];
    } else {
      assert (members + [name])[1..] == members[1..] + [name];
      EmitMembersMore(AddToSingle(code, Member(of, members[0])), |code.nodes|, members[1..], name);
    }
  }
}
