/** The expression syntax of the script language on the level of tokens: what the parser
    accepts, and printing with as few brackets as possible. */
module Syntax {

  datatype AthOp = Add | Sub | Mul | Div | BitAnd | BitOr | BitXor

  datatype RelOp = Less | Greater | LessEqual | GreaterEqual | Equal

  datatype BoolOp = And | Or

  datatype Token =
    | Numeral(n: int)
    | Dollar
    | Word(name: string)
    | Dot
    | IndexVar
    | Ath(ath: AthOp)
    | Rel(rel: RelOp)
    | Bool(bool_: BoolOp)
    | NotSign
    | Open
    | Close
    | Square
    | Other(id: int)

  /** `Var` is a variable with the members picked from it, one after the other. */
  datatype Exp =
    | Num(n: int)
    | Var(first: string, members: seq<string>)
    | Column(name: string)
    | Index
    | Bin(op: AthOp, left: Exp, right: Exp)

  datatype Cond =
    | Compare(rel: RelOp, l: Exp, r: Exp)
    | Both(op: BoolOp, left: Cond, right: Cond)
    | Not(cond: Cond)

  /** Bit operators bind tightest, then multiplication and division, then addition and
      subtraction. */
  function Level(op: AthOp): int
  {
    match op
    case BitAnd | BitOr | BitXor => 0
    case Mul | Div => 1
    case Add | Sub => 2
  }

  const LOOSEST := 2

  // ---------- the parser's functions ----------

  /** `NoMatch` is the parser returning false; `Error` is its syntax error. */
  datatype Parsed<T> = Match(tree: T, rest: seq<Token>) | NoMatch | Error

  function ParseMembers(ts: seq<Token>): (r: Parsed<seq<string>>)
    ensures r.Match? ==> |r.rest| <= |ts|
    decreases |ts|
  {
    if ts != [] && ts[0] == Square then Error
    else if ts != [] && ts[0] == Dot then
      if |ts| >= 2 && ts[1].Word? then
        var more := ParseMembers(ts[2..]);
        if more.Match? then Match([ts[1].name] + more.tree, more.rest) else more
      else Error
    else Match([], ts)
  }

  function ParseFactor(ts: seq<Token>): (r: Parsed<Exp>)
    ensures r.Match? ==> |r.rest| < |ts|
    decreases |ts|, 0
  {
    if ts == [] then NoMatch
    else
      match ts[0]
      case Numeral(n) => Match(Num(n), ts[1..])
      case IndexVar => Match(Index, ts[1..])
      case Dollar =>
        if |ts| >= 2 && ts[1].Word? then
          var more := ParseMembers(ts[2..]);
          if more.Match? then Match(Var(ts[1].name, more.tree), more.rest) else Error
        else Error
      case Dot =>
        if |ts| >= 2 && ts[1].Word? then Match(Column(ts[1].name), ts[2..]) else Error
      case Open =>
        var inner := Parse(LOOSEST, ts[1..]);
        if inner.Match? && inner.rest != [] && inner.rest[0] == Close then Match(inner.tree, inner.rest[1..]) else Error
      case _ => NoMatch
  }

  /** An expression of operators that bind at least as tightly as `level`; level -1 is a factor. */
  function Parse(level: int, ts: seq<Token>): (r: Parsed<Exp>)
    requires -1 <= level <= LOOSEST
    ensures r.Match? ==> |r.rest| < |ts|
    decreases |ts|, level + 2
  {
    if level == -1 then ParseFactor(ts)
    else
      var first := Parse(level - 1, ts);
      if first.Match? then ParseTail(level, first.tree, first.rest) else first
  }

  /** The loop over the operators of one level. */
  function ParseTail(level: int, left: Exp, ts: seq<Token>): (r: Parsed<Exp>)
    requires -1 <= level <= LOOSEST
    ensures r.Match? ==> |r.rest| <= |ts|
    decreases |ts|, level + 2
  {
    if ts != [] && ts[0].Ath? && Level(ts[0].ath) == level then
      var right := Parse(level - 1, ts[1..]);
      if right.Match? then ParseTail(level, Bin(ts[0].ath, left, right.tree), right.rest) else Error
    else Match(left, ts)
  }

  function ParseRelation(ts: seq<Token>): (r: Parsed<Cond>)
    ensures r.Match? ==> |r.rest| < |ts|
  {
    var l := Parse(LOOSEST, ts);
    if !l.Match? then (if l.NoMatch? then NoMatch else Error)
    else if l.rest == [] || !l.rest[0].Rel? then Error
    else
      var r := Parse(LOOSEST, l.rest[1..]);
      if r.Match? then Match(Compare(l.rest[0].rel, l.tree, r.tree), r.rest) else Error
  }

  function ParseCondFactor(ts: seq<Token>): (r: Parsed<Cond>)
    ensures r.Match? ==> |r.rest| < |ts|
    decreases |ts|, 0
  {
    if ts != [] && ts[0] == Open then
      var inner := ParseCond(ts[1..]);
      if inner.Match? && inner.rest != [] && inner.rest[0] == Close then Match(inner.tree, inner.rest[1..]) else Error
    else if ts != [] && ts[0] == NotSign then
      var inner := ParseCondFactor(ts[1..]);
      if inner.Match? then Match(Not(inner.tree), inner.rest) else Error
    else ParseRelation(ts)
  }

  function ParseCond(ts: seq<Token>): (r: Parsed<Cond>)
    ensures r.Match? ==> |r.rest| < |ts|
    decreases |ts|, 1
  {
    var first := ParseCondFactor(ts);
    if first.Match? then ParseCondTail(first.tree, first.rest) else first
  }

  function ParseCondTail(left: Cond, ts: seq<Token>): (r: Parsed<Cond>)
    ensures r.Match? ==> |r.rest| <= |ts|
    decreases |ts|, 1
  {
    if ts != [] && ts[0].Bool? then
      var right := ParseCondFactor(ts[1..]);
      if right.Match? then ParseCondTail(Both(ts[0].bool_, left, right.tree), right.rest) else Error
    else Match(left, ts)
  }

  // ---------- printing ----------

  function Prec(t: Exp): int
  {
    if t.Bin? then Level(t.op) else -1
  }

  function PrintMembers(members: seq<string>): seq<Token>
  {
    if members == [] then [] else [Dot, Word(members[0])] + PrintMembers(members[1..])
  }

  /** The operand on the left may be of the same level, that on the right must bind tighter. */
  function PrintOpen(t: Exp): seq<Token>
    decreases t, 0
  {
    match t
    case Num(n) => [Numeral(n)]
    case Var(first, members) => [Dollar, Word(first)] + PrintMembers(members)
    case Column(name) => [Dot, Word(name)]
    case Index => [IndexVar]
    case Bin(op, l, r) => Print(Level(op), l) + [Ath(op)] + Print(Level(op) - 1, r)
  }

  /** Prints a tree where an expression of that level is wanted, in brackets only if needed. */
  function Print(level: int, t: Exp): seq<Token>
    decreases t, 1
  {
    if Prec(t) <= level then PrintOpen(t) else [Open] + PrintOpen(t) + [Close]
  }

  /** The tokens that follow do not belong to an expression of that level. */
  ghost predicate Stops(level: int, rest: seq<Token>)
  {
    rest != [] ==> rest[0] != Dot && rest[0] != Square && (rest[0].Ath? ==> Level(rest[0].ath) > level)
  }

  lemma Joined(a: seq<Token>, b: seq<Token>, c: seq<Token>)
    ensures a + b + c == a + (b + c)
  {
  }

  lemma Behind(first: Token, more: seq<Token>)
    ensures ([first] + more)[0] == first && ([first] + more)[1..] == more
  {
  }

  lemma BehindTwo(first: Token, second: Token, more: seq<Token>)
    ensures var ts := [first, second] + more;
      ts[0] == first && ts[1] == second && ts[2..] == more
  {
  }

  lemma {:induction false} MembersParse(members: seq<string>, rest: seq<Token>)
    requires rest != [] ==> rest[0] != Dot && rest[0] != Square
    ensures ParseMembers(PrintMembers(members) + rest) == Match(members, rest)
  {
    if members == [] {
      assert PrintMembers(members) + rest == rest;
    } else {
      MembersParse(members[1..], rest);
      var ts, more := PrintMembers(members) + rest, PrintMembers(members[1..]) + rest;
      Joined([Dot, Word(members[0])], PrintMembers(members[1..]), rest);
      BehindTwo(Dot, Word(members[0]), more);
      assert [members[0]] + members[1..] == members;
    }
  }

  lemma LeafParses(t: Exp, rest: seq<Token>)
    requires !t.Bin? && Stops(-1, rest)
    ensures Parse(-1, Print(-1, t) + rest) == Match(t, rest)
  {
    var ts := Print(-1, t) + rest;
    assert Print(-1, t) == PrintOpen(t);
    match t
    case Num(n) =>
      assert ts == [Numeral(n)] + rest;
      assert ts[1..] == rest;
    case Index =>
      assert ts == [IndexVar] + rest;
      assert ts[1..] == rest;
    case Column(name) =>
      assert ts == [Dot, Word(name)] + rest;
      assert ts[2..] == rest;
    case Var(first, members) =>
      assert ts == [Dollar, Word(first)] + (PrintMembers(members) + rest);
      assert ts[2..] == PrintMembers(members) + rest;
      MembersParse(members, rest);
  }

  lemma TailStops(level: int, t: Exp, rest: seq<Token>)
    requires -1 <= level <= LOOSEST && Stops(level, rest)
    ensures ParseTail(level, t, rest) == Match(t, rest)
  {
  }

  /** Where the operands come back, the operator between them does. */
  lemma BinParses(t: Exp, rest: seq<Token>, tail: seq<Token>)
    requires t.Bin? && Stops(Level(t.op) - 1, rest) && tail == [Ath(t.op)] + (Print(Level(t.op) - 1, t.right) + rest)
    requires Parse(Level(t.op), Print(Level(t.op), t.left) + tail) == ParseTail(Level(t.op), t.left, tail)
    requires Parse(Level(t.op) - 1, Print(Level(t.op) - 1, t.right) + rest) == ParseTail(Level(t.op) - 1, t.right, rest)
    ensures Parse(Level(t.op), Print(Level(t.op), t) + rest) == ParseTail(Level(t.op), t, rest)
  {
    var level := Level(t.op);
    var l, r := Print(level, t.left), Print(level - 1, t.right);
    assert Print(level, t) == l + [Ath(t.op)] + r;
    Joined(l + [Ath(t.op)], r, rest);
    Joined(l, [Ath(t.op)], r + rest);
    Behind(Ath(t.op), r + rest);
    TailStops(level - 1, t.right, rest);
    assert ParseTail(level, t.left, tail) == ParseTail(level, Bin(t.op, t.left, t.right), rest);
  }

  /** Parsing what was printed comes to where the loop of the level goes on after the tree. */
  lemma {:induction false} PrintedParses(level: int, t: Exp, rest: seq<Token>)
    requires -1 <= level <= LOOSEST && Stops(level - 1, rest)
    ensures Parse(level, Print(level, t) + rest) == ParseTail(level, t, rest)
    decreases t, Prec(t) > level, level + 2
  {
    hide ParseTail;
    if Prec(t) > level && level == -1 {
      BracketsParse(t, rest);
      TailStops(level, t, rest);
    } else if Prec(t) != level {
      PrintedParses(level - 1, t, rest);
      TailStops(level - 1, t, rest);
      assert Print(level, t) == Print(level - 1, t);
    } else if t.Bin? {
      var tail := [Ath(t.op)] + (Print(level - 1, t.right) + rest);
      PrintedParses(level, t.left, tail);
      PrintedParses(level - 1, t.right, rest);
      BinParses(t, rest, tail);
    } else {
      LeafParses(t, rest);
      TailStops(level, t, rest);
    }
  }

  lemma {:induction false} BracketsParse(t: Exp, rest: seq<Token>)
    requires t.Bin? && Stops(-2, rest)
    ensures Parse(-1, Print(-1, t) + rest) == Match(t, rest)
    decreases t, true, 0
  {
    var ts := Print(-1, t) + rest;
    assert ts[1..] == Print(LOOSEST, t) + ([Close] + rest);
    PrintedParses(LOOSEST, t, [Close] + rest);
    assert ([Close] + rest)[1..] == rest;
  }

  /** Printing and parsing a tree gives the tree back, and stops at the first token that
      does not go on with the expression. */
  lemma ExpRoundTrip(t: Exp, rest: seq<Token>)
    requires Stops(LOOSEST, rest)
    ensures Parse(LOOSEST, Print(LOOSEST, t) + rest) == Match(t, rest)
  {
    PrintedParses(LOOSEST, t, rest);
  }

  // ---------- which operator binds tighter ----------

  predicate BitOperator(op: AthOp)
  {
    op == BitAnd || op == BitOr || op == BitXor
  }

  predicate Product(op: AthOp)
  {
    op == Mul || op == Div
  }

  /** Bit operators bind tighter than products and sums, and products tighter than sums. */
  predicate Tighter(a: AthOp, b: AthOp)
  {
    (BitOperator(a) && !BitOperator(b)) || (Product(a) && (b == Add || b == Sub))
  }

  function Grouped(a: Exp, f: AthOp, b: Exp, g: AthOp, c: Exp): Exp
  {
    if Tighter(g, f) then Bin(f, a, Bin(g, b, c)) else Bin(g, Bin(f, a, b), c)
  }

  lemma {:induction false} RaisedTo(low: int, high: int, ts: seq<Token>, t: Exp, rest: seq<Token>)
    requires -1 <= low <= high <= LOOSEST && Parse(low, ts) == Match(t, rest) && Stops(high, rest)
    ensures Parse(high, ts) == Match(t, rest)
    decreases high
  {
    if low < high {
      RaisedTo(low, high - 1, ts, t, rest);
      TailStops(high, t, rest);
    }
  }

  /** An operator between two expressions that bind tighter. */
  lemma OneOperator(ts: seq<Token>, l: Exp, op: AthOp, more: seq<Token>, r: Exp, rest: seq<Token>)
    requires Parse(Level(op) - 1, ts) == Match(l, [Ath(op)] + more)
    requires Parse(Level(op) - 1, more) == Match(r, rest)
    ensures Parse(Level(op), ts) == ParseTail(Level(op), Bin(op, l, r), rest)
  {
    Behind(Ath(op), more);
  }

  lemma FactorBefore(t: Exp, level: int, rest: seq<Token>)
    requires -1 <= level <= LOOSEST && Stops(level, rest)
    ensures Parse(level, Print(-1, t) + rest) == Match(t, rest)
  {
    if t.Bin? {
      BracketsParse(t, rest);
    } else {
      LeafParses(t, rest);
    }
    RaisedTo(-1, level, Print(-1, t) + rest, t, rest);
  }

  /** Of two operators between factors the one that binds tighter takes the middle one, and if none
      does, the first: it is the first that the second is applied to. */
  lemma TwoOperators(a: Exp, f: AthOp, b: Exp, g: AthOp, c: Exp, rest: seq<Token>)
    requires rest != [] ==> rest[0] != Dot && rest[0] != Square && !rest[0].Ath?
    ensures var tail := [Ath(f)] + (Print(-1, b) + ([Ath(g)] + (Print(-1, c) + rest)));
      Parse(LOOSEST, Print(-1, a) + tail)
        == Match(if Tighter(g, f) then Bin(f, a, Bin(g, b, c)) else Bin(g, Bin(f, a, b), c), rest)
  {
    hide Print, Parse, ParseTail;
    var third := Print(-1, c) + rest;
    var second := Print(-1, b) + ([Ath(g)] + third);
    var first := Print(-1, a) + ([Ath(f)] + second);
    FactorBefore(c, Level(g) - 1, rest);
    FactorBefore(a, Level(f) - 1, [Ath(f)] + second);
    if Tighter(g, f) {
      FactorBefore(b, Level(g) - 1, [Ath(g)] + third);
      OneOperator(second, b, g, third, c, rest);
      TailStops(Level(g), Bin(g, b, c), rest);
      RaisedTo(Level(g), Level(f) - 1, second, Bin(g, b, c), rest);
      OneOperator(first, a, f, second, Bin(g, b, c), rest);
      TailStops(Level(f), Bin(f, a, Bin(g, b, c)), rest);
      RaisedTo(Level(f), LOOSEST, first, Bin(f, a, Bin(g, b, c)), rest);
    } else {
      FactorBefore(b, Level(f) - 1, [Ath(g)] + third);
      OneOperator(first, a, f, second, b, [Ath(g)] + third);
      if Level(f) == Level(g) {
        TailGoesOn(Bin(f, a, b), g, third, c, rest);
      } else {
        TailStops(Level(f), Bin(f, a, b), [Ath(g)] + third);
        RaisedTo(Level(f), Level(g) - 1, first, Bin(f, a, b), [Ath(g)] + third);
        OneOperator(first, Bin(f, a, b), g, third, c, rest);
        TailStops(Level(g), Bin(g, Bin(f, a, b), c), rest);
      }
      RaisedTo(Level(g), LOOSEST, first, Bin(g, Bin(f, a, b), c), rest);
    }
  }

  lemma TailGoesOn(l: Exp, op: AthOp, more: seq<Token>, r: Exp, rest: seq<Token>)
    requires Parse(Level(op) - 1, more) == Match(r, rest) && Stops(Level(op), rest)
    ensures ParseTail(Level(op), l, [Ath(op)] + more) == Match(Bin(op, l, r), rest)
  {
    Behind(Ath(op), more);
    TailStops(Level(op), Bin(op, l, r), rest);
  }

  // ---------- no shorter text ----------

  lemma PrintLength(level: int, t: Exp)
    ensures |Print(level, t)| == |PrintOpen(t)| + if Prec(t) <= level then 0 else 2
    ensures t.Bin? ==> |PrintOpen(t)| == |Print(Level(t.op), t.left)| + 1 + |Print(Level(t.op) - 1, t.right)|
  {
  }

  lemma {:induction false} MembersNoShorter(ts: seq<Token>)
    requires ParseMembers(ts).Match?
    ensures |PrintMembers(ParseMembers(ts).tree)| + |ParseMembers(ts).rest| == |ts|
    decreases |ts|
  {
    if ts != [] && ts[0] == Dot {
      MembersNoShorter(ts[2..]);
    }
  }

  lemma FactorNoShorter(ts: seq<Token>)
    requires ParseFactor(ts).Match?
    ensures |Print(-1, ParseFactor(ts).tree)| + |ParseFactor(ts).rest| <= |ts|
    decreases |ts|, 0
  {
    var t := ParseFactor(ts).tree;
    PrintLength(-1, t);
    match ts[0]
    case Dollar => MembersNoShorter(ts[2..]);
    case Open =>
      NoShorter(LOOSEST, ts[1..]);
      PrintLength(LOOSEST, t);
    case _ =>
  }

  /** No token list that parses to a tree is shorter than its print. With the same tokens in
      it but for the brackets (ParseYields), it has no fewer brackets. */
  lemma {:induction false} NoShorter(level: int, ts: seq<Token>)
    requires -1 <= level <= LOOSEST && Parse(level, ts).Match?
    ensures |Print(level, Parse(level, ts).tree)| + |Parse(level, ts).rest| <= |ts|
    decreases |ts|, level + 2
  {
    if level == -1 {
      FactorNoShorter(ts);
    } else {
      var first := Parse(level - 1, ts);
      NoShorter(level - 1, ts);
      PrintLength(level - 1, first.tree);
      PrintLength(level, first.tree);
      TailNoShorter(level, first.tree, first.rest);
    }
  }

  lemma {:induction false} TailNoShorter(level: int, left: Exp, ts: seq<Token>)
    requires -1 <= level <= LOOSEST && ParseTail(level, left, ts).Match?
    ensures |Print(level, ParseTail(level, left, ts).tree)|
      + |ParseTail(level, left, ts).rest| <= |Print(level, left)| + |ts|
    decreases |ts|, level + 2
  {
    if ts != [] && ts[0].Ath? && Level(ts[0].ath) == level {
      var right := Parse(level - 1, ts[1..]);
      var whole := Bin(ts[0].ath, left, right.tree);
      NoShorter(level - 1, ts[1..]);
      PrintLength(level, whole);
      TailNoShorter(level, whole, right.rest);
    }
  }

  // ---------- nothing is lost ----------

  function Bare(ts: seq<Token>): seq<Token>
  {
    if ts == [] then []
    else (if ts[0] == Open || ts[0] == Close then [] else [ts[0]]) + Bare(ts[1..])
  }

  /** The tokens of a tree, without any brackets. */
  function Yield(t: Exp): seq<Token>
  {
    match t
    case Num(n) => [Numeral(n)]
    case Var(first, members) => [Dollar, Word(first)] + PrintMembers(members)
    case Column(name) => [Dot, Word(name)]
    case Index => [IndexVar]
    case Bin(op, l, r) => Yield(l) + [Ath(op)] + Yield(r)
  }

  lemma {:induction false} MembersYield(ts: seq<Token>)
    requires ParseMembers(ts).Match?
    ensures Bare(ts) == PrintMembers(ParseMembers(ts).tree) + Bare(ParseMembers(ts).rest)
    decreases |ts|
  {
    if ts != [] && ts[0] == Dot {
      var more := ParseMembers(ts[2..]);
      MembersYield(ts[2..]);
      BareTwo(ts);
      assert ParseMembers(ts).tree[1..] == more.tree;
      Joined([Dot, ts[1]], PrintMembers(more.tree), Bare(more.rest));
    }
  }

  lemma FactorYields(ts: seq<Token>)
    requires ParseFactor(ts).Match?
    ensures Bare(ts) == Yield(ParseFactor(ts).tree) + Bare(ParseFactor(ts).rest)
    decreases |ts|, 0
  {
    match ts[0]
    case Numeral(_) =>
    case IndexVar =>
    case Dollar => VariableYields(ts);
    case Dot => BareTwo(ts);
    case Open =>
      ParseYields(LOOSEST, ts[1..]);
      var inner := Parse(LOOSEST, ts[1..]);
      assert Bare(inner.rest) == Bare(inner.rest[1..]);
  }

  lemma BareTwo(ts: seq<Token>)
    requires |ts| >= 2 && ts[0] != Open && ts[0] != Close && ts[1] != Open && ts[1] != Close
    ensures Bare(ts) == [ts[0], ts[1]] + Bare(ts[2..])
  {
    assert ts[1..][1..] == ts[2..];
  }

  lemma VariableYields(ts: seq<Token>)
    requires |ts| >= 2 && ts[0] == Dollar && ts[1].Word? && ParseMembers(ts[2..]).Match?
    ensures var more := ParseMembers(ts[2..]);
      Bare(ts) == [Dollar, ts[1]] + PrintMembers(more.tree) + Bare(more.rest)
  {
    BareTwo(ts);
    var tail := ts[2..];
    MembersYield(tail);
    assert [ts[0], ts[1]] + (PrintMembers(ParseMembers(tail).tree) + Bare(ParseMembers(tail).rest))
      == [ts[0], ts[1]] + PrintMembers(ParseMembers(tail).tree) + Bare(ParseMembers(tail).rest);
  }

  /** What the parser accepts is, brackets aside, exactly the tokens of the tree. */
  lemma {:induction false} ParseYields(level: int, ts: seq<Token>)
    requires -1 <= level <= LOOSEST && Parse(level, ts).Match?
    ensures Bare(ts) == Yield(Parse(level, ts).tree) + Bare(Parse(level, ts).rest)
    decreases |ts|, level + 2
  {
    if level == -1 {
      FactorYields(ts);
    } else {
      ParseYields(level - 1, ts);
      TailYields(level, Parse(level - 1, ts).tree, Parse(level - 1, ts).rest);
    }
  }

  lemma YieldsOn(left: Exp, ts: seq<Token>, right: Exp, rest: seq<Token>)
    requires ts != [] && ts[0].Ath? && Bare(ts[1..]) == Yield(right) + Bare(rest)
    ensures Yield(left) + Bare(ts) == Yield(Bin(ts[0].ath, left, right)) + Bare(rest)
  {
    var a, b, c, d := Yield(left), [ts[0]], Yield(right), Bare(rest);
    assert Bare(ts) == b + (c + d);
    Joined(a + b, c, d);
    Joined(a, b, c + d);
  }

  lemma {:induction false} TailYields(level: int, left: Exp, ts: seq<Token>)
    requires -1 <= level <= LOOSEST && ParseTail(level, left, ts).Match?
    ensures Yield(left) + Bare(ts) == Yield(ParseTail(level, left, ts).tree) + Bare(ParseTail(level, left, ts).rest)
    decreases |ts|, level + 2
  {
    if ts != [] && ts[0].Ath? && Level(ts[0].ath) == level {
      ParseYields(level - 1, ts[1..]);
      var right := Parse(level - 1, ts[1..]);
      var whole := Bin(ts[0].ath, left, right.tree);
      TailYields(level, whole, right.rest);
      YieldsOn(left, ts, right.tree, right.rest);
    }
  }

  // ---------- conditions ----------

  function PrintCond(c: Cond): seq<Token>
    decreases c, 0
  {
    match c
    case Compare(rel, l, r) => Print(LOOSEST, l) + [Rel(rel)] + Print(LOOSEST, r)
    case Both(op, l, r) => PrintCond(l) + [Bool(op)] + PrintCondFactor(r)
    case Not(cond) => [NotSign] + PrintCondFactor(cond)
  }

  function PrintCondFactor(c: Cond): seq<Token>
    decreases c, 1
  {
    if c.Both? then [Open] + PrintCond(c) + [Close] else PrintCond(c)
  }

  predicate StartsOpen(level: int, t: Exp)
  {
    Prec(t) > level || (t.Bin? && StartsOpen(Level(t.op), t.left))
  }

  /** No comparison begins with a bracket. */
  predicate Writable(c: Cond)
  {
    match c
    case Compare(_, l, _) => !StartsOpen(LOOSEST, l)
    case Both(_, l, r) => Writable(l) && Writable(r)
    case Not(cond) => Writable(cond)
  }

  lemma {:induction false} FirstToken(level: int, t: Exp)
    requires -1 <= level <= LOOSEST
    ensures Print(level, t) != [] && Print(level, t)[0] != NotSign && Print(level, t)[0] != Close
    ensures Print(level, t)[0] == Open <==> StartsOpen(level, t)
    decreases t
  {
    if t.Bin? && Prec(t) <= level {
      FirstToken(Level(t.op), t.left);
      assert Print(level, t) == PrintOpen(t);
      assert PrintOpen(t)[0] == Print(Level(t.op), t.left)[0];
    }
  }

  /** The bracketed tree that the print of `t` starts with. */
  lemma {:induction false} LeadingBracket(level: int, t: Exp) returns (u: Exp, more: seq<Token>)
    requires -1 <= level <= LOOSEST && StartsOpen(level, t)
    ensures u.Bin? && (u == t || u < t) && (Prec(t) <= level ==> u < t)
    ensures Print(level, t) == [Open] + PrintOpen(u) + [Close] + more
    decreases t
  {
    if Prec(t) > level {
      u, more := t, [];
    } else {
      var after;
      u, after := LeadingBracket(Level(t.op), t.left);
      var head, tail := [Open] + PrintOpen(u) + [Close], Print(Level(t.op) - 1, t.right);
      more := after + [Ath(t.op)] + tail;
      assert Print(level, t) == head + after + [Ath(t.op)] + tail;
      Joined(head, after, [Ath(t.op)]);
      Joined(head, after + [Ath(t.op)], tail);
    }
  }

  /** After an opening bracket a condition is wanted, but an expression and a closing bracket
      follow. */
  lemma {:induction false} BracketFails(u: Exp, more: seq<Token>)
    requires u.Bin?
    ensures ParseCond(PrintOpen(u) + [Close] + more) == Error
    decreases u
  {
    var ts := PrintOpen(u) + [Close] + more;
    assert ts == Print(LOOSEST, u) + ([Close] + more);
    FirstToken(LOOSEST, u);
    if StartsOpen(LOOSEST, u) {
      var v, after := LeadingBracket(LOOSEST, u);
      var inner := after + ([Close] + more);
      BracketFails(v, inner);
      Unfolded(Print(LOOSEST, u), v, after, [Close] + more);
      FactorFails(ts, PrintOpen(v) + [Close] + inner);
    } else {
      ExpRoundTrip(u, [Close] + more);
      Behind(Close, more);
      assert ParseRelation(ts) == Error;
      assert ParseCondFactor(ts) == Error;
    }
  }

  /** What follows the opening bracket of a print. */
  lemma Unfolded(printed: seq<Token>, v: Exp, after: seq<Token>, more: seq<Token>)
    requires printed == [Open] + PrintOpen(v) + [Close] + after
    ensures printed + more == [Open] + (PrintOpen(v) + [Close] + (after + more))
  {
  }

  lemma FactorFails(ts: seq<Token>, inner: seq<Token>)
    requires ts == [Open] + inner && ParseCond(inner) == Error
    ensures ParseCondFactor(ts) == Error && ParseCond(ts) == Error
  {
    Behind(Open, inner);
  }

  lemma ComparePrinted(c: Cond, rest: seq<Token>)
    requires c.Compare? && Stops(LOOSEST, rest)
    ensures ParseCondFactor(PrintCond(c) + rest) == if Writable(c) then Match(c, rest) else Error
  {
    hide Stops;
    var l, r := Print(LOOSEST, c.l), Print(LOOSEST, c.r);
    var ts, tail := PrintCond(c) + rest, [Rel(c.rel)] + (r + rest);
    assert ts == l + tail;
    FirstToken(LOOSEST, c.l);
    if Writable(c) {
      ExpRoundTrip(c.l, tail);
      Behind(Rel(c.rel), r + rest);
      ExpRoundTrip(c.r, rest);
      assert ParseRelation(ts) == Match(c, rest);
    } else {
      var u, more := LeadingBracket(LOOSEST, c.l);
      BracketFails(u, more + tail);
      Unfolded(l, u, more, tail);
      FactorFails(ts, PrintOpen(u) + [Close] + (more + tail));
    }
  }

  lemma NotPrinted(cond: Cond, rest: seq<Token>)
    ensures PrintCond(Not(cond)) + rest == [NotSign] + (PrintCondFactor(cond) + rest)
    ensures ([NotSign] + (PrintCondFactor(cond) + rest))[1..] == PrintCondFactor(cond) + rest
  {
  }

  lemma {:induction false} CondFactorPrinted(c: Cond, rest: seq<Token>)
    requires Stops(LOOSEST, rest)
    ensures ParseCondFactor(PrintCondFactor(c) + rest) == if Writable(c) then Match(c, rest) else Error
    decreases c, 1
  {
    var ts := PrintCondFactor(c) + rest;
    match c
    case Compare(_, _, _) => ComparePrinted(c, rest);
    case Not(cond) =>
      NotPrinted(cond, rest);
      CondFactorPrinted(cond, rest);
    case Both(_, _, _) =>
      var inner := PrintCond(c) + ([Close] + rest);
      assert ts == [Open] + inner;
      Behind(Open, inner);
      CondPrinted(c, [Close] + rest);
      Behind(Close, rest);
      assert Writable(c) ==> ParseCond(inner) == Match(c, [Close] + rest);
  }

  lemma {:induction false} CondPrinted(c: Cond, rest: seq<Token>)
    requires Stops(LOOSEST, rest)
    ensures ParseCond(PrintCond(c) + rest) == if Writable(c) then ParseCondTail(c, rest) else Error
    decreases c, 0
  {
    match c
    case Compare(_, _, _) => ComparePrinted(c, rest);
    case Not(cond) =>
      NotPrinted(cond, rest);
      CondFactorPrinted(cond, rest);
      assert ParseCondFactor(PrintCond(c) + rest) == if Writable(c) then Match(c, rest) else Error;
    case Both(op, l, r) =>
      var tail := [Bool(op)] + (PrintCondFactor(r) + rest);
      assert PrintCond(c) + rest == PrintCond(l) + tail;
      CondPrinted(l, tail);
      Behind(Bool(op), PrintCondFactor(r) + rest);
      CondFactorPrinted(r, rest);
      assert ParseCondTail(l, tail) == if Writable(r) then ParseCondTail(c, rest) else Error;
  }

  /** A printed condition comes back from the parser exactly when none of its comparisons
      begins with a bracket. Otherwise it is a syntax error: the bracket is taken for that of
      a condition. */
  lemma CondRoundTrip(c: Cond, rest: seq<Token>)
    requires Stops(LOOSEST, rest) && (rest != [] ==> !rest[0].Bool?)
    ensures ParseCond(PrintCond(c) + rest) == if Writable(c) then Match(c, rest) else Error
  {
    CondPrinted(c, rest);
  }

  lemma CondGoesOn(l: Cond, op: BoolOp, more: seq<Token>, r: Cond, rest: seq<Token>)
    requires ParseCondFactor(more) == Match(r, rest)
    ensures ParseCondTail(l, [Bool(op)] + more) == ParseCondTail(Both(op, l, r), rest)
  {
    Behind(Bool(op), more);
  }

  lemma CondStarts(ts: seq<Token>, c: Cond, rest: seq<Token>)
    requires ParseCondFactor(ts) == Match(c, rest)
    ensures ParseCond(ts) == ParseCondTail(c, rest)
  {
  }

  lemma NotFactor(ts: seq<Token>, c: Cond, rest: seq<Token>)
    requires ParseCondFactor(ts) == Match(c, rest)
    ensures ParseCondFactor([NotSign] + ts) == Match(Not(c), rest)
  {
    Behind(NotSign, ts);
  }

  /** `and` and `or` are of one level, and the first of two is taken first. */
  lemma CondsLeftToRight(a: Cond, f: BoolOp, b: Cond, g: BoolOp, c: Cond, rest: seq<Token>)
    requires Writable(a) && Writable(b) && Writable(c)
    requires rest != [] ==> rest[0] != Dot && rest[0] != Square && !rest[0].Ath? && !rest[0].Bool?
    ensures var tail := [Bool(f)] + (PrintCondFactor(b) + ([Bool(g)] + (PrintCondFactor(c) + rest)));
      ParseCond(PrintCondFactor(a) + tail) == Match(Both(g, Both(f, a, b), c), rest)
  {
    hide PrintCondFactor, ParseCond, ParseCondFactor, ParseCondTail, Writable;
    var third := PrintCondFactor(c) + rest;
    var second := PrintCondFactor(b) + ([Bool(g)] + third);
    CondFactorPrinted(c, rest);
    CondFactorPrinted(b, [Bool(g)] + third);
    CondFactorPrinted(a, [Bool(f)] + second);
    CondStarts(PrintCondFactor(a) + ([Bool(f)] + second), a, [Bool(f)] + second);
    CondGoesOn(a, f, second, b, [Bool(g)] + third);
    CondGoesOn(Both(f, a, b), g, third, c, rest);
    TailEnds(Both(g, Both(f, a, b), c), rest);
  }

  lemma TailEnds(c: Cond, rest: seq<Token>)
    requires rest == [] || !rest[0].Bool?
    ensures ParseCondTail(c, rest) == Match(c, rest)
  {
  }

  /** `not` binds tighter than both. */
  lemma NotBindsTighter(a: Cond, f: BoolOp, b: Cond, rest: seq<Token>)
    requires Writable(a) && Writable(b)
    requires rest != [] ==> rest[0] != Dot && rest[0] != Square && !rest[0].Ath? && !rest[0].Bool?
    ensures ParseCond([NotSign] + (PrintCondFactor(a) + ([Bool(f)] + (PrintCondFactor(b) + rest))))
      == Match(Both(f, Not(a), b), rest)
  {
    hide PrintCondFactor, ParseCond, ParseCondFactor, ParseCondTail, Writable;
    var last := PrintCondFactor(b) + rest;
    CondFactorPrinted(b, rest);
    CondFactorPrinted(a, [Bool(f)] + last);
    NotFactor(PrintCondFactor(a) + ([Bool(f)] + last), a, [Bool(f)] + last);
    CondStarts([NotSign] + (PrintCondFactor(a) + ([Bool(f)] + last)), Not(a), [Bool(f)] + last);
    CondGoesOn(Not(a), f, last, b, rest);
    TailEnds(Both(f, Not(a), b), rest);
  }
}
