/** The symbolic layers of transformers/blocks/reasoning.py. SymbolicAnd,
    SymbolicOr and SymbolicNot are element-wise boolean layers over real
    vectors (a value is true when it is positive, and results are 1.0 or
    0.0). SymbolicReasoner.evaluate rewrites a boolean expression over
    identifiers and the operators AND, OR and NOT into Python and
    evaluates it; here the expression is read by a tokenizer and a
    recursive-descent parser for exactly that grammar, with Python's
    precedence (NOT binds tighter than AND, AND tighter than OR), and
    identifiers missing from the facts are false. */
module Reasoning {
  import opened Common
  import opened Dicts

  // ------------------------------------------------------------ layers

  /** `.astype(np.float32)` of a boolean. */
  function B(x: bool): real {
    if x then 1.0 else 0.0
  }

  /** `np.logical_and(a > 0, b > 0)` */
  function SymbolicAnd(a: seq<real>, b: seq<real>): (r: seq<real>)
    requires |a| == |b|
    ensures |r| == |a|
  {
    seq(|a|, i requires 0 <= i < |a| => B(a[i] > 0.0 && b[i] > 0.0))
  }

  /** `np.logical_or(a > 0, b > 0)` */
  function SymbolicOr(a: seq<real>, b: seq<real>): (r: seq<real>)
    requires |a| == |b|
    ensures |r| == |a|
  {
    seq(|a|, i requires 0 <= i < |a| => B(a[i] > 0.0 || b[i] > 0.0))
  }

  /** `np.logical_not(a > 0)` */
  function SymbolicNot(a: seq<real>): (r: seq<real>)
    ensures |r| == |a|
  {
    seq(|a|, i requires 0 <= i < |a| => B(!(a[i] > 0.0)))
  }

  /** A vector of truth values as the layers' 1.0 / 0.0 encoding. */
  function Encode(xs: seq<bool>): (r: seq<real>)
    ensures |r| == |xs|
  {
    seq(|xs|, i requires 0 <= i < |xs| => B(xs[i]))
  }

  /** Every entry is 0.0 or 1.0. */
  predicate Binary(a: seq<real>) {
    forall i :: 0 <= i < |a| ==> a[i] == 0.0 || a[i] == 1.0
  }

  // ------------------------------------------------------------ expressions

  datatype Token = Ident(name: string) | AndOp | OrOp | NotOp | LParen | RParen

  /** The boolean expressions evaluate accepts. */
  datatype Expr = Var(name: string) | Not(e: Expr) | And(l: Expr, r: Expr) | Or(l: Expr, r: Expr)

  /** A character of the identifier pattern `[A-Za-z_]`. */
  predicate IsIdentChar(c: char) {
    'A' <= c <= 'Z' || 'a' <= c <= 'z' || c == '_'
  }

  /** An identifier run becomes an operator when it is AND, OR or NOT, and a
      variable otherwise. */
  function Word(name: string): Token {
    if name == "AND" then AndOp
    else if name == "OR" then OrOp
    else if name == "NOT" then NotOp
    else Ident(name)
  }

  /** The length of the identifier run at the start of s. */
  function IdentRun(s: string): (n: nat)
    ensures n <= |s|
    ensures forall k :: 0 <= k < n ==> IsIdentChar(s[k])
    ensures n < |s| ==> !IsIdentChar(s[n])
  {
    if s != [] && IsIdentChar(s[0]) then 1 + IdentRun(s[1..]) else 0
  }

  function Prepend(t: Token, r: Result<seq<Token>>): Result<seq<Token>> {
    if r.Ok? then Ok([t] + r.value) else r
  }

  /** The tokens of an expression: identifier runs, parentheses, blanks
      between them; any other character is a syntax error. */
  function Tokenize(s: string): Result<seq<Token>>
    decreases |s|
  {
    if s == [] then Ok([])
    else if s[0] == ' ' || s[0] == '\t' then Tokenize(s[1..])
    else if s[0] == '(' then Prepend(LParen, Tokenize(s[1..]))
    else if s[0] == ')' then Prepend(RParen, Tokenize(s[1..]))
    else if IsIdentChar(s[0]) then
      var n := IdentRun(s);
      Prepend(Word(s[..n]), Tokenize(s[n..]))
    else Err(SyntaxError)
  }

  /** or_expr := and_expr (OR and_expr)* */
  function ParseOr(ts: seq<Token>): (r: Result<(Expr, seq<Token>)>)
    ensures r.Ok? ==> |r.value.1| < |ts|
    decreases |ts|, 3
  {
    match ParseAnd(ts)
    case Err(e) => Err(e)
    case Ok((l, rest)) => OrTail(l, rest)
  }

  function OrTail(l: Expr, ts: seq<Token>): (r: Result<(Expr, seq<Token>)>)
    ensures r.Ok? ==> |r.value.1| <= |ts|
    decreases |ts|, 3
  {
    if ts != [] && ts[0] == OrOp then
      match ParseAnd(ts[1..])
      case Err(e) => Err(e)
      case Ok((rhs, rest)) => OrTail(Or(l, rhs), rest)
    else Ok((l, ts))
  }

  /** and_expr := not_expr (AND not_expr)* */
  function ParseAnd(ts: seq<Token>): (r: Result<(Expr, seq<Token>)>)
    ensures r.Ok? ==> |r.value.1| < |ts|
    decreases |ts|, 2
  {
    match ParseNot(ts)
    case Err(e) => Err(e)
    case Ok((l, rest)) => AndTail(l, rest)
  }

  function AndTail(l: Expr, ts: seq<Token>): (r: Result<(Expr, seq<Token>)>)
    ensures r.Ok? ==> |r.value.1| <= |ts|
    decreases |ts|, 2
  {
    if ts != [] && ts[0] == AndOp then
      match ParseNot(ts[1..])
      case Err(e) => Err(e)
      case Ok((rhs, rest)) => AndTail(And(l, rhs), rest)
    else Ok((l, ts))
  }

  /** not_expr := NOT not_expr | atom */
  function ParseNot(ts: seq<Token>): (r: Result<(Expr, seq<Token>)>)
    ensures r.Ok? ==> |r.value.1| < |ts|
    decreases |ts|, 1
  {
    if ts != [] && ts[0] == NotOp then
      match ParseNot(ts[1..])
      case Err(e) => Err(e)
      case Ok((e, rest)) => Ok((Not(e), rest))
    else ParseAtom(ts)
  }

  /** atom := identifier | ( or_expr ) */
  function ParseAtom(ts: seq<Token>): (r: Result<(Expr, seq<Token>)>)
    ensures r.Ok? ==> |r.value.1| < |ts|
    decreases |ts|, 0
  {
    if ts == [] then Err(SyntaxError)
    else match ts[0]
      case Ident(x) => Ok((Var(x), ts[1..]))
      case LParen =>
        (match ParseOr(ts[1..])
         case Err(e) => Err(e)
         case Ok((e, rest)) => if rest != [] && rest[0] == RParen then Ok((e, rest[1..])) else Err(SyntaxError))
      case _ => Err(SyntaxError)
  }

  /** The truth value of e; `facts.get(var, False)` for a variable. */
  function Eval(e: Expr, facts: map<string, bool>): bool {
    match e
    case Var(x) => MapGet(facts, x, false)
    case Not(a) => !Eval(a, facts)
    case And(a, b) => Eval(a, facts) && Eval(b, facts)
    case Or(a, b) => Eval(a, facts) || Eval(b, facts)
  }

  /** evaluate: the value of the whole expression, or a syntax error when it
      does not lex or parse completely. */
  function Evaluate(expr: string, facts: map<string, bool>): Result<bool> {
    match Tokenize(expr)
    case Err(e) => Err(e)
    case Ok(ts) =>
      match ParseOr(ts)
      case Err(e) => Err(e)
      case Ok((e, rest)) => if rest == [] then Ok(Eval(e, facts)) else Err(SyntaxError)
  }

  // ------------------------------------------------------------ printing

  /** Tokens for e, every operand parenthesized. */
  function Render(e: Expr): seq<Token>
    decreases e, 0
  {
    match e
    case Var(x) => [Ident(x)]
    case Not(a) => [NotOp] + Group(a)
    case And(a, b) => Group(a) + [AndOp] + Group(b)
    case Or(a, b) => Group(a) + [OrOp] + Group(b)
  }

  function Group(e: Expr): seq<Token>
    decreases e, 1
  {
    [LParen] + Render(e) + [RParen]
  }

  /** The text of one token. */
  function Spell1(t: Token): string {
    match t
    case Ident(x) => x
    case AndOp => "AND"
    case OrOp => "OR"
    case NotOp => "NOT"
    case LParen => "("
    case RParen => ")"
  }

  /** The text of a token sequence, the tokens separated by blanks. */
  function Spell(ts: seq<Token>): string {
    if ts == [] then []
    else if |ts| == 1 then Spell1(ts[0])
    else Spell1(ts[0]) + " " + Spell(ts[1..])
  }

  /** A variable name the tokenizer reads back as that variable. */
  predicate GoodName(x: string) {
    x != [] && (forall k :: 0 <= k < |x| ==> IsIdentChar(x[k])) && x != "AND" && x != "OR" && x != "NOT"
  }

  predicate GoodToken(t: Token) {
    t.Ident? ==> GoodName(t.name)
  }

  /** Every variable of e has a good name. */
  predicate GoodNames(e: Expr) {
    match e
    case Var(x) => GoodName(x)
    case Not(a) => GoodNames(a)
    case And(a, b) => GoodNames(a) && GoodNames(b)
    case Or(a, b) => GoodNames(a) && GoodNames(b)
  }

  /** Where parsing of a rendered operand must stop. */
  predicate Stop(rest: seq<Token>) {
    rest == [] || rest[0] == RParen
  }

  // ------------------------------------------------------------ layer properties

  /** The layers on the 1.0 / 0.0 encoding compute the boolean operations,
      and their outputs are always binary. */
  lemma LayersAgree(xs: seq<bool>, ys: seq<bool>)
    requires |xs| == |ys|
    ensures SymbolicAnd(Encode(xs), Encode(ys)) == Encode(seq(|xs|, i requires 0 <= i < |xs| => xs[i] && ys[i]))
    ensures SymbolicOr(Encode(xs), Encode(ys)) == Encode(seq(|xs|, i requires 0 <= i < |xs| => xs[i] || ys[i]))
    ensures SymbolicNot(Encode(xs)) == Encode(seq(|xs|, i requires 0 <= i < |xs| => !xs[i]))
  {
    var a, b := Encode(xs), Encode(ys);
    assert forall i :: 0 <= i < |xs| ==> (a[i] > 0.0 <==> xs[i]) && (b[i] > 0.0 <==> ys[i]);
  }

  /** Every layer output is binary, and on binary input NOT is an
      involution. */
  lemma LayersBinary(a: seq<real>, b: seq<real>)
    requires |a| == |b|
    ensures Binary(SymbolicAnd(a, b)) && Binary(SymbolicOr(a, b)) && Binary(SymbolicNot(a))
    ensures Binary(a) ==> SymbolicNot(SymbolicNot(a)) == a
  {
    if Binary(a) {
      var nn := SymbolicNot(SymbolicNot(a));
      forall i | 0 <= i < |a|
        ensures nn[i] == a[i]
      {
        assert a[i] == 0.0 || a[i] == 1.0;
      }
    }
  }

  /** De Morgan's laws hold for the layers on any input. */
  lemma DeMorgan(a: seq<real>, b: seq<real>)
    requires |a| == |b|
    ensures SymbolicNot(SymbolicAnd(a, b)) == SymbolicOr(SymbolicNot(a), SymbolicNot(b))
    ensures SymbolicNot(SymbolicOr(a, b)) == SymbolicAnd(SymbolicNot(a), SymbolicNot(b))
  {
    var na, nb := SymbolicNot(a), SymbolicNot(b);
    assert forall i :: 0 <= i < |a| ==> (na[i] > 0.0 <==> !(a[i] > 0.0)) && (nb[i] > 0.0 <==> !(b[i] > 0.0));
  }

  /** The layer test: a = [1, 0], b = [0, 1]. */
  lemma LayerExample()
    ensures SymbolicAnd([1.0, 0.0], [0.0, 1.0]) == [0.0, 0.0]
    ensures SymbolicOr([1.0, 0.0], [0.0, 1.0]) == [1.0, 1.0]
    ensures SymbolicNot([1.0, 0.0]) == [0.0, 1.0]
  {
  }

  /** e computed by the layers, over a batch of fact dictionaries at once. */
  function Layered(e: Expr, batch: seq<map<string, bool>>): (r: seq<real>)
    ensures |r| == |batch|
  {
    match e
    case Var(x) => Encode(seq(|batch|, i requires 0 <= i < |batch| => MapGet(batch[i], x, false)))
    case Not(a) => SymbolicNot(Layered(a, batch))
    case And(a, b) => SymbolicAnd(Layered(a, batch), Layered(b, batch))
    case Or(a, b) => SymbolicOr(Layered(a, batch), Layered(b, batch))
  }

  /** Composing the layers along an expression gives, entry by entry, the
      encoded truth value of the expression. */
  lemma {:induction false} LayeredEval(e: Expr, batch: seq<map<string, bool>>)
    ensures Layered(e, batch) == Encode(seq(|batch|, i requires 0 <= i < |batch| => Eval(e, batch[i])))
  {
    var n := |batch|;
    match e
    case Var(x) =>
    case Not(a) =>
      LayeredEval(a, batch);
      LayersAgree(seq(n, i requires 0 <= i < n => Eval(a, batch[i])), seq(n, i requires 0 <= i < n => Eval(a, batch[i])));
    case And(a, b) =>
      LayeredEval(a, batch);
      LayeredEval(b, batch);
      LayersAgree(seq(n, i requires 0 <= i < n => Eval(a, batch[i])), seq(n, i requires 0 <= i < n => Eval(b, batch[i])));
    case Or(a, b) =>
      LayeredEval(a, batch);
      LayeredEval(b, batch);
      LayersAgree(seq(n, i requires 0 <= i < n => Eval(a, batch[i])), seq(n, i requires 0 <= i < n => Eval(b, batch[i])));
  }

  // ------------------------------------------------------------ evaluation properties

  /** A variable missing from the facts behaves exactly as one that is
      false. */
  lemma {:induction false} MissingIsFalse(e: Expr, facts: map<string, bool>, x: string)
    requires x !in facts
    ensures Eval(e, facts) == Eval(e, facts[x := false])
  {
    match e
    case Var(y) =>
    case Not(a) => MissingIsFalse(a, facts, x);
    case And(a, b) => MissingIsFalse(a, facts, x); MissingIsFalse(b, facts, x);
    case Or(a, b) => MissingIsFalse(a, facts, x); MissingIsFalse(b, facts, x);
  }

  /** A parenthesized operand parses back to itself. */
  lemma {:induction false} GroupParse(e: Expr, rest: seq<Token>)
    ensures ParseNot(Group(e) + rest) == Ok((e, rest))
    decreases e, 1
  {
    var ts := Group(e) + rest;
    RenderParse(e, [RParen] + rest);
    assert ts[1..] == Render(e) + ([RParen] + rest);
  }

  /** Parsing the rendering of e, followed by the end of the input or a
      closing parenthesis, gives back e and leaves that rest. */
  lemma {:induction false} RenderParse(e: Expr, rest: seq<Token>)
    requires Stop(rest)
    ensures ParseOr(Render(e) + rest) == Ok((e, rest))
    decreases e, 0
  {
    match e
    case Var(x) =>
      ParseVar(x, rest);
    case Not(a) =>
      GroupParse(a, rest);
      ParseNegation(a, rest);
    case And(a, b) =>
      GroupParse(a, [AndOp] + (Group(b) + rest));
      GroupParse(b, rest);
      ParseConjunction(a, b, rest);
    case Or(a, b) =>
      GroupParse(a, [OrOp] + (Group(b) + rest));
      GroupParse(b, rest);
      ParseDisjunction(a, b, rest);
  }

  lemma ParseVar(x: string, rest: seq<Token>)
    requires Stop(rest)
    ensures ParseOr(Render(Var(x)) + rest) == Ok((Var(x), rest))
  {
    var ts := [Ident(x)] + rest;
    assert ts[1..] == rest;
    assert ParseNot(ts) == Ok((Var(x), rest));
    AndTailStop(Var(x), rest);
  }

  lemma ParseNegation(a: Expr, rest: seq<Token>)
    requires Stop(rest) && ParseNot(Group(a) + rest) == Ok((a, rest))
    ensures ParseOr(Render(Not(a)) + rest) == Ok((Not(a), rest))
  {
    var ts := [NotOp] + (Group(a) + rest);
    assert Render(Not(a)) + rest == ts;
    assert ts[1..] == Group(a) + rest;
    assert ParseNot(ts) == Ok((Not(a), rest));
    AndTailStop(Not(a), rest);
  }

  lemma ParseConjunction(a: Expr, b: Expr, rest: seq<Token>)
    requires Stop(rest)
    requires ParseNot(Group(a) + ([AndOp] + (Group(b) + rest))) == Ok((a, [AndOp] + (Group(b) + rest)))
    requires ParseNot(Group(b) + rest) == Ok((b, rest))
    ensures ParseOr(Render(And(a, b)) + rest) == Ok((And(a, b), rest))
  {
    var r1 := [AndOp] + (Group(b) + rest);
    assert Render(And(a, b)) + rest == Group(a) + r1;
    assert r1[1..] == Group(b) + rest;
    AndTailStop(And(a, b), rest);
    assert AndTail(a, r1) == Ok((And(a, b), rest));
  }

  lemma ParseDisjunction(a: Expr, b: Expr, rest: seq<Token>)
    requires Stop(rest)
    requires ParseNot(Group(a) + ([OrOp] + (Group(b) + rest))) == Ok((a, [OrOp] + (Group(b) + rest)))
    requires ParseNot(Group(b) + rest) == Ok((b, rest))
    ensures ParseOr(Render(Or(a, b)) + rest) == Ok((Or(a, b), rest))
  {
    var r1 := [OrOp] + (Group(b) + rest);
    assert Render(Or(a, b)) + rest == Group(a) + r1;
    assert r1[1..] == Group(b) + rest;
    AndTailStop(b, rest);
    AndTailStop(Or(a, b), rest);
    assert ParseAnd(Group(b) + rest) == Ok((b, rest));
    assert OrTail(a, r1) == Ok((Or(a, b), rest));
    assert ParseAnd(Group(a) + r1) == Ok((a, r1));
  }

  /** The tails stop in front of the end or a closing parenthesis. */
  lemma AndTailStop(e: Expr, rest: seq<Token>)
    requires Stop(rest)
    ensures AndTail(e, rest) == Ok((e, rest)) && OrTail(e, rest) == Ok((e, rest))
  {
  }

  /** Every token is well formed. */
  predicate AllGood(ts: seq<Token>) {
    forall k :: 0 <= k < |ts| ==> GoodToken(ts[k])
  }

  /** Every token of the rendering of a well-named expression is well
      formed. */
  lemma {:induction false} RenderGood(e: Expr)
    requires GoodNames(e)
    ensures AllGood(Render(e))
    decreases e, 0
  {
    match e
    case Var(x) =>
    case Not(a) =>
      GroupGood(a);
      AppendGood([NotOp], Group(a));
    case And(a, b) =>
      GroupGood(a);
      GroupGood(b);
      AppendGood(Group(a), [AndOp]);
      AppendGood(Group(a) + [AndOp], Group(b));
    case Or(a, b) =>
      GroupGood(a);
      GroupGood(b);
      AppendGood(Group(a), [OrOp]);
      AppendGood(Group(a) + [OrOp], Group(b));
  }

  lemma {:induction false} GroupGood(e: Expr)
    requires GoodNames(e)
    ensures AllGood(Group(e))
    decreases e, 1
  {
    RenderGood(e);
    AppendGood([LParen], Render(e));
    AppendGood([LParen] + Render(e), [RParen]);
  }

  lemma AppendGood(xs: seq<Token>, ys: seq<Token>)
    requires AllGood(xs) && AllGood(ys)
    ensures AllGood(xs + ys)
  {
    assert forall k :: |xs| <= k < |xs + ys| ==> (xs + ys)[k] == ys[k - |xs|];
  }

  /** An identifier run ends where the identifier characters end. */
  lemma {:induction false} IdentRunPrefix(w: string, rest: string)
    requires forall k :: 0 <= k < |w| ==> IsIdentChar(w[k])
    requires rest == [] || !IsIdentChar(rest[0])
    ensures IdentRun(w + rest) == |w|
  {
    if w != [] {
      assert (w + rest)[1..] == w[1..] + rest;
      IdentRunPrefix(w[1..], rest);
    }
  }

  /** A well-formed token followed by the end of the text or by a
      character that cannot continue an identifier lexes back to itself. */
  lemma TokenizeOne(t: Token, more: string)
    requires GoodToken(t)
    requires more == [] || !IsIdentChar(more[0])
    ensures Tokenize(Spell1(t) + more) == Prepend(t, Tokenize(more))
  {
    var w := Spell1(t);
    var s := w + more;
    if t.LParen? || t.RParen? {
      assert s[1..] == more;
    } else {
      assert forall k :: 0 <= k < |w| ==> IsIdentChar(w[k]);
      assert w != [];
      IdentRunPrefix(w, more);
      assert s[..|w|] == w && s[|w|..] == more;
      assert Word(w) == t;
    }
  }

  /** Blanks are skipped. */
  lemma TokenizeBlank(more: string)
    ensures Tokenize(" " + more) == Tokenize(more)
  {
    assert (" " + more)[1..] == more;
  }

  /** A token, a blank and more lex as the token followed by more. */
  lemma TokenizeThen(t: Token, more: string)
    requires GoodToken(t)
    ensures Tokenize(Spell1(t) + " " + more) == Prepend(t, Tokenize(more))
  {
    TokenizeOne(t, " " + more);
    TokenizeBlank(more);
    assert Spell1(t) + " " + more == Spell1(t) + (" " + more);
  }

  /** A lone well-formed token lexes as itself. */
  lemma TokenizeLast(t: Token)
    requires GoodToken(t)
    ensures Tokenize(Spell1(t)) == Ok([t])
  {
    TokenizeOne(t, "");
    assert Spell1(t) + "" == Spell1(t);
    assert Tokenize("") == Ok([]);
    assert [t] + [] == [t];
  }

  /** The tokenizer reads the spelling of well-formed tokens back. */
  lemma {:induction false} TokenizeSpell(ts: seq<Token>)
    requires AllGood(ts)
    ensures Tokenize(Spell(ts)) == Ok(ts)
  {
    if |ts| == 1 {
      TokenizeLast(ts[0]);
      assert ts == [ts[0]];
    } else if ts != [] {
      TokenizeSpell(ts[1..]);
      TokenizeThen(ts[0], Spell(ts[1..]));
      assert ts == [ts[0]] + ts[1..];
    }
  }

  /** Evaluating the spelled-out rendering of any well-named expression
      gives its truth value. */
  lemma EvaluateRender(e: Expr, facts: map<string, bool>)
    requires GoodNames(e)
    ensures Evaluate(Spell(Render(e)), facts) == Ok(Eval(e, facts))
  {
    RenderGood(e);
    TokenizeSpell(Render(e));
    RenderParse(e, []);
    assert Render(e) + [] == Render(e);
  }

  /** AND binds tighter than OR. */
  lemma AndBindsTighter(a: string, b: string, c: string)
    ensures ParseOr([Ident(a), OrOp, Ident(b), AndOp, Ident(c)]) == Ok((Or(Var(a), And(Var(b), Var(c))), []))
  {
    var ts := [Ident(a), OrOp, Ident(b), AndOp, Ident(c)];
    assert ParseNot(ts[4..]) == Ok((Var(c), []));
    assert AndTail(And(Var(b), Var(c)), []) == Ok((And(Var(b), Var(c)), []));
    assert AndTail(Var(b), ts[3..]) == Ok((And(Var(b), Var(c)), []));
    assert ParseNot(ts[2..]) == Ok((Var(b), ts[3..]));
    assert ParseAnd(ts[2..]) == Ok((And(Var(b), Var(c)), []));
    assert OrTail(Or(Var(a), And(Var(b), Var(c))), []) == Ok((Or(Var(a), And(Var(b), Var(c))), []));
    assert OrTail(Var(a), ts[1..]) == Ok((Or(Var(a), And(Var(b), Var(c))), []));
    assert ParseNot(ts) == Ok((Var(a), ts[1..]));
    assert AndTail(Var(a), ts[1..]) == Ok((Var(a), ts[1..]));
  }

  /** NOT binds tighter than AND. */
  lemma NotBindsTighter(a: string, b: string)
    ensures ParseOr([NotOp, Ident(a), AndOp, Ident(b)]) == Ok((And(Not(Var(a)), Var(b)), []))
  {
    var ts := [NotOp, Ident(a), AndOp, Ident(b)];
    var conj := And(Not(Var(a)), Var(b));
    assert ParseNot(ts[1..]) == Ok((Var(a), ts[2..]));
    assert ParseNot(ts) == Ok((Not(Var(a)), ts[2..]));
    assert ParseNot(ts[3..]) == Ok((Var(b), []));
    AndTailStop(conj, []);
    assert AndTail(Not(Var(a)), ts[2..]) == Ok((conj, []));
    assert ParseAnd(ts) == Ok((conj, []));
  }

  /** The facts of the reasoner test: A is true and B is false. */
  const TestFacts: map<string, bool> := map["A" := true, "B" := false]
  const NameA: string := "A"
  const NameB: string := "B"
  const AndNotText: string := "A AND NOT B"
  const OrText: string := "A OR B"
  const NotText: string := "NOT A"

  /** How "a AND NOT b" parses. */
  lemma AndNotParse(a: string, b: string)
    ensures ParseOr([Ident(a), AndOp, NotOp, Ident(b)]) == Ok((And(Var(a), Not(Var(b))), []))
  {
    var ts := [Ident(a), AndOp, NotOp, Ident(b)];
    var e := And(Var(a), Not(Var(b)));
    assert ParseNot(ts[3..]) == Ok((Var(b), []));
    assert ParseNot(ts[2..]) == Ok((Not(Var(b)), []));
    AndTailStop(e, []);
    assert AndTail(Var(a), ts[1..]) == Ok((e, []));
    assert ParseNot(ts) == Ok((Var(a), ts[1..]));
  }

  /** How "a OR b" parses. */
  lemma OrParse(a: string, b: string)
    ensures ParseOr([Ident(a), OrOp, Ident(b)]) == Ok((Or(Var(a), Var(b)), []))
  {
    var ts := [Ident(a), OrOp, Ident(b)];
    var e := Or(Var(a), Var(b));
    assert ParseNot(ts[2..]) == Ok((Var(b), []));
    AndTailStop(Var(b), []);
    assert ParseAnd(ts[2..]) == Ok((Var(b), []));
    AndTailStop(e, []);
    assert OrTail(Var(a), ts[1..]) == Ok((e, []));
    assert ParseNot(ts) == Ok((Var(a), ts[1..]));
    assert AndTail(Var(a), ts[1..]) == Ok((Var(a), ts[1..]));
    assert ParseAnd(ts) == Ok((Var(a), ts[1..]));
  }

  /** How "NOT a" parses. */
  lemma NotParse(a: string)
    ensures ParseOr([NotOp, Ident(a)]) == Ok((Not(Var(a)), []))
  {
    var ts := [NotOp, Ident(a)];
    assert ParseNot(ts[1..]) == Ok((Var(a), []));
    assert ParseNot(ts) == Ok((Not(Var(a)), []));
    AndTailStop(Not(Var(a)), []);
    assert ParseAnd(ts) == Ok((Not(Var(a)), []));
  }

  /** "A AND NOT B" is true under the test facts. */
  lemma AndNotExample()
    ensures Evaluate(AndNotText, TestFacts) == Ok(true)
  {
    var ts := [Ident(NameA), AndOp, NotOp, Ident(NameB)];
    assert Spell(ts[3..]) == NameB;
    assert Spell(ts[2..]) == "NOT" + " " + NameB;
    assert Spell(ts[1..]) == "AND" + " " + Spell(ts[2..]);
    assert AndNotText == Spell(ts);
    TokenizeSpell(ts);
    AndNotParse(NameA, NameB);
  }

  /** "A OR B" is true under the test facts. */
  lemma OrExample()
    ensures Evaluate(OrText, TestFacts) == Ok(true)
  {
    var ts := [Ident(NameA), OrOp, Ident(NameB)];
    assert Spell(ts[2..]) == NameB;
    assert Spell(ts[1..]) == "OR" + " " + NameB;
    assert OrText == Spell(ts);
    TokenizeSpell(ts);
    OrParse(NameA, NameB);
  }

  /** "NOT A" is false under the test facts. */
  lemma NotExample()
    ensures Evaluate(NotText, TestFacts) == Ok(false)
  {
    var ts := [NotOp, Ident(NameA)];
    assert Spell(ts[1..]) == NameA;
    assert NotText == Spell(ts);
    TokenizeSpell(ts);
    NotParse(NameA);
  }
}
