/**
 Expression pushdown of libpgduckdb/scan/postgres_scan.cpp.

 `ExpressionToString` turns a DuckDB expression over one column into SQL text; PostgreSQL parses that
 text with its own operator precedence.  The text is modelled as a sequence of tokens, PostgreSQL as
 a precedence parser over tokens followed by a three-valued evaluator.
 */
module Expressions {
  import opened Basics
  import opened LikePattern

  datatype Value = VNull | VBool(b: bool) | VText(s: string) | VInt(n: int)

  datatype CompareOp = Equal | NotEqual | Less | Greater | LessEqual | GreaterEqual | DistinctFrom | NotDistinctFrom

  /** DuckDB expressions.  `Unsupported` stands for every node the translation refuses. */
  datatype Expr =
    | Not(arg: Expr)
    | IsNull(arg: Expr, negated: bool)
    | Compare(op: CompareOp, left: Expr, right: Expr)
    | Between(input: Expr, lower: Expr, upper: Expr, lowerInclusive: bool, upperInclusive: bool)
    | Junction(or: bool, children: Exprs)
    | StringTest(f: LikeFunction, haystack: Expr, needle: Expr)
    | CaseFold(toUpper: bool, arg: Expr)
    | Column
    | Const(v: Value)
    | Unsupported

  datatype Exprs = Nil | Cons(head: Expr, tail: Exprs)

  predicate IsDistinct(op: CompareOp) {
    op == DistinctFrom || op == NotDistinctFrom
  }

  // ---------- three-valued values ----------

  function Not3(v: Value): Value {
    if v.VBool? then VBool(!v.b) else VNull
  }

  function And3(a: Value, b: Value): Value {
    if a == VBool(false) || b == VBool(false) then VBool(false)
    else if a == VBool(true) && b == VBool(true) then VBool(true)
    else VNull
  }

  function Or3(a: Value, b: Value): Value {
    Not3(And3(Not3(a), Not3(b)))
  }

  function Join3(or: bool, a: Value, b: Value): Value {
    if or then Or3(a, b) else And3(a, b)
  }

  /**
   How an engine treats text: lower (false) and upper (true) case folding, and the order that its
   collation gives to strings.
   */
  datatype Engine = Engine(fold: (bool, string) -> string, less: (string, string) -> bool)

  /** Byte order, in which DuckDB compares text unless a collation is set. */
  predicate TextLess(s: string, t: string) {
    t != [] && (s == [] || s[0] < t[0] || (s[0] == t[0] && TextLess(s[1..], t[1..])))
  }

  /** The order on non-null values of one type. */
  predicate ValueLess(a: Value, b: Value, engine: Engine) {
    match (a, b)
    case (VBool(x), VBool(y)) => !x && y
    case (VText(x), VText(y)) => engine.less(x, y)
    case (VInt(x), VInt(y)) => x < y
    case _ => false
  }

  function Compare3(op: CompareOp, a: Value, b: Value, engine: Engine): Value {
    match op
    case DistinctFrom => VBool(a != b)
    case NotDistinctFrom => VBool(a == b)
    case _ =>
      if a == VNull || b == VNull then VNull
      else match op
        case Equal => VBool(a == b)
        case NotEqual => VBool(a != b)
        case Less => VBool(ValueLess(a, b, engine))
        case Greater => VBool(ValueLess(b, a, engine))
        case LessEqual => VBool(a == b || ValueLess(a, b, engine))
        case _ => VBool(a == b || ValueLess(b, a, engine))
  }

  // ---------- what DuckDB computes ----------

  /** One bound of BETWEEN: the value is beyond it, above a lower and below an upper one, or may be on it. */
  function Within3(x: Value, bound: Value, inclusive: bool, lower: bool, engine: Engine): Value {
    if x == VNull || bound == VNull then VNull
    else VBool((inclusive && x == bound) || if lower then ValueLess(bound, x, engine) else ValueLess(x, bound, engine))
  }

  /** The value of an expression when the column holds `column`, in one engine. */
  ghost function Eval(e: Expr, column: Value, engine: Engine): Value
    decreases e
  {
    match e
    case Not(a) => Not3(Eval(a, column, engine))
    case IsNull(a, negated) => VBool((Eval(a, column, engine) == VNull) != negated)
    case Compare(op, l, r) => Compare3(op, Eval(l, column, engine), Eval(r, column, engine), engine)
    case Between(i, l, u, li, ui) =>
      var x := Eval(i, column, engine);
      And3(Within3(x, Eval(l, column, engine), li, true, engine),
           Within3(x, Eval(u, column, engine), ui, false, engine))
    case Junction(or, es) => EvalAll(or, es, column, engine)
    case StringTest(f, h, n) => TestValue(f, Eval(h, column, engine), Eval(n, column, engine))
    case CaseFold(upper, a) => FoldValue(upper, Eval(a, column, engine), engine)
    case Column => column
    case Const(v) => v
    case Unsupported => VNull
  }

  /** AND is true when all children are, OR when one is; unknown children are carried along. */
  ghost function EvalAll(or: bool, es: Exprs, column: Value, engine: Engine): Value
    decreases es
  {
    match es
    case Nil => VBool(!or)
    case Cons(e, Nil) => Eval(e, column, engine)
    case Cons(e, rest) => Join3(or, Eval(e, column, engine), EvalAll(or, rest, column, engine))
  }

  ghost function TestValue(f: LikeFunction, h: Value, n: Value): Value {
    if h.VText? && n.VText? then VBool(Holds(f, h.s, n.s)) else VNull
  }

  function FoldValue(upper: bool, v: Value, engine: Engine): Value {
    if v.VText? then VText(engine.fold(upper, v.s)) else VNull
  }
}

module ExpressionText {
  import opened Basics
  import opened LikePattern
  import opened Expressions

  // ---------- the text that is emitted ----------

  datatype Token =
    | LParen | RParen | NotWord | IsNullWords(negated: bool) | Operator(op: CompareOp)
    | AndWord | OrWord | LikeWord | FunctionName(upper: bool)
    | Name(column: string) | Literal(text: string) | NullWord

  /** The declared type of a haystack is text. */
  predicate IsText(e: Expr) {
    match e
    case Column => true
    case CaseFold(_, _) => true
    case Const(v) => v.VText? || v.VNull?
    case _ => false
  }

  function ConstToken(v: Value): Option<Token> {
    match v
    case VNull => Some(NullWord)
    case VText(s) => Some(Literal(QuoteLiteral(s)))
    case _ => None
  }

  /** The needle of a string test must be a constant, so that wildcards can be added to it. */
  function NeedleToken(f: LikeFunction, needle: Expr): Option<Token> {
    match needle
    case Const(VNull) => Some(NullWord)
    case Const(VText(s)) => Some(Literal(FuncArgToLikeString(f, Some(s))))
    case _ => None
  }

  /** The comparisons that BETWEEN is written as. */
  function LowerOp(inclusive: bool): CompareOp {
    if inclusive then GreaterEqual else Greater
  }

  function UpperOp(inclusive: bool): CompareOp {
    if inclusive then LessEqual else Less
  }

  function JoinWord(or: bool): Token {
    if or then OrWord else AndWord
  }

  function ExpressionToString(e: Expr, column: string): Option<seq<Token>>
    decreases e
  {
    match e
    case Not(a) =>
      var t := ExpressionToString(a, column);
      if t.None? then None else Some([NotWord, LParen] + t.value + [RParen])
    case IsNull(a, negated) =>
      var t := ExpressionToString(a, column);
      if t.None? then None else Some([LParen] + t.value + [RParen, IsNullWords(negated)])
    case Compare(op, l, r) =>
      CompareText(op, ExpressionToString(l, column), ExpressionToString(r, column))
    case Between(i, l, u, li, ui) =>
      var x := ExpressionToString(i, column);
      var lower := CompareText(LowerOp(li), x, ExpressionToString(l, column));
      var upper := CompareText(UpperOp(ui), x, ExpressionToString(u, column));
      if lower.None? || upper.None? then None
      else Some([LParen] + lower.value + [AndWord] + upper.value + [RParen])
    case Junction(or, es) =>
      var t := JoinText(or, es, column);
      if t.None? then None else Some([LParen] + t.value + [RParen])
    case StringTest(f, h, n) =>
      if !IsText(h) then None
      else
        var t := ExpressionToString(h, column);
        var needle := NeedleToken(f, n);
        if t.None? || needle.None? then None else Some(t.value + [LikeWord, needle.value])
    case CaseFold(upper, a) =>
      var t := ExpressionToString(a, column);
      if t.None? then None else Some([FunctionName(upper), LParen] + t.value + [RParen])
    case Column => Some([Name(column)])
    case Const(v) =>
      var t := ConstToken(v);
      if t.None? then None else Some([t.value])
    case Unsupported => None
  }

  function CompareText(op: CompareOp, left: Option<seq<Token>>, right: Option<seq<Token>>): Option<seq<Token>> {
    if left.None? || right.None? then None
    else Some([LParen] + left.value + [Operator(op)] + right.value + [RParen])
  }

  function JoinText(or: bool, es: Exprs, column: string): Option<seq<Token>>
    decreases es
  {
    match es
    case Nil => Some([])
    case Cons(e, rest) =>
      var t := ExpressionToString(e, column);
      var more := JoinText(or, rest, column);
      if t.None? || more.None? then None
      else if rest.Nil? then Some(t.value) else Some(t.value + [JoinWord(or)] + more.value)
  }

  // ---------- what PostgreSQL parses ----------

  datatype Sql =
    | SNot(arg: Sql)
    | SIsNull(arg: Sql, negated: bool)
    | SCompare(op: CompareOp, left: Sql, right: Sql)
    | SJoin(or: bool, left: Sql, right: Sql)
    | SLike(haystack: Sql, pattern: Sql)
    | SFold(upper: bool, arg: Sql)
    | SName(column: string)
    | SLiteral(text: string)
    | SNull

  /** Binding powers, weakest first, as PostgreSQL's grammar declares them. */
  const OR := 1
  const AND := 2
  const NOT := 3
  const IS := 4
  const COMPARISON := 5
  const LIKE := 6

  type Parsed = Option<(Sql, seq<Token>)>

  function Power(t: Token): nat {
    match t
    case OrWord => OR
    case AndWord => AND
    case IsNullWords(_) => IS
    case Operator(op) => if IsDistinct(op) then IS else COMPARISON
    case LikeWord => LIKE
    case _ => 0
  }

  /** Comparison, IS DISTINCT FROM and LIKE cannot be chained without parentheses. */
  predicate Chains(t: Token, rest: seq<Token>) {
    (t.Operator? || t.LikeWord?) && rest != [] && Power(rest[0]) == Power(t)
  }

  function Combine(t: Token, left: Sql, right: Sql): Sql {
    match t
    case OrWord => SJoin(true, left, right)
    case AndWord => SJoin(false, left, right)
    case Operator(op) => SCompare(op, left, right)
    case _ => SLike(left, right)
  }

  /** An expression whose operators all bind at least as strongly as `min`. */
  function ParseExpr(ts: seq<Token>, min: nat): (r: Parsed)
    ensures r.Some? ==> |r.value.1| < |ts|
    decreases |ts|, 2
  {
    var p := ParsePrefix(ts);
    if p.None? then None else ParseRest(p.value.0, p.value.1, min)
  }

  function ParsePrefix(ts: seq<Token>): (r: Parsed)
    ensures r.Some? ==> |r.value.1| < |ts|
    decreases |ts|, 1
  {
    if ts == [] then None
    else match ts[0]
      case NotWord =>
        var a := ParseExpr(ts[1..], NOT);
        if a.None? then None else Some((SNot(a.value.0), a.value.1))
      case LParen => ParseClosing(ts[1..])
      case FunctionName(upper) =>
        if |ts| < 2 || !ts[1].LParen? then None
        else
          var a := ParseClosing(ts[2..]);
          if a.None? then None else Some((SFold(upper, a.value.0), a.value.1))
      case Name(c) => Some((SName(c), ts[1..]))
      case Literal(s) => Some((SLiteral(s), ts[1..]))
      case NullWord => Some((SNull, ts[1..]))
      case _ => None
  }

  /** An expression and the parenthesis that closes it. */
  function ParseClosing(ts: seq<Token>): (r: Parsed)
    ensures r.Some? ==> |r.value.1| < |ts|
    decreases |ts|, 3
  {
    var a := ParseExpr(ts, 0);
    if a.None? || a.value.1 == [] || !a.value.1[0].RParen? then None
    else Some((a.value.0, a.value.1[1..]))
  }

  /** Operators behind an operand, as long as they bind strongly enough. */
  function ParseRest(left: Sql, ts: seq<Token>, min: nat): (r: Parsed)
    ensures r.Some? ==> |r.value.1| <= |ts|
    decreases |ts|, 0
  {
    if ts == [] || Power(ts[0]) == 0 || Power(ts[0]) < min then Some((left, ts))
    else if ts[0].IsNullWords? then ParseRest(SIsNull(left, ts[0].negated), ts[1..], min)
    else
      var right := ParseExpr(ts[1..], Power(ts[0]) + 1);
      if right.None? || Chains(ts[0], right.value.1) then None
      else ParseRest(Combine(ts[0], left, right.value.0), right.value.1, min)
  }

  /** The whole text is one expression. */
  function Parse(ts: seq<Token>): Option<Sql> {
    var r := ParseExpr(ts, 0);
    if r.None? || r.value.1 != [] then None else Some(r.value.0)
  }

  // ---------- what PostgreSQL computes ----------

  ghost function SqlEval(s: Sql, name: string, column: Value, engine: Engine): Value {
    match s
    case SNot(a) => Not3(SqlEval(a, name, column, engine))
    case SIsNull(a, negated) => VBool((SqlEval(a, name, column, engine) == VNull) != negated)
    case SCompare(op, l, r) => 
      Compare3(op, SqlEval(l, name, column, engine), SqlEval(r, name, column, engine), engine)
    case SJoin(or, l, r) => Join3(or, SqlEval(l, name, column, engine), SqlEval(r, name, column, engine))
    case SLike(h, p) =>
      var x, y := SqlEval(h, name, column, engine), SqlEval(p, name, column, engine);
      if x.VText? && y.VText? then VBool(Like(x.s, y.s)) else VNull
    case SFold(upper, a) => FoldValue(upper, SqlEval(a, name, column, engine), engine)
    case SName(c) => if c == name then column else VNull
    case SLiteral(text) => if ReadLiteral(text).Some? then VText(ReadLiteral(text).value) else VNull
    case SNull => VNull
  }

  // ---------- how the emitted text is grouped ----------

  function MapNot(o: Option<Sql>): Option<Sql> {
    if o.None? then None else Some(SNot(o.value))
  }

  function MapIsNull(o: Option<Sql>, negated: bool): Option<Sql> {
    if o.None? then None else Some(SIsNull(o.value, negated))
  }

  function Pair(o: Option<Sql>, p: Option<Sql>, t: Token): Option<Sql> {
    if o.None? || p.None? then None else Some(Combine(t, o.value, p.value))
  }

  function TokenSql(t: Token): Sql {
    match t
    case Literal(s) => SLiteral(s)
    case Name(c) => SName(c)
    case _ => SNull
  }

  /** A NOT on the left of a comparison is not part of the operand, nor is an IS NULL on its right. */
  function LeftCore(e: Expr): Expr {
    if e.Not? then e.arg else e
  }

  function RightCore(e: Expr): Expr {
    if e.IsNull? then e.arg else e
  }

  /** The comparison of two operand cores, with what reaches over it. */
  function Regroup(op: CompareOp, l: Expr, left: Option<Sql>, r: Expr, right: Option<Sql>): Option<Sql> {
    var core := Pair(left, right, Operator(op));
    var nulled := if !r.IsNull? then core else if IsDistinct(op) then None else MapIsNull(core, r.negated);
    if l.Not? then MapNot(nulled) else nulled
  }

  /**
   The expression that PostgreSQL reads.  A NOT on the left of a comparison reaches over the whole
   comparison, and an IS NULL on its right applies to the whole comparison; on the right of IS
   DISTINCT FROM it is a syntax error, as is an empty AND or OR.
   */
  function Grouped(e: Expr, column: string): Option<Sql>
    decreases e
  {
    match e
    case Not(a) => MapNot(Grouped(a, column))
    case IsNull(a, negated) => MapIsNull(Grouped(a, column), negated)
    case Compare(op, l, r) =>
      Regroup(op, l, Grouped(LeftCore(l), column), r, Grouped(RightCore(r), column))
    case Between(i, l, u, li, ui) =>
      var input := Grouped(LeftCore(i), column);
      Pair(Regroup(LowerOp(li), i, input, l, Grouped(RightCore(l), column)),
           Regroup(UpperOp(ui), i, input, u, Grouped(RightCore(u), column)), AndWord)
    case Junction(or, es) =>
      if es.Nil? then None else GroupedAll(or, Grouped(es.head, column), es.tail, column)
    case StringTest(f, h, n) =>
      var needle := NeedleToken(f, n);
      if needle.None? then None else Pair(Grouped(h, column), Some(TokenSql(needle.value)), LikeWord)
    case CaseFold(upper, a) =>
      var t := Grouped(a, column);
      if t.None? then None else Some(SFold(upper, t.value))
    case Column => Some(SName(column))
    case Const(v) => if ConstToken(v).None? then None else Some(TokenSql(ConstToken(v).value))
    case Unsupported => None
  }

  /** AND and OR chains group to the left. */
  function GroupedAll(or: bool, left: Option<Sql>, es: Exprs, column: string): Option<Sql>
    decreases es
  {
    match es
    case Nil => left
    case Cons(e, rest) => GroupedAll(or, Pair(left, Grouped(e, column), JoinWord(or)), rest, column)
  }

  // ---------- the parser reads exactly that ----------

  /** Nothing behind the expression binds as strongly as NOT. */
  predicate Low(rest: seq<Token>) {
    rest != [] ==> Power(rest[0]) < NOT
  }

  function Done(o: Option<Sql>, rest: seq<Token>): Parsed {
    if o.None? then None else Some((o.value, rest))
  }

  function Then(o: Option<Sql>, rest: seq<Token>, min: nat): Parsed {
    if o.None? then None else ParseRest(o.value, rest, min)
  }

  /** Forms whose text is a name, a constant, a call or parenthesized. */
  predicate Closed(e: Expr) {
    !e.Not? && !e.IsNull? && !e.StringTest?
  }

  predicate Emits(e: Expr, column: string) {
    ExpressionToString(e, column).Some?
  }

  function Text(e: Expr, column: string): seq<Token>
    requires Emits(e, column)
  {
    ExpressionToString(e, column).value
  }

  // One step of the parser at a time.

  lemma {:induction false} ExprStep(ts: seq<Token>, min: nat, o: Option<Sql>, rest: seq<Token>)
    requires ParsePrefix(ts) == Done(o, rest)
    ensures ParseExpr(ts, min) == Then(o, rest, min)
  {
  }

  lemma {:induction false} NotStep(tail: seq<Token>)
    ensures ParsePrefix([NotWord] + tail)
         == var a := ParseExpr(tail, NOT); if a.None? then None else Some((SNot(a.value.0), a.value.1))
  {
    assert ([NotWord] + tail)[1..] == tail;
  }

  lemma {:induction false} ParenStep(tail: seq<Token>, o: Option<Sql>, rest: seq<Token>)
    requires ParseExpr(tail, 0) == Done(o, [RParen] + rest)
    ensures ParsePrefix([LParen] + tail) == Done(o, rest)
  {
    assert ([LParen] + tail)[1..] == tail;
    assert ([RParen] + rest)[1..] == rest;
  }

  lemma {:induction false} StopStep(left: Sql, ts: seq<Token>, min: nat)
    requires ts == [] || Power(ts[0]) == 0 || Power(ts[0]) < min
    ensures ParseRest(left, ts, min) == Some((left, ts))
  {
  }

  lemma {:induction false} NullStep(left: Sql, negated: bool, tail: seq<Token>, min: nat)
    requires min <= IS
    ensures ParseRest(left, [IsNullWords(negated)] + tail, min) == ParseRest(SIsNull(left, negated), tail, min)
  {
    assert ([IsNullWords(negated)] + tail)[1..] == tail;
  }

  lemma {:induction false} BinaryStep(left: Sql, t: Token, tail: seq<Token>, min: nat, right: Option<Sql>,
      rest: seq<Token>)
    requires !t.IsNullWords? && Power(t) > 0 && Power(t) >= min
    requires ParseExpr(tail, Power(t) + 1) == Done(right, rest)
    ensures ParseRest(left, [t] + tail, min)
         == if right.None? || Chains(t, rest) then None else ParseRest(Combine(t, left, right.value), rest, min)
  {
    assert ([t] + tail)[1..] == tail;
  }

  /** In any context that binds no stronger than NOT the text is read as one operand. */
  lemma {:induction false} ParsesLow(e: Expr, column: string, rest: seq<Token>, min: nat)
    requires Emits(e, column) && Low(rest) && min <= NOT
    ensures ParseExpr(Text(e, column) + rest, min) == Then(Grouped(e, column), rest, min)
    decreases e, 5
  {
    hide ParseExpr, ParsePrefix, ParseRest;
    if e.Not? {
      var a := Grouped(e.arg, column);
      var parens := [LParen] + Text(e.arg, column) + [RParen] + rest;
      assert Text(e, column) + rest == [NotWord] + parens;
      ParsesParens(e.arg, column, rest);
      ExprStep(parens, NOT, a, rest);
      if a.Some? { StopStep(a.value, rest, NOT); }
      NotStep(parens);
      ExprStep([NotWord] + parens, min, Grouped(e, column), rest);
    } else if e.IsNull? {
      var a, tail := Grouped(e.arg, column), [IsNullWords(e.negated)] + rest;
      assert Text(e, column) + rest == [LParen] + Text(e.arg, column) + [RParen] + tail;
      ParsesParens(e.arg, column, tail);
      ExprStep(Text(e, column) + rest, min, a, tail);
      if a.Some? { NullStep(a.value, e.negated, rest, min); }
    } else if e.StringTest? {
      ParsesLike(e, column, rest, min);
    } else {
      ParsesClosed(e, column, rest);
      ExprStep(Text(e, column) + rest, min, Grouped(e, column), rest);
    }
  }

  lemma {:induction false} ParsesParens(e: Expr, column: string, rest: seq<Token>)
    requires Emits(e, column)
    ensures ParsePrefix([LParen] + Text(e, column) + [RParen] + rest) == Done(Grouped(e, column), rest)
    decreases e, 6
  {
    var t := [LParen] + Text(e, column) + [RParen] + rest;
    assert t[1..] == Text(e, column) + ([RParen] + rest);
    ParsesLow(e, column, [RParen] + rest, 0);
    assert ([RParen] + rest)[1..] == rest;
  }

  lemma {:induction false} ParsesLike(e: Expr, column: string, rest: seq<Token>, min: nat)
    requires Emits(e, column) && e.StringTest? && (rest != [] ==> Power(rest[0]) != LIKE) && min <= LIKE
    ensures ParseExpr(Text(e, column) + rest, min) == Then(Grouped(e, column), rest, min)
    decreases e, 4
  {
    var needle := NeedleToken(e.f, e.needle).value;
    var tail := [LikeWord, needle] + rest;
    assert Text(e, column) + rest == Text(e.haystack, column) + tail;
    ParsesClosed(e.haystack, column, tail);
    assert tail[1..] == [needle] + rest;
    assert ([needle] + rest)[1..] == rest;
    assert ParsePrefix([needle] + rest) == Some((TokenSql(needle), rest));
    assert ParseExpr(tail[1..], LIKE + 1) == Some((TokenSql(needle), rest));
  }

  lemma {:induction false} ParsesClosed(e: Expr, column: string, rest: seq<Token>)
    requires Emits(e, column) && Closed(e)
    ensures ParsePrefix(Text(e, column) + rest) == Done(Grouped(e, column), rest)
    decreases e, 3
  {
    var t := Text(e, column) + rest;
    match e
    case Compare(op, l, r) =>
      ParsesCompare(e, op, l, r, column, rest);
    case Between(i, l, u, li, ui) =>
      ParsesBetween(e, column, rest);
    case Junction(or, es) =>
      var inner := JoinText(or, es, column).value;
      assert t == [LParen] + (inner + ([RParen] + rest));
      if es.Nil? {
        ParsesEmpty(rest);
        assert inner + ([RParen] + rest) == [RParen] + rest;
      } else {
        ParsesJoin(or, es, column, [RParen] + rest);
        ParenStep(inner + ([RParen] + rest), Grouped(e, column), rest);
      }
    case CaseFold(upper, a) =>
      assert t[2..] == Text(a, column) + ([RParen] + rest);
      ParsesLow(a, column, [RParen] + rest, 0);
      assert ([RParen] + rest)[1..] == rest;
    case Column =>
      assert t[1..] == rest;
    case Const(v) =>
      assert t[1..] == rest;
  }

  lemma {:induction false} ParsesEmpty(rest: seq<Token>)
    ensures ParsePrefix([LParen] + ([RParen] + rest)) == None
  {
    assert ([LParen] + ([RParen] + rest))[1..] == [RParen] + rest;
    assert ParsePrefix([RParen] + rest) == None;
    assert ParseExpr([RParen] + rest, 0) == None;
    assert ParseClosing([RParen] + rest) == None;
  }

  /** The operand on the right of a comparison ends before an IS NULL. */
  lemma {:induction false} ParsesRight(e: Expr, column: string, rest: seq<Token>, min: nat)
    requires Emits(e, column) && rest != [] && rest[0].RParen? && IS < min <= LIKE
    ensures ParseExpr(Text(e, column) + rest, min)
         == Done(Grouped(RightCore(e), column), if e.IsNull? then [IsNullWords(e.negated)] + rest else rest)
    decreases e, 5
  {
    hide ParseExpr, ParsePrefix, ParseRest;
    if e.Not? {
      var a := Grouped(e.arg, column);
      var parens := [LParen] + Text(e.arg, column) + [RParen] + rest;
      assert Text(e, column) + rest == [NotWord] + parens;
      ParsesParens(e.arg, column, rest);
      ExprStep(parens, NOT, a, rest);
      NotStep(parens);
      if a.Some? {
        StopStep(a.value, rest, NOT);
        StopStep(SNot(a.value), rest, min);
      }
      ExprStep([NotWord] + parens, min, Grouped(e, column), rest);
    } else if e.IsNull? {
      var a, tail := Grouped(e.arg, column), [IsNullWords(e.negated)] + rest;
      assert Text(e, column) + rest == [LParen] + Text(e.arg, column) + [RParen] + tail;
      ParsesParens(e.arg, column, tail);
      ExprStep(Text(e, column) + rest, min, a, tail);
      if a.Some? { StopStep(a.value, tail, min); }
    } else {
      if e.StringTest? {
        ParsesLike(e, column, rest, min);
      } else {
        ParsesClosed(e, column, rest);
        ExprStep(Text(e, column) + rest, min, Grouped(e, column), rest);
      }
      if Grouped(e, column).Some? { StopStep(Grouped(e, column).value, rest, min); }
    }
  }

  /** The operator and the right operand, behind a left operand that has been read. */
  lemma {:induction false} ParsesOperator(left: Sql, op: CompareOp, r: Expr, column: string, rest: seq<Token>, min: nat)
    requires Emits(r, column) && rest != [] && rest[0].RParen? && min <= NOT
    ensures ParseRest(left, [Operator(op)] + (Text(r, column) + rest), min)
         == Done(Regroup(op, Column, Some(left), r, Grouped(RightCore(r), column)), rest)
    decreases r, 6
  {
    hide ParseExpr, ParsePrefix, ParseRest, Grouped, ExpressionToString;
    var right := Grouped(RightCore(r), column);
    var behind := if r.IsNull? then [IsNullWords(r.negated)] + rest else rest;
    ParsesRight(r, column, rest, Power(Operator(op)) + 1);
    BinaryStep(left, Operator(op), Text(r, column) + rest, min, right, behind);
    if right.Some? && !Chains(Operator(op), behind) {
      var core := SCompare(op, left, right.value);
      if r.IsNull? {
        NullStep(core, r.negated, rest, min);
        StopStep(SIsNull(core, r.negated), rest, min);
      } else {
        StopStep(core, rest, min);
      }
    }
  }

  /** The side of an expression that a comparison is made of. */
  predicate ComparesIn(e: Expr, l: Expr, r: Expr) {
    || (e.Compare? && l == e.left && r == e.right)
    || (e.Between? && l == e.input && (r == e.lower || r == e.upper))
  }

  lemma {:induction false} ParsesInside(e: Expr, op: CompareOp, l: Expr, r: Expr, column: string, rest: seq<Token>)
    requires ComparesIn(e, l, r) && Emits(l, column) && Emits(r, column) && rest != [] && rest[0].RParen?
    ensures ParseExpr(Text(l, column) + ([Operator(op)] + (Text(r, column) + rest)), 0)
         == Done(Regroup(op, l, Grouped(LeftCore(l), column), r, Grouped(RightCore(r), column)), rest)
    decreases e, 1
  {
    hide ParseExpr, ParsePrefix, ParseRest;
    var tail := [Operator(op)] + (Text(r, column) + rest);
    var core := Grouped(LeftCore(l), column);
    if core.Some? {
      ParsesOperator(core.value, op, r, column, rest, if l.Not? then NOT else 0);
    }
    if l.Not? {
      ParsesInsideNot(l, op, r, column, rest);
    } else if l.IsNull? {
      assert Text(l, column) + tail == [LParen] + Text(l.arg, column) + [RParen] + ([IsNullWords(l.negated)] + tail);
      ParsesParens(l.arg, column, [IsNullWords(l.negated)] + tail);
      ExprStep(Text(l, column) + tail, 0, Grouped(l.arg, column), [IsNullWords(l.negated)] + tail);
      if Grouped(l.arg, column).Some? {
        NullStep(Grouped(l.arg, column).value, l.negated, tail, 0);
      }
    } else if l.StringTest? {
      ParsesLike(l, column, tail, 0);
    } else {
      ParsesClosed(l, column, tail);
      ExprStep(Text(l, column) + tail, 0, core, tail);
    }
  }

  lemma {:induction false} ParsesInsideNot(l: Expr, op: CompareOp, r: Expr, column: string, rest: seq<Token>)
    requires l.Not? && Emits(l, column) && Emits(r, column) && rest != [] && rest[0].RParen?
    requires Grouped(l.arg, column).Some? ==>
               ParseRest(Grouped(l.arg, column).value, [Operator(op)] + (Text(r, column) + rest), NOT)
               == Done(Regroup(op, Column, Grouped(l.arg, column), r, Grouped(RightCore(r), column)), rest)
    ensures ParseExpr(Text(l, column) + ([Operator(op)] + (Text(r, column) + rest)), 0)
         == Done(Regroup(op, l, Grouped(LeftCore(l), column), r, Grouped(RightCore(r), column)), rest)
    decreases l, 7
  {
    hide ParseExpr, ParsePrefix, ParseRest;
    var tail := [Operator(op)] + (Text(r, column) + rest);
    var parens := [LParen] + Text(l.arg, column) + [RParen] + tail;
    assert Text(l, column) + tail == [NotWord] + parens;
    ParsesParens(l.arg, column, tail);
    ExprStep(parens, NOT, Grouped(l.arg, column), tail);
    NotStep(parens);
    var whole := Regroup(op, l, Grouped(l.arg, column), r, Grouped(RightCore(r), column));
    ExprStep([NotWord] + parens, 0, whole, rest);
    if whole.Some? { StopStep(whole.value, rest, 0); }
  }

  lemma {:induction false} ParsesCompare(e: Expr, op: CompareOp, l: Expr, r: Expr, column: string, rest: seq<Token>)
    requires ComparesIn(e, l, r) && Emits(l, column) && Emits(r, column)
    ensures ParsePrefix(CompareText(op, Some(Text(l, column)), Some(Text(r, column))).value + rest)
         == Done(Regroup(op, l, Grouped(LeftCore(l), column), r, Grouped(RightCore(r), column)), rest)
    decreases e, 2
  {
    hide ParseExpr, ParsePrefix, ParseRest, Grouped, Regroup;
    var inner := Text(l, column) + ([Operator(op)] + (Text(r, column) + ([RParen] + rest)));
    assert CompareText(op, Some(Text(l, column)), Some(Text(r, column))).value + rest == [LParen] + inner;
    ParsesInside(e, op, l, r, column, [RParen] + rest);
    ParenStep(inner, Regroup(op, l, Grouped(LeftCore(l), column), r, Grouped(RightCore(r), column)), rest);
  }

  lemma {:induction false} ParsesBetween(e: Expr, column: string, rest: seq<Token>)
    requires Emits(e, column) && e.Between?
    ensures ParsePrefix(Text(e, column) + rest) == Done(Grouped(e, column), rest)
    decreases e, 3, 0
  {
    hide ParseExpr, ParsePrefix, ParseRest, Regroup;
    var i, l, u := e.input, e.lower, e.upper;
    var lop, uop := LowerOp(e.lowerInclusive), UpperOp(e.upperInclusive);
    var lower := CompareText(lop, Some(Text(i, column)), Some(Text(l, column))).value;
    var upper := CompareText(uop, Some(Text(i, column)), Some(Text(u, column))).value;
    var a := Regroup(lop, i, Grouped(LeftCore(i), column), l, Grouped(RightCore(l), column));
    var b := Regroup(uop, i, Grouped(LeftCore(i), column), u, Grouped(RightCore(u), column));
    var tail := [RParen] + rest;
    var inner := lower + ([AndWord] + (upper + tail));
    assert Text(e, column) + rest == [LParen] + inner;
    ParsesCompare(e, lop, i, l, column, [AndWord] + (upper + tail));
    ParsesCompare(e, uop, i, u, column, tail);
    ParsesPair(lower, a, upper, b, tail);
    ParenStep(inner, Pair(a, b, AndWord), rest);
  }

  lemma {:induction false} ParsesPair(lower: seq<Token>, a: Option<Sql>, upper: seq<Token>, b: Option<Sql>,
      tail: seq<Token>)
    requires tail != [] && tail[0].RParen?
    requires ParsePrefix(lower + ([AndWord] + (upper + tail))) == Done(a, [AndWord] + (upper + tail))
    requires ParsePrefix(upper + tail) == Done(b, tail)
    ensures ParseExpr(lower + ([AndWord] + (upper + tail)), 0) == Done(Pair(a, b, AndWord), tail)
  {
    hide ParseExpr, ParsePrefix, ParseRest;
    ExprStep(lower + ([AndWord] + (upper + tail)), 0, a, [AndWord] + (upper + tail));
    ExprStep(upper + tail, AND + 1, b, tail);
    if b.Some? { StopStep(b.value, tail, AND + 1); }
    if a.Some? {
      BinaryStep(a.value, AndWord, upper + tail, 0, b, tail);
      if b.Some? { StopStep(SJoin(false, a.value, b.value), tail, 0); }
    }
  }

  function JoinTail(or: bool, es: Exprs, column: string): seq<Token>
    requires JoinText(or, es, column).Some?
  {
    if es.Nil? then [] else [JoinWord(or)] + JoinText(or, es, column).value
  }

  lemma {:induction false} ParsesJoin(or: bool, es: Exprs, column: string, rest: seq<Token>)
    requires JoinText(or, es, column).Some? && es.Cons? && rest != [] && rest[0].RParen?
    ensures ParseExpr(JoinText(or, es, column).value + rest, 0)
         == Done(GroupedAll(or, Grouped(es.head, column), es.tail, column), rest)
    decreases es, 1
  {
    var tail := JoinTail(or, es.tail, column) + rest;
    assert JoinText(or, es, column).value + rest == Text(es.head, column) + tail;
    ParsesLow(es.head, column, tail, 0);
    var head := Grouped(es.head, column);
    if head.None? {
      GroupedAllNone(or, es.tail, column);
    } else {
      ParsesJoinTail(or, head.value, es.tail, column, rest);
    }
  }

  lemma {:induction false} ParsesJoinTail(or: bool, left: Sql, es: Exprs, column: string, rest: seq<Token>)
    requires JoinText(or, es, column).Some? && rest != [] && rest[0].RParen?
    ensures ParseRest(left, JoinTail(or, es, column) + rest, 0) == Done(GroupedAll(or, Some(left), es, column), rest)
    decreases es, 0
  {
    hide ParseExpr, ParsePrefix, ParseRest, Grouped, ExpressionToString;
    if es.Nil? {
      assert JoinTail(or, es, column) + rest == rest;
      StopStep(left, rest, 0);
    } else {
      var tail := JoinTail(or, es.tail, column) + rest;
      var min := Power(JoinWord(or)) + 1;
      assert JoinTail(or, es, column) + rest == [JoinWord(or)] + (Text(es.head, column) + tail);
      ParsesLow(es.head, column, tail, min);
      var right := Grouped(es.head, column);
      if right.Some? { StopStep(right.value, tail, min); }
      BinaryStep(left, JoinWord(or), Text(es.head, column) + tail, 0, right, tail);
      if right.None? {
        GroupedAllNone(or, es.tail, column);
      } else {
        ParsesJoinTail(or, Combine(JoinWord(or), left, right.value), es.tail, column, rest);
      }
    }
  }

  lemma {:induction false} GroupedAllNone(or: bool, es: Exprs, column: string)
    ensures GroupedAll(or, None, es, column) == None
    decreases es
  {
    if es.Cons? { GroupedAllNone(or, es.tail, column); }
  }

  /** PostgreSQL reads the emitted text as the regrouped expression, for every expression. */
  lemma {:induction false} ParsesAsGrouped(e: Expr, column: string)
    requires Emits(e, column)
    ensures Parse(Text(e, column)) == Grouped(e, column)
  {
    ParsesLow(e, column, [], 0);
    assert Text(e, column) + [] == Text(e, column);
  }

  // ---------- when the text means what the expression means ----------

  /** The expression that the text is meant to be. */
  function Intended(e: Expr, column: string): Sql
    decreases e
  {
    match e
    case Not(a) => SNot(Intended(a, column))
    case IsNull(a, negated) => SIsNull(Intended(a, column), negated)
    case Compare(op, l, r) => SCompare(op, Intended(l, column), Intended(r, column))
    case Between(i, l, u, li, ui) =>
      SJoin(false, SCompare(LowerOp(li), Intended(i, column), Intended(l, column)),
            SCompare(UpperOp(ui), Intended(i, column), Intended(u, column)))
    case Junction(or, es) => if es.Nil? then SNull else IntendedAll(or, Intended(es.head, column), es.tail, column)
    case StringTest(f, h, n) =>
      SLike(Intended(h, column), if NeedleToken(f, n).Some? then TokenSql(NeedleToken(f, n).value) else SNull)
    case CaseFold(upper, a) => SFold(upper, Intended(a, column))
    case Column => SName(column)
    case Const(v) => if ConstToken(v).Some? then TokenSql(ConstToken(v).value) else SNull
    case Unsupported => SNull
  }

  function IntendedAll(or: bool, left: Sql, es: Exprs, column: string): Sql
    decreases es
  {
    match es
    case Nil => left
    case Cons(e, rest) => IntendedAll(or, SJoin(or, left, Intended(e, column)), rest, column)
  }

  /** No comparison has NOT on its left or IS NULL on its right, and no AND or OR is empty. */
  predicate Safe(e: Expr)
    decreases e
  {
    match e
    case Not(a) => Safe(a)
    case IsNull(a, _) => Safe(a)
    case Compare(_, l, r) => !l.Not? && !r.IsNull? && Safe(l) && Safe(r)
    case Between(i, l, u, _, _) => !i.Not? && !l.IsNull? && !u.IsNull? && Safe(i) && Safe(l) && Safe(u)
    case Junction(_, es) => es.Cons? && AllSafe(es)
    case StringTest(_, h, _) => Safe(h)
    case CaseFold(_, a) => Safe(a)
    case _ => true
  }

  predicate AllSafe(es: Exprs)
    decreases es
  {
    es.Cons? ==> Safe(es.head) && AllSafe(es.tail)
  }

  lemma {:induction false} JoinParts(or: bool, es: Exprs, column: string)
    requires JoinText(or, es, column).Some? && es.Cons?
    ensures Emits(es.head, column) && JoinText(or, es.tail, column).Some?
  {
  }

  lemma {:induction false} GroupedIff(e: Expr, column: string)
    requires Emits(e, column)
    ensures Grouped(e, column) == Some(Intended(e, column)) <==> Safe(e)
    decreases e, 1
  {
    hide Regroup;
    match e
    case Not(a) => GroupedIff(a, column);
    case IsNull(a, _) => GroupedIff(a, column);
    case Compare(op, l, r) =>
      GroupedIff(l, column);
      GroupedIff(r, column);
      RegroupIff(op, l, r, column);
    case Between(i, l, u, li, ui) =>
      GroupedIff(i, column);
      GroupedIff(l, column);
      GroupedIff(u, column);
      RegroupIff(LowerOp(li), i, l, column);
      RegroupIff(UpperOp(ui), i, u, column);
    case Junction(_, _) => GroupedJunctionIff(e, column);
    case StringTest(_, h, _) => GroupedIff(h, column);
    case CaseFold(_, a) => GroupedIff(a, column);
    case _ =>
  }

  lemma {:induction false} RegroupIff(op: CompareOp, l: Expr, r: Expr, column: string)
    requires Grouped(l, column) == Some(Intended(l, column)) <==> Safe(l)
    requires Grouped(r, column) == Some(Intended(r, column)) <==> Safe(r)
    ensures Regroup(op, l, Grouped(LeftCore(l), column), r, Grouped(RightCore(r), column))
              == Some(SCompare(op, Intended(l, column), Intended(r, column)))
            <==> !l.Not? && !r.IsNull? && Safe(l) && Safe(r)
  {
    hide Grouped, Intended, Safe;
  }

  lemma {:induction false} GroupedJunctionIff(e: Expr, column: string)
    requires Emits(e, column) && e.Junction?
    ensures Grouped(e, column) == Some(Intended(e, column)) <==> Safe(e)
    decreases e, 0
  {
    var es := e.children;
    if es.Cons? {
      JoinParts(e.or, es, column);
      GroupedIff(es.head, column);
      GroupedAllIff(e.or, Grouped(es.head, column), Intended(es.head, column), es.tail, column);
    }
  }

  lemma {:induction false} GroupedAllIff(or: bool, o: Option<Sql>, left: Sql, es: Exprs, column: string)
    requires JoinText(or, es, column).Some?
    ensures GroupedAll(or, o, es, column) == Some(IntendedAll(or, left, es, column)) <==> o == Some(left) && AllSafe(es)
    decreases es
  {
    if es.Cons? {
      JoinParts(or, es, column);
      GroupedIff(es.head, column);
      GroupedAllIff(or, Pair(o, Grouped(es.head, column), JoinWord(or)), SJoin(or, left, Intended(es.head, column)),
          es.tail, column);
    }
  }

  /** PostgreSQL reads the text as it was meant if and only if the expression is safe. */
  lemma {:induction false} ReadAsIntendedIff(e: Expr, column: string)
    requires Emits(e, column)
    ensures Parse(Text(e, column)) == Some(Intended(e, column)) <==> Safe(e)
  {
    ParsesAsGrouped(e, column);
    GroupedIff(e, column);
  }

  lemma {:induction false} NeedleMeans(f: LikeFunction, h: Sql, x: Value, n: Expr, column: string, v: Value,
                    engine: Engine)
    requires NeedleToken(f, n).Some? && SqlEval(h, column, v, engine) == x
    ensures SqlEval(SLike(h, TokenSql(NeedleToken(f, n).value)), column, v, engine) == TestValue(f, x, n.v)
  {
    hide LikePattern.Like, LikePattern.Holds, FuncArgToLikeString, ReadLiteral, PatternOf;
    if n.v.VText? {
      var p := TokenSql(NeedleToken(f, n).value);
      LikeLiteralReadsBack(f, n.v.s);
      assert SqlEval(p, column, v, engine) == VText(PatternOf(f, n.v.s));
      if x.VText? { LikeMeansFunction(f, x.s, n.v.s); }
    }
  }

  /** The intended expression has the value of the DuckDB expression, for every value of the column. */
  lemma {:induction false} IntendedMeans(e: Expr, column: string, v: Value, engine: Engine)
    requires Emits(e, column) && Safe(e)
    ensures SqlEval(Intended(e, column), column, v, engine) == Eval(e, v, engine)
    decreases e, 1
  {
    hide Compare3, Not3, Join3, And3, LikePattern.Like, LikePattern.Holds, ReadLiteral, QuoteLiteral;
    match e
    case Not(a) => IntendedMeans(a, column, v, engine);
    case IsNull(a, _) => IntendedMeans(a, column, v, engine);
    case Compare(_, l, r) =>
      IntendedMeans(l, column, v, engine);
      IntendedMeans(r, column, v, engine);
    case Between(_, _, _, _, _) => BetweenMeans(e, column, v, engine);
    case Junction(_, _) => JunctionMeans(e, column, v, engine);
    case StringTest(f, h, n) =>
      IntendedMeans(h, column, v, engine);
      NeedleMeans(f, Intended(h, column), Eval(h, v, engine), n, column, v, engine);
    case CaseFold(_, a) => IntendedMeans(a, column, v, engine);
    case Const(c) =>
      if c.VText? { QuoteRoundTrip(c.s); }
    case _ =>
  }

  lemma {:induction false} BetweenMeans(e: Expr, column: string, v: Value, engine: Engine)
    requires Emits(e, column) && Safe(e) && e.Between?
    ensures SqlEval(Intended(e, column), column, v, engine) == Eval(e, v, engine)
    decreases e, 0
  {
    hide And3;
    IntendedMeans(e.input, column, v, engine);
    IntendedMeans(e.lower, column, v, engine);
    IntendedMeans(e.upper, column, v, engine);
  }

  lemma {:induction false} JunctionMeans(e: Expr, column: string, v: Value, engine: Engine)
    requires Emits(e, column) && Safe(e) && e.Junction?
    ensures SqlEval(Intended(e, column), column, v, engine) == Eval(e, v, engine)
    decreases e, 0
  {
    hide Join3;
    var es := e.children;
    JoinParts(e.or, es, column);
    IntendedMeans(es.head, column, v, engine);
    IntendedAllMeans(e.or, Intended(es.head, column), es.tail, column, v, engine);
  }

  lemma Join3Assoc(or: bool, a: Value, b: Value, c: Value)
    ensures Join3(or, Join3(or, a, b), c) == Join3(or, a, Join3(or, b, c))
  {
  }

  lemma {:induction false} IntendedAllMeans(or: bool, left: Sql, es: Exprs, column: string, v: Value,
                    engine: Engine)
    requires JoinText(or, es, column).Some? && AllSafe(es)
    ensures SqlEval(IntendedAll(or, left, es, column), column, v, engine)
         == if es.Nil? then SqlEval(left, column, v, engine)
            else Join3(or, SqlEval(left, column, v, engine), EvalAll(or, es, v, engine))
    decreases es
  {
    hide Join3, Intended, Eval;
    if es.Cons? {
      JoinParts(or, es, column);
      IntendedMeans(es.head, column, v, engine);
      IntendedAllMeans(or, SJoin(or, left, Intended(es.head, column)), es.tail, column, v, engine);
      Join3Assoc(or, SqlEval(left, column, v, engine), Eval(es.head, v, engine), EvalAll(or, es.tail, v, engine));
    }
  }

  // ---------- two engines ----------

  predicate Ordering(op: CompareOp) {
    op == Less || op == Greater || op == LessEqual || op == GreaterEqual
  }

  /** The expression asks which of two values is the smaller one. */
  predicate UsesOrder(e: Expr)
    decreases e
  {
    match e
    case Not(a) => UsesOrder(a)
    case IsNull(a, _) => UsesOrder(a)
    case Compare(op, l, r) => Ordering(op) || UsesOrder(l) || UsesOrder(r)
    case Between(_, _, _, _, _) => true
    case Junction(_, es) => SomeUseOrder(es)
    case StringTest(_, h, n) => UsesOrder(h) || UsesOrder(n)
    case CaseFold(_, a) => UsesOrder(a)
    case _ => false
  }

  predicate SomeUseOrder(es: Exprs)
    decreases es
  {
    es.Cons? && (UsesOrder(es.head) || SomeUseOrder(es.tail))
  }

  predicate UsesFold(e: Expr)
    decreases e
  {
    match e
    case Not(a) => UsesFold(a)
    case IsNull(a, _) => UsesFold(a)
    case Compare(_, l, r) => UsesFold(l) || UsesFold(r)
    case Between(i, l, u, _, _) => UsesFold(i) || UsesFold(l) || UsesFold(u)
    case Junction(_, es) => SomeUseFold(es)
    case StringTest(_, h, n) => UsesFold(h) || UsesFold(n)
    case CaseFold(_, _) => true
    case _ => false
  }

  predicate SomeUseFold(es: Exprs)
    decreases es
  {
    es.Cons? && (UsesFold(es.head) || SomeUseFold(es.tail))
  }

  ghost predicate SameOrder(x: Engine, y: Engine) {
    forall s, t :: x.less(s, t) == y.less(s, t)
  }

  ghost predicate SameFold(x: Engine, y: Engine) {
    forall upper, s :: x.fold(upper, s) == y.fold(upper, s)
  }

  /** The engines agree on what they are asked: the text order if one is used, and case folding likewise. */
  ghost predicate Agree(order: bool, folds: bool, x: Engine, y: Engine) {
    (order ==> SameOrder(x, y)) && (folds ==> SameFold(x, y))
  }

  lemma CompareAgrees(op: CompareOp, a: Value, b: Value, x: Engine, y: Engine)
    requires Ordering(op) ==> SameOrder(x, y)
    ensures Compare3(op, a, b, x) == Compare3(op, a, b, y)
  {
  }

  lemma WithinAgrees(v: Value, bound: Value, inclusive: bool, lower: bool, x: Engine, y: Engine)
    requires SameOrder(x, y)
    ensures Within3(v, bound, inclusive, lower, x) == Within3(v, bound, inclusive, lower, y)
  {
  }

  /** An expression has the same value in two engines that agree on what it uses. */
  lemma {:induction false} EvalAgrees(e: Expr, v: Value, x: Engine, y: Engine)
    requires Agree(UsesOrder(e), UsesFold(e), x, y)
    ensures Eval(e, v, x) == Eval(e, v, y)
    decreases e
  {
    hide Compare3, Within3, And3, Not3, FoldValue, TestValue, SameOrder, SameFold;
    match e
    case Not(a) => EvalAgrees(a, v, x, y);
    case IsNull(a, _) => EvalAgrees(a, v, x, y);
    case Compare(op, l, r) =>
      EvalAgrees(l, v, x, y);
      EvalAgrees(r, v, x, y);
      CompareAgrees(op, Eval(l, v, x), Eval(r, v, x), x, y);
    case Between(i, l, u, li, ui) =>
      EvalAgrees(i, v, x, y);
      EvalAgrees(l, v, x, y);
      EvalAgrees(u, v, x, y);
      WithinAgrees(Eval(i, v, x), Eval(l, v, x), li, true, x, y);
      WithinAgrees(Eval(i, v, x), Eval(u, v, x), ui, false, x, y);
    case Junction(or, es) => EvalAllAgrees(or, es, v, x, y);
    case StringTest(_, h, n) =>
      EvalAgrees(h, v, x, y);
      EvalAgrees(n, v, x, y);
    case CaseFold(upper, a) =>
      EvalAgrees(a, v, x, y);
      FoldAgrees(upper, Eval(a, v, x), x, y);
    case _ =>
  }

  lemma FoldAgrees(upper: bool, v: Value, x: Engine, y: Engine)
    requires SameFold(x, y)
    ensures FoldValue(upper, v, x) == FoldValue(upper, v, y)
  {
  }

  lemma {:induction false} EvalAllAgrees(or: bool, es: Exprs, v: Value, x: Engine, y: Engine)
    requires Agree(SomeUseOrder(es), SomeUseFold(es), x, y)
    ensures EvalAll(or, es, v, x) == EvalAll(or, es, v, y)
    decreases es
  {
    if es.Cons? {
      EvalAgrees(es.head, v, x, y);
      EvalAllAgrees(or, es.tail, v, x, y);
    }
  }

  /**
   A pushed-down expression keeps its three-valued truth for every value of the column, when PostgreSQL
   and DuckDB agree on the text order and the case folding that it uses.
   */
  lemma {:induction false} PushdownKeepsMeaning(e: Expr, column: string, v: Value, duck: Engine, postgres: Engine)
    requires Emits(e, column) && Safe(e) && Agree(UsesOrder(e), UsesFold(e), duck, postgres)
    ensures Parse(Text(e, column)).Some?
    ensures SqlEval(Parse(Text(e, column)).value, column, v, postgres) == Eval(e, v, duck)
  {
    ReadAsIntendedIff(e, column);
    IntendedMeans(e, column, v, postgres);
    EvalAgrees(e, v, duck, postgres);
  }

  /**
   A BETWEEN that is pushed down keeps a row without nulls if and only if the value is above the lower
   bound and below the upper one, where an inclusive bound may also be met.
   */
  lemma {:induction false} BetweenReadIff(e: Expr, column: string, v: Value, engine: Engine)
    requires Emits(e, column) && Safe(e) && e.Between?
    requires Eval(e.input, v, engine) != VNull && Eval(e.lower, v, engine) != VNull && Eval(e.upper, v, engine) != VNull
    ensures var x, l, u := Eval(e.input, v, engine), Eval(e.lower, v, engine), Eval(e.upper, v, engine);
            && Parse(Text(e, column)).Some?
            && (SqlEval(Parse(Text(e, column)).value, column, v, engine) == VBool(true) <==>
                  && (ValueLess(l, x, engine) || (e.lowerInclusive && l == x))
                  && (ValueLess(x, u, engine) || (e.upperInclusive && x == u)))
  {
    ReadAsIntendedIff(e, column);
    IntendedMeans(e, column, v, engine);
  }

  /** NOT c < c over a boolean column: PostgreSQL negates the comparison and keeps a row DuckDB drops. */
  lemma {:induction false} NotOnTheLeftChangesMeaning(column: string, engine: Engine)
    ensures var e := Compare(Less, Not(Column), Column);
            && Emits(e, column) && Parse(Text(e, column)).Some?
            && Eval(e, VBool(false), engine) == VBool(false)
            && SqlEval(Parse(Text(e, column)).value, column, VBool(false), engine) == VBool(true)
  {
    var e := Compare(Less, Not(Column), Column);
    ParsesAsGrouped(e, column);
    var c := SName(column);
    assert Grouped(e, column) == Some(SNot(SCompare(Less, c, c)));
    assert SqlEval(c, column, VBool(false), engine) == VBool(false);
    assert SqlEval(SCompare(Less, c, c), column, VBool(false), engine) == VBool(false);
  }

  /** c = (c IS NULL): PostgreSQL tests the comparison for null and keeps the null rows DuckDB drops. */
  lemma {:induction false} IsNullOnTheRightChangesMeaning(column: string, engine: Engine)
    ensures var e := Compare(Equal, Column, IsNull(Column, false));
            && Emits(e, column) && Parse(Text(e, column)).Some?
            && Eval(e, VNull, engine) == VNull
            && SqlEval(Parse(Text(e, column)).value, column, VNull, engine) == VBool(true)
  {
    var e := Compare(Equal, Column, IsNull(Column, false));
    ParsesAsGrouped(e, column);
    var c := SName(column);
    assert Grouped(e, column) == Some(SIsNull(SCompare(Equal, c, c), false));
    assert SqlEval(c, column, VNull, engine) == VNull;
    assert SqlEval(SCompare(Equal, c, c), column, VNull, engine) == VNull;
  }

  // ---------- which expressions are accepted ----------

  /** A constant that can be written: only text constants and NULL are. */
  predicate Writable(v: Value) {
    v.VNull? || v.VText?
  }

  /** Every node has a translation; a string test needs a text haystack and a constant needle. */
  predicate Supported(e: Expr)
    decreases e
  {
    match e
    case Not(a) => Supported(a)
    case IsNull(a, _) => Supported(a)
    case Compare(_, l, r) => Supported(l) && Supported(r)
    case Between(i, l, u, _, _) => Supported(i) && Supported(l) && Supported(u)
    case Junction(_, es) => AllSupported(es)
    case StringTest(_, h, n) => IsText(h) && Supported(h) && n.Const? && Writable(n.v)
    case CaseFold(_, a) => Supported(a)
    case Column => true
    case Const(v) => Writable(v)
    case Unsupported => false
  }

  predicate AllSupported(es: Exprs)
    decreases es
  {
    es.Nil? || (Supported(es.head) && AllSupported(es.tail))
  }

  /** An expression is accepted if and only if all its nodes are supported, whatever the column is called. */
  lemma {:induction false} AcceptedIff(e: Expr, column: string)
    ensures Emits(e, column) <==> Supported(e)
    decreases e
  {
    match e
    case Not(a) => AcceptedIff(a, column);
    case IsNull(a, _) => AcceptedIff(a, column);
    case Compare(_, l, r) =>
      AcceptedIff(l, column);
      AcceptedIff(r, column);
    case Between(i, l, u, _, _) =>
      AcceptedIff(i, column);
      AcceptedIff(l, column);
      AcceptedIff(u, column);
    case Junction(or, es) => AllAcceptedIff(or, es, column);
    case StringTest(_, h, _) => AcceptedIff(h, column);
    case CaseFold(_, a) => AcceptedIff(a, column);
    case _ =>
  }

  lemma {:induction false} AllAcceptedIff(or: bool, es: Exprs, column: string)
    ensures JoinText(or, es, column).Some? <==> AllSupported(es)
    decreases es
  {
    if es.Cons? {
      AcceptedIff(es.head, column);
      AllAcceptedIff(or, es.tail, column);
    }
  }

  /**
   Over a text column, whatever can be text is taken for text, and what is taken for text is text or null.
   The parts of an AND or OR are truth values.
   */
  lemma {:induction false} TextTyped(e: Expr, v: Value, engine: Engine)
    requires (v.VText? || v.VNull?) && !e.Junction?
    ensures Eval(e, v, engine).VText? ==> IsText(e)
    ensures IsText(e) ==> Eval(e, v, engine).VText? || Eval(e, v, engine).VNull?
  {
    match e
    case Compare(_, _, _) =>
    case Between(_, _, _, _, _) =>
    case _ =>
  }

  /** So the test with a stand-in name answers for the name the clause is written with. */
  lemma AcceptanceIgnoresName(e: Expr, c: string, d: string)
    ensures Emits(e, c) <==> Emits(e, d)
  {
    AcceptedIff(e, c);
    AcceptedIff(e, d);
  }
}
