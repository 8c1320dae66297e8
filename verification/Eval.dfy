/** The expression evaluator: a tokenizer with one token of look-ahead, and a recursive-descent
    evaluator for expressions that associate to the right. */
module Eval {

  datatype Token = Ident | Const | Plus | Minus | Mult | Div | OParen | CParen | Eof | Invalid

  datatype Error = NoError | Unmatched | NoTerm | DivByZero | BadConst | BadExpr | UndefVar

  // ----- tokens

  predicate IsSpace(c: char) {
    c == ' ' || c == '\t'
  }

  predicate IdentChar(c: char) {
    'a' <= c <= 'z' || 'A' <= c <= 'Z' || c == '_' || c == '$'
  }

  predicate ConstChar(c: char) {
    '0' <= c <= '9' || c == '.'
  }

  /** The kind of token a character starts. */
  function KindOf(c: char): Token {
    if IdentChar(c) then Ident
    else if ConstChar(c) then Const
    else if c == '+' then Plus
    else if c == '-' then Minus
    else if c == '*' then Mult
    else if c == '/' then Div
    else if c == '(' then OParen
    else if c == ')' then CParen
    else Invalid
  }

  function Lower(c: char): char {
    if 'A' <= c <= 'Z' then (c as int + 32) as char else c
  }

  function SkipSpace(s: string, i: nat): (j: nat)
    requires i <= |s|
    ensures i <= j <= |s| && (j < |s| ==> !IsSpace(s[j])) && forall k :: i <= k < j ==> IsSpace(s[k])
    decreases |s| - i
  {
    if i < |s| && IsSpace(s[i]) then SkipSpace(s, i + 1) else i
  }

  function IdentEnd(s: string, i: nat): (j: nat)
    requires i <= |s|
    ensures i <= j <= |s|
    decreases |s| - i
  {
    if i < |s| && (IdentChar(s[i]) || ConstChar(s[i])) then IdentEnd(s, i + 1) else i
  }

  /** A numeral goes on with digits and points, a sign after an e, letters e and x, and after
      an x the hexadecimal letters. */
  predicate GoesOn(c: char, last: char, allowHex: bool) {
    || ConstChar(c) || (c == '-' && last == 'e') || (c == '+' && last == 'e')
    || Lower(c) == 'e' || Lower(c) == 'x' || (allowHex && 'a' <= Lower(c) <= 'f')
  }

  function ConstEnd(s: string, i: nat, last: char, allowHex: bool): (j: nat)
    requires i <= |s|
    ensures i <= j <= |s|
    decreases |s| - i
  {
    if i < |s| && GoesOn(s[i], last, allowHex)
    then ConstEnd(s, i + 1, Lower(s[i]), allowHex || s[i] == 'x' || s[i] == 'X') else i
  }

  /** A token, its text and the position behind it. */
  datatype Lexeme = Lexeme(tok: Token, text: string, end: nat)

  function Next(s: string, i: nat): (x: Lexeme)
    requires i <= |s|
    ensures i <= x.end <= |s|
    ensures x.tok == Eof ==> x.end == |s|
    ensures x.tok != Eof ==> i < x.end
  {
    var j := SkipSpace(s, i);
    if j == |s| then Lexeme(Eof, "", j)
    else
      var end := match KindOf(s[j])
        case Ident => IdentEnd(s, j + 1)
        case Const => ConstEnd(s, j + 1, '\0', false)
        case _ => j + 1;
      Lexeme(KindOf(s[j]), s[j..end], end)
  }

  /** Size of the buffer that holds the text of a token and its terminator. */
  const TOK_BUF := 512

  /** The token does not fit: the tokenizer writes past the end of its buffer. */
  predicate Long(text: string) {
    |text| >= TOK_BUF
  }

  /** The evaluator's input state.  `peek` holds a token already read, or Invalid when there is
      none; so an unrecognised character is dropped by the peek that meets it.  `overran` says
      that a token read so far did not fit its buffer. */
  datatype Input = Input(p: nat, lastp: nat, peek: Token, text: string, overran: bool)

  const FRESH := Input(0, 0, Invalid, "", false)

  datatype Got = Got(tok: Token, x: Input)

  function Get(s: string, x: Input): (g: Got)
    requires x.p <= |s|
    ensures g.x.p <= |s| && (x.overran ==> g.x.overran)
  {
    if x.peek != Invalid then Got(x.peek, x.(peek := Invalid))
    else var l := Next(s, x.p); Got(l.tok, x.(p := l.end, text := l.text, overran := x.overran || Long(l.text)))
  }

  function Peek(s: string, x: Input): (g: Got)
    requires x.p <= |s|
    ensures g.x.p <= |s| && g.tok == g.x.peek && (x.overran ==> g.x.overran)
  {
    if x.peek != Invalid then Got(x.peek, x)
    else var g := Get(s, x.(lastp := x.p)); Got(g.tok, g.x.(peek := g.tok))
  }

  /** Input not yet used; a token peeked at but not taken counts one. */
  function Unread(s: string, x: Input): nat
    requires x.p <= |s|
  {
    |s| - x.p + (if x.peek != Invalid && x.peek != Eof then 1 else 0)
  }

  lemma PeekUses(s: string, x: Input)
    requires x.p <= |s|
    ensures Unread(s, Peek(s, x).x) <= Unread(s, x)
    ensures var g := Peek(s, x); g.tok != Eof && g.tok != Invalid ==> Unread(s, Get(s, g.x).x) < Unread(s, x)
  {
  }

  // ----- evaluation

  /** A value, and the error set on the way to it if there was one. */
  datatype Outcome<V> = Outcome(v: V, e: Error)

  /** The arithmetic of the value types, the symbol table and the conversion of constants. */
  datatype Ops<!V> = Ops(errValue: V, add: (V, V) -> Outcome<V>, sub: (V, V) -> Outcome<V>,
                        mult: (V, V) -> Outcome<V>, div: (V, V) -> Outcome<V>, neg: V -> Outcome<V>,
                        isZero: V -> bool, ident: string -> Outcome<V>, constant: string -> Outcome<V>)
  {
    /** The error value, if there was an error. */
    function Checked(v: V, e: Error): Outcome<V> {
      if e == NoError then Outcome(v, e) else Outcome(errValue, e)
    }

    /** An operation on the left value and the outcome of the right side, which is evaluated
        even if the right side failed and whose own error then prevails. */
    function Combined(o: Outcome<V>, right: Error): Outcome<V> {
      Checked(o.v, if o.e != NoError then o.e else right)
    }

    function Divided(v: V, w: V): Outcome<V> {
      if isZero(w) then Outcome(errValue, DivByZero) else div(v, w)
    }
  }

  datatype Result<V> = Result(o: Outcome<V>, x: Input)

  ghost predicate Progress<V>(s: string, x: Input, r: Result<V>)
    requires x.p <= |s|
  {
    && r.x.p <= |s| && Unread(s, r.x) <= Unread(s, x) && (x.overran ==> r.x.overran)
    && (r.o.e == NoError ==> Unread(s, r.x) < Unread(s, x))
  }

  function Factor<V>(ops: Ops<V>, s: string, x: Input): (r: Result<V>)
    requires x.p <= |s|
    ensures Progress(s, x, r)
    decreases Unread(s, x), 0
  {
    var g := Peek(s, x);
    PeekUses(s, x);
    var x1 := Get(s, g.x).x;
    match g.tok
    case OParen => ParenRest(ops, s, x1)
    case Minus =>
      var r := Factor(ops, s, x1);
      if r.o.e != NoError then Result(ops.Checked(r.o.v, r.o.e), r.x) else Result(ops.neg(r.o.v), r.x)
    case Ident => var o := ops.ident(x1.text); Result(ops.Checked(o.v, o.e), x1)
    case Const => var o := ops.constant(x1.text); Result(ops.Checked(o.v, o.e), x1)
    case _ => Result(Outcome(ops.errValue, NoTerm), g.x)
  }

  /** What follows the opening parenthesis of a factor. */
  function ParenRest<V>(ops: Ops<V>, s: string, x: Input): (r: Result<V>)
    requires x.p <= |s|
    ensures Progress(s, x, r)
    decreases Unread(s, x), 3
  {
    var r := Expr(ops, s, x);
    if r.o.e != NoError then Result(ops.Checked(r.o.v, r.o.e), r.x)
    else
      var g := Peek(s, r.x);
      PeekUses(s, r.x);
      if g.tok != CParen then Result(Outcome(ops.errValue, Unmatched), g.x)
      else Result(r.o, Get(s, g.x).x)
  }

  function Term<V>(ops: Ops<V>, s: string, x: Input): (r: Result<V>)
    requires x.p <= |s|
    ensures Progress(s, x, r)
    decreases Unread(s, x), 1
  {
    var r := Factor(ops, s, x);
    if r.o.e != NoError then Result(ops.Checked(r.o.v, r.o.e), r.x)
    else
      var g := Peek(s, r.x);
      PeekUses(s, r.x);
      match g.tok
      case Mult =>
        var q := Term(ops, s, Get(s, g.x).x);
        Result(ops.Combined(ops.mult(r.o.v, q.o.v), q.o.e), q.x)
      case Div =>
        var q := Term(ops, s, Get(s, g.x).x);
        if q.o.e != NoError then Result(ops.Checked(q.o.v, q.o.e), q.x)
        else Result(ops.Divided(r.o.v, q.o.v), q.x)
      case _ => Result(r.o, g.x)
  }

  function Expr<V>(ops: Ops<V>, s: string, x: Input): (r: Result<V>)
    requires x.p <= |s|
    ensures Progress(s, x, r)
    decreases Unread(s, x), 2
  {
    var r := Term(ops, s, x);
    if r.o.e != NoError then Result(ops.Checked(r.o.v, r.o.e), r.x)
    else
      var g := Peek(s, r.x);
      PeekUses(s, r.x);
      match g.tok
      case Plus =>
        var q := Expr(ops, s, Get(s, g.x).x);
        Result(ops.Combined(ops.add(r.o.v, q.o.v), q.o.e), q.x)
      case Minus =>
        var q := Expr(ops, s, Get(s, g.x).x);
        Result(ops.Combined(ops.sub(r.o.v, q.o.v), q.o.e), q.x)
      case _ => Result(r.o, g.x)
  }

  /** What evaluating a string gives: `end` is the first position not used.  Nothing is known
      of an evaluation that overruns the token buffer. */
  datatype Evaluation<V> = Evaluation(o: Outcome<V>, end: nat) | Overrun

  function EvalExpr<V>(ops: Ops<V>, s: string): Evaluation<V> {
    var r := Expr(ops, s, FRESH);
    if r.x.overran then Overrun else Evaluation(r.o, if r.x.peek != Invalid then r.x.lastp else r.x.p)
  }

  // ----- tokens too long for the buffer

  /** Position q is reached from position i token by token. */
  predicate Steps(s: string, i: nat, q: nat)
    decreases |s| - i
  {
    i <= |s| && (i == q || (Next(s, i).tok != Eof && Steps(s, Next(s, i).end, q))
                 || (Next(s, i).tok == Eof && q == |s|))
  }

  /** One of the tokens read from position i up to position q is too long. */
  predicate LongBetween(s: string, i: nat, q: nat)
    requires i <= |s|
    decreases |s| - i
  {
    i < q && Next(s, i).tok != Eof && (Long(Next(s, i).text) || LongBetween(s, Next(s, i).end, q))
  }

  lemma {:induction false} StepsUp(s: string, i: nat, q: nat)
    requires Steps(s, i, q)
    ensures i <= q <= |s|
    decreases |s| - i
  {
    if i != q && Next(s, i).tok != Eof { StepsUp(s, Next(s, i).end, q); }
  }

  lemma {:induction false} StepsOn(s: string, i: nat, q: nat, r: nat)
    requires Steps(s, i, q) && Steps(s, q, r)
    ensures Steps(s, i, r) && (LongBetween(s, i, r) <==> LongBetween(s, i, q) || LongBetween(s, q, r))
    decreases |s| - i
  {
    if i != q {
      StepsUp(s, i, q);
      StepsUp(s, q, r);
      if Next(s, i).tok != Eof { StepsOn(s, Next(s, i).end, q, r); }
    }
  }

  /** From x to y the tokens between were read, and the flag went up if one was too long. */
  ghost predicate Track(s: string, x: Input, y: Input) {
    && x.p <= |s| && Steps(s, x.p, y.p)
    && (y.overran <==> x.overran || LongBetween(s, x.p, y.p))
  }

  lemma TrackOn(s: string, x: Input, y: Input, z: Input)
    requires Track(s, x, y) && Track(s, y, z)
    ensures Track(s, x, z)
  {
    StepsUp(s, x.p, y.p);
    StepsOn(s, x.p, y.p, z.p);
  }

  lemma TrackGet(s: string, x: Input)
    requires x.p <= |s|
    ensures Track(s, x, Get(s, x).x)
  {
    var l := Next(s, x.p);
    assert l.tok != Eof ==> Steps(s, l.end, l.end);
  }

  lemma TrackPeek(s: string, x: Input)
    requires x.p <= |s|
    ensures Track(s, x, Peek(s, x).x) && Track(s, x, Get(s, Peek(s, x).x).x)
  {
    var y := x.(lastp := x.p);
    TrackGet(s, y);
    TrackGet(s, Peek(s, x).x);
    TrackOn(s, x, Peek(s, x).x, Get(s, Peek(s, x).x).x);
  }

  lemma {:induction false} TrackFactor<V>(ops: Ops<V>, s: string, x: Input)
    requires x.p <= |s|
    ensures Track(s, x, Factor(ops, s, x).x)
    decreases Unread(s, x), 0
  {
    TrackPeek(s, x);
    PeekUses(s, x);
    var g := Peek(s, x);
    var x1 := Get(s, g.x).x;
    match g.tok
    case OParen =>
      TrackParen(ops, s, x1);
      TrackOn(s, x, x1, ParenRest(ops, s, x1).x);
    case Minus =>
      TrackFactor(ops, s, x1);
      TrackOn(s, x, x1, Factor(ops, s, x1).x);
    case _ =>
  }

  lemma {:induction false} TrackParen<V>(ops: Ops<V>, s: string, x: Input)
    requires x.p <= |s|
    ensures Track(s, x, ParenRest(ops, s, x).x)
    decreases Unread(s, x), 3
  {
    TrackExpr(ops, s, x);
    var r := Expr(ops, s, x);
    if r.o.e == NoError {
      TrackPeek(s, r.x);
      TrackOn(s, x, r.x, ParenRest(ops, s, x).x);
    }
  }

  lemma {:induction false} TrackTerm<V>(ops: Ops<V>, s: string, x: Input)
    requires x.p <= |s|
    ensures Track(s, x, Term(ops, s, x).x)
    decreases Unread(s, x), 1
  {
    TrackFactor(ops, s, x);
    var r := Factor(ops, s, x);
    if r.o.e == NoError {
      TrackPeek(s, r.x);
      PeekUses(s, r.x);
      var g := Peek(s, r.x);
      TrackOn(s, x, r.x, g.x);
      if g.tok == Mult || g.tok == Div {
        var x1 := Get(s, g.x).x;
        TrackTerm(ops, s, x1);
        TrackOn(s, r.x, x1, Term(ops, s, x1).x);
        TrackOn(s, x, r.x, Term(ops, s, x1).x);
      }
    }
  }

  lemma {:induction false} TrackExpr<V>(ops: Ops<V>, s: string, x: Input)
    requires x.p <= |s|
    ensures Track(s, x, Expr(ops, s, x).x)
    decreases Unread(s, x), 2
  {
    TrackTerm(ops, s, x);
    var r := Term(ops, s, x);
    if r.o.e == NoError {
      TrackPeek(s, r.x);
      PeekUses(s, r.x);
      var g := Peek(s, r.x);
      TrackOn(s, x, r.x, g.x);
      if g.tok == Plus || g.tok == Minus {
        var x1 := Get(s, g.x).x;
        TrackExpr(ops, s, x1);
        TrackOn(s, r.x, x1, Expr(ops, s, x1).x);
        TrackOn(s, x, r.x, Expr(ops, s, x1).x);
      }
    }
  }

  /** Main result: for any string, evaluation overruns the token buffer exactly when one of the
      tokens up to where it stops reading is too long; it never does if no token is. */
  lemma OverrunExact<V>(ops: Ops<V>, s: string)
    ensures var q := Expr(ops, s, FRESH).x.p;
      Steps(s, 0, q) && (EvalExpr(ops, s).Overrun? <==> LongBetween(s, 0, q))
    ensures !LongBetween(s, 0, |s|) ==> !EvalExpr(ops, s).Overrun?
  {
    TrackExpr(ops, s, FRESH);
    var q := Expr(ops, s, FRESH).x.p;
    if LongBetween(s, 0, q) { LongToEnd(s, 0, q); }
  }

  lemma {:induction false} LongToEnd(s: string, i: nat, q: nat)
    requires i <= |s| && q <= |s| && LongBetween(s, i, q)
    ensures LongBetween(s, i, |s|)
    decreases |s| - i
  {
    if !Long(Next(s, i).text) { LongToEnd(s, Next(s, i).end, q); }
  }

  // ----- the language: expressions and their values

  datatype AExpr = OneTerm(t: ATerm) | Add(l: ATerm, r: AExpr) | Sub(l: ATerm, r: AExpr)
  datatype ATerm = OneFactor(f: AFactor) | Mul(l: AFactor, r: ATerm) | Quo(l: AFactor, r: ATerm)
  datatype AFactor = Paren(e: AExpr) | Neg(f: AFactor) | Name(text: string) | Num(text: string)

  function ValueF<V>(ops: Ops<V>, f: AFactor): Outcome<V> {
    match f
    case Paren(e) => var o := ValueE(ops, e); ops.Checked(o.v, o.e)
    case Neg(g) => var o := ValueF(ops, g); if o.e != NoError then ops.Checked(o.v, o.e) else ops.neg(o.v)
    case Name(t) => var o := ops.ident(t); ops.Checked(o.v, o.e)
    case Num(t) => var o := ops.constant(t); ops.Checked(o.v, o.e)
  }

  function ValueT<V>(ops: Ops<V>, t: ATerm): Outcome<V> {
    match t
    case OneFactor(f) => var o := ValueF(ops, f); ops.Checked(o.v, o.e)
    case Mul(l, r) =>
      var o := ValueF(ops, l);
      if o.e != NoError then ops.Checked(o.v, o.e)
      else var q := ValueT(ops, r); ops.Combined(ops.mult(o.v, q.v), q.e)
    case Quo(l, r) =>
      var o := ValueF(ops, l);
      if o.e != NoError then ops.Checked(o.v, o.e)
      else
        var q := ValueT(ops, r);
        if q.e != NoError then ops.Checked(q.v, q.e) else ops.Divided(o.v, q.v)
  }

  function ValueE<V>(ops: Ops<V>, e: AExpr): Outcome<V> {
    match e
    case OneTerm(t) => var o := ValueT(ops, t); ops.Checked(o.v, o.e)
    case Add(l, r) =>
      var o := ValueT(ops, l);
      if o.e != NoError then ops.Checked(o.v, o.e)
      else var q := ValueE(ops, r); ops.Combined(ops.add(o.v, q.v), q.e)
    case Sub(l, r) =>
      var o := ValueT(ops, l);
      if o.e != NoError then ops.Checked(o.v, o.e)
      else var q := ValueE(ops, r); ops.Combined(ops.sub(o.v, q.v), q.e)
  }

  // ----- its words

  datatype Piece = Piece(tok: Token, text: string)

  function PiecesF(f: AFactor): (ps: seq<Piece>)
    ensures ps != []
  {
    match f
    case Paren(e) => [Piece(OParen, "(")] + PiecesE(e) + [Piece(CParen, ")")]
    case Neg(g) => [Piece(Minus, "-")] + PiecesF(g)
    case Name(t) => [Piece(Ident, t)]
    case Num(t) => [Piece(Const, t)]
  }

  function PiecesT(t: ATerm): (ps: seq<Piece>)
    ensures ps != []
  {
    match t
    case OneFactor(f) => PiecesF(f)
    case Mul(l, r) => PiecesF(l) + [Piece(Mult, "*")] + PiecesT(r)
    case Quo(l, r) => PiecesF(l) + [Piece(Div, "/")] + PiecesT(r)
  }

  function PiecesE(e: AExpr): (ps: seq<Piece>)
    ensures ps != []
  {
    match e
    case OneTerm(t) => PiecesT(t)
    case Add(l, r) => PiecesT(l) + [Piece(Plus, "+")] + PiecesE(r)
    case Sub(l, r) => PiecesT(l) + [Piece(Minus, "-")] + PiecesE(r)
  }

  /** From position i on, the tokens of s are ps. */
  predicate Spells(s: string, i: nat, ps: seq<Piece>)
    decreases |ps|
  {
    i <= |s| && (ps == [] || var l := Next(s, i);
      l.tok == ps[0].tok && l.text == ps[0].text && l.tok != Invalid && l.tok != Eof && Spells(s, l.end, ps[1..]))
  }

  function EndOf(s: string, i: nat, ps: seq<Piece>): (j: nat)
    requires Spells(s, i, ps)
    ensures i <= j <= |s|
    decreases |ps|
  {
    if ps == [] then i else EndOf(s, Next(s, i).end, ps[1..])
  }

  lemma {:induction false} SpellsConcat(s: string, i: nat, ps: seq<Piece>, qs: seq<Piece>)
    requires Spells(s, i, ps + qs)
    ensures Spells(s, i, ps) && Spells(s, EndOf(s, i, ps), qs)
    ensures EndOf(s, i, ps + qs) == EndOf(s, EndOf(s, i, ps), qs)
    decreases |ps|
  {
    if ps == [] {
      assert ps + qs == qs;
    } else {
      assert (ps + qs)[1..] == ps[1..] + qs;
      SpellsConcat(s, Next(s, i).end, ps[1..], qs);
    }
  }

  lemma SpellsOne(s: string, i: nat, p: Piece)
    requires Spells(s, i, [p])
    ensures Next(s, i) == Lexeme(p.tok, p.text, EndOf(s, i, [p])) && p.tok != Invalid && p.tok != Eof
  {
  }

  // ----- reading

  /** The next unused token of the input is the one at position i. */
  predicate At(s: string, x: Input, i: nat) {
    && x.p <= |s| && i <= |s|
    && if x.peek == Invalid then x.p == i
       else var l := Next(s, i); x.peek == l.tok && x.p == l.end && x.lastp == i && x.text == l.text
  }

  lemma PeekAt(s: string, x: Input, i: nat)
    requires At(s, x, i) && Next(s, i).tok != Invalid
    ensures var g := Peek(s, x); g.tok == Next(s, i).tok && At(s, g.x, i) && g.x.peek != Invalid
    ensures var y := Get(s, Peek(s, x).x).x; At(s, y, Next(s, i).end) && y.peek == Invalid && y.text == Next(s, i).text
  {
  }

  /** A peek loses no token, except that an unrecognised character is dropped. */
  lemma PeekKeeps(s: string, x: Input, i: nat)
    requires At(s, x, i)
    ensures At(s, Peek(s, x).x, i) <==> Next(s, i).tok != Invalid
  {
  }

  /** Reading f from position i leaves the input at j with value o. */
  ghost predicate Reads<V>(s: string, r: Result<V>, o: Outcome<V>, j: nat) {
    r.o == o && (o.e == NoError ==> At(s, r.x, j))
  }

  lemma {:induction false} FactorReads<V>(ops: Ops<V>, s: string, x: Input, i: nat, f: AFactor)
    requires At(s, x, i) && Spells(s, i, PiecesF(f))
    ensures Reads(s, Factor(ops, s, x), ValueF(ops, f), EndOf(s, i, PiecesF(f)))
    decreases f, 0
  {
    match f
    case Paren(e) => ParenReads(ops, s, x, i, e);
    case Neg(g) =>
      SpellsConcat(s, i, [Piece(Minus, "-")], PiecesF(g));
      SpellsOne(s, i, Piece(Minus, "-"));
      PeekAt(s, x, i);
      FactorReads(ops, s, Get(s, Peek(s, x).x).x, Next(s, i).end, g);
    case Name(t) =>
      SpellsOne(s, i, Piece(Ident, t));
      PeekAt(s, x, i);
    case Num(t) =>
      SpellsOne(s, i, Piece(Const, t));
      PeekAt(s, x, i);
  }

  lemma {:induction false} ParenReads<V>(ops: Ops<V>, s: string, x: Input, i: nat, e: AExpr)
    requires At(s, x, i) && Spells(s, i, PiecesF(Paren(e)))
    ensures Reads(s, Factor(ops, s, x), ValueF(ops, Paren(e)), EndOf(s, i, PiecesF(Paren(e))))
    decreases e, 3
  {
    var open, close := [Piece(OParen, "(")], [Piece(CParen, ")")];
    SpellsConcat(s, i, open + PiecesE(e), close);
    SpellsConcat(s, i, open, PiecesE(e));
    SpellsOne(s, i, open[0]);
    PeekAt(s, x, i);
    var y := Get(s, Peek(s, x).x).x;
    var j := EndOf(s, Next(s, i).end, PiecesE(e));
    SpellsOne(s, j, close[0]);
    ExprReads(ops, s, y, Next(s, i).end, e);
    var r := Expr(ops, s, y);
    if r.o.e == NoError { PeekAt(s, r.x, j); }
  }

  /** What may follow a term, and an expression. */
  predicate EndsTerm(t: Token) {
    t != Mult && t != Div && t != Invalid
  }

  predicate EndsExpr(t: Token) {
    EndsTerm(t) && t != Plus && t != Minus
  }

  lemma {:induction false} TermReads<V>(ops: Ops<V>, s: string, x: Input, i: nat, t: ATerm)
    requires At(s, x, i) && Spells(s, i, PiecesT(t)) && EndsTerm(Next(s, EndOf(s, i, PiecesT(t))).tok)
    ensures Reads(s, Term(ops, s, x), ValueT(ops, t), EndOf(s, i, PiecesT(t)))
    ensures ValueT(ops, t).e == NoError ==> Term(ops, s, x).x.peek != Invalid
    decreases t, 1
  {
    match t
    case OneFactor(f) =>
      FactorReads(ops, s, x, i, f);
      var r := Factor(ops, s, x);
      if r.o.e == NoError { PeekAt(s, r.x, EndOf(s, i, PiecesF(f))); }
    case Mul(l, q) =>
      MulReads(ops, s, x, i, l, q);
    case Quo(l, q) =>
      QuoReads(ops, s, x, i, l, q);
  }

  /** An operand, an operator and the rest: where each part lies. */
  lemma OperandRead(s: string, i: nat, ps: seq<Piece>, p: Piece, qs: seq<Piece>)
    requires Spells(s, i, ps + [p] + qs)
    ensures Spells(s, i, ps)
    ensures var j := EndOf(s, i, ps);
      && Next(s, j).tok == p.tok != Invalid && p.tok != Eof && Spells(s, Next(s, j).end, qs)
      && EndOf(s, Next(s, j).end, qs) == EndOf(s, i, ps + [p] + qs)
  {
    SpellsConcat(s, i, ps + [p], qs);
    SpellsConcat(s, i, ps, [p]);
    SpellsOne(s, EndOf(s, i, ps), p);
  }

  lemma MulValue<V>(ops: Ops<V>, s: string, o: Outcome<V>, y: Result<V>, t: Result<V>, l: AFactor, q: ATerm, j: nat)
    requires o == ValueF(ops, l) && o.e == NoError
    requires Reads(s, y, ValueT(ops, q), j) && (ValueT(ops, q).e == NoError ==> y.x.peek != Invalid)
    requires t == Result(ops.Combined(ops.mult(o.v, y.o.v), y.o.e), y.x)
    ensures Reads(s, t, ValueT(ops, Mul(l, q)), j)
    ensures ValueT(ops, Mul(l, q)).e == NoError ==> t.x.peek != Invalid
  {
  }

  lemma {:induction false} MulReads<V>(ops: Ops<V>, s: string, x: Input, i: nat, l: AFactor, q: ATerm)
    requires At(s, x, i) && Spells(s, i, PiecesT(Mul(l, q))) && EndsTerm(Next(s, EndOf(s, i, PiecesT(Mul(l, q)))).tok)
    ensures Reads(s, Term(ops, s, x), ValueT(ops, Mul(l, q)), EndOf(s, i, PiecesT(Mul(l, q))))
    ensures ValueT(ops, Mul(l, q)).e == NoError ==> Term(ops, s, x).x.peek != Invalid
    decreases Mul(l, q), 0
  {
    OperandRead(s, i, PiecesF(l), Piece(Mult, "*"), PiecesT(q));
    FactorReads(ops, s, x, i, l);
    var r, j := Factor(ops, s, x), EndOf(s, i, PiecesF(l));
    if r.o.e == NoError {
      PeekAt(s, r.x, j);
      var y := Get(s, Peek(s, r.x).x).x;
      TermReads(ops, s, y, Next(s, j).end, q);
      TermTimes(ops, s, x);
      MulValue(ops, s, r.o, Term(ops, s, y), Term(ops, s, x), l, q, EndOf(s, Next(s, j).end, PiecesT(q)));
    }
  }

  lemma ExprPlus<V>(ops: Ops<V>, s: string, x: Input)
    requires x.p <= |s| && Term(ops, s, x).o.e == NoError
    ensures var r := Term(ops, s, x); var g := Peek(s, r.x);
      && (g.tok == Plus ==> var q := Expr(ops, s, Get(s, g.x).x);
            Expr(ops, s, x) == Result(ops.Combined(ops.add(r.o.v, q.o.v), q.o.e), q.x))
      && (g.tok == Minus ==> var q := Expr(ops, s, Get(s, g.x).x);
            Expr(ops, s, x) == Result(ops.Combined(ops.sub(r.o.v, q.o.v), q.o.e), q.x))
  {
  }

  lemma TermTimes<V>(ops: Ops<V>, s: string, x: Input)
    requires x.p <= |s| && Factor(ops, s, x).o.e == NoError
    ensures var r := Factor(ops, s, x); var g := Peek(s, r.x);
      && (g.tok == Mult ==> var q := Term(ops, s, Get(s, g.x).x);
            Term(ops, s, x) == Result(ops.Combined(ops.mult(r.o.v, q.o.v), q.o.e), q.x))
  {
  }

  lemma {:induction false} QuoReads<V>(ops: Ops<V>, s: string, x: Input, i: nat, l: AFactor, q: ATerm)
    requires At(s, x, i) && Spells(s, i, PiecesT(Quo(l, q))) && EndsTerm(Next(s, EndOf(s, i, PiecesT(Quo(l, q)))).tok)
    ensures Reads(s, Term(ops, s, x), ValueT(ops, Quo(l, q)), EndOf(s, i, PiecesT(Quo(l, q))))
    ensures ValueT(ops, Quo(l, q)).e == NoError ==> Term(ops, s, x).x.peek != Invalid
    decreases Quo(l, q), 0
  {
    OperandRead(s, i, PiecesF(l), Piece(Div, "/"), PiecesT(q));
    FactorReads(ops, s, x, i, l);
    var r, j := Factor(ops, s, x), EndOf(s, i, PiecesF(l));
    if r.o.e == NoError {
      PeekAt(s, r.x, j);
      TermReads(ops, s, Get(s, Peek(s, r.x).x).x, Next(s, j).end, q);
    }
  }

  lemma {:induction false} ExprReads<V>(ops: Ops<V>, s: string, x: Input, i: nat, e: AExpr)
    requires At(s, x, i) && Spells(s, i, PiecesE(e)) && EndsExpr(Next(s, EndOf(s, i, PiecesE(e))).tok)
    ensures Reads(s, Expr(ops, s, x), ValueE(ops, e), EndOf(s, i, PiecesE(e)))
    ensures ValueE(ops, e).e == NoError ==> Expr(ops, s, x).x.peek != Invalid
    decreases e, 2
  {
    match e
    case OneTerm(t) =>
      TermReads(ops, s, x, i, t);
      var r := Term(ops, s, x);
      if r.o.e == NoError { PeekAt(s, r.x, EndOf(s, i, PiecesT(t))); }
    case Add(l, q) =>
      AddReads(ops, s, x, i, l, q);
    case Sub(l, q) =>
      SubReads(ops, s, x, i, l, q);
  }

  lemma {:induction false} AddReads<V>(ops: Ops<V>, s: string, x: Input, i: nat, l: ATerm, q: AExpr)
    requires At(s, x, i) && Spells(s, i, PiecesE(Add(l, q))) && EndsExpr(Next(s, EndOf(s, i, PiecesE(Add(l, q)))).tok)
    ensures Reads(s, Expr(ops, s, x), ValueE(ops, Add(l, q)), EndOf(s, i, PiecesE(Add(l, q))))
    ensures ValueE(ops, Add(l, q)).e == NoError ==> Expr(ops, s, x).x.peek != Invalid
    decreases Add(l, q), 0
  {
    OperandRead(s, i, PiecesT(l), Piece(Plus, "+"), PiecesE(q));
    TermReads(ops, s, x, i, l);
    var r, j := Term(ops, s, x), EndOf(s, i, PiecesT(l));
    if r.o.e == NoError {
      PeekAt(s, r.x, j);
      ExprReads(ops, s, Get(s, Peek(s, r.x).x).x, Next(s, j).end, q);
      ExprPlus(ops, s, x);
    }
  }

  lemma {:induction false} SubReads<V>(ops: Ops<V>, s: string, x: Input, i: nat, l: ATerm, q: AExpr)
    requires At(s, x, i) && Spells(s, i, PiecesE(Sub(l, q))) && EndsExpr(Next(s, EndOf(s, i, PiecesE(Sub(l, q)))).tok)
    ensures Reads(s, Expr(ops, s, x), ValueE(ops, Sub(l, q)), EndOf(s, i, PiecesE(Sub(l, q))))
    ensures ValueE(ops, Sub(l, q)).e == NoError ==> Expr(ops, s, x).x.peek != Invalid
    decreases Sub(l, q), 0
  {
    OperandRead(s, i, PiecesT(l), Piece(Minus, "-"), PiecesE(q));
    TermReads(ops, s, x, i, l);
    var r, j := Term(ops, s, x), EndOf(s, i, PiecesT(l));
    if r.o.e == NoError {
      PeekAt(s, r.x, j);
      ExprReads(ops, s, Get(s, Peek(s, r.x).x).x, Next(s, j).end, q);
      ExprPlus(ops, s, x);
    }
  }

  /** One of the pieces is too long. */
  predicate LongIn(ps: seq<Piece>) {
    ps != [] && (Long(ps[0].text) || LongIn(ps[1..]))
  }

  lemma {:induction false} LongSpelled(s: string, i: nat, ps: seq<Piece>)
    requires Spells(s, i, ps)
    ensures var j := EndOf(s, i, ps); Steps(s, i, j) && (LongBetween(s, i, j) <==> LongIn(ps))
    decreases |ps|
  {
    if ps != [] {
      LongSpelled(s, Next(s, i).end, ps[1..]);
      StepsUp(s, Next(s, i).end, EndOf(s, i, ps));
    }
  }

  /** The tokens up to one past an expression. */
  lemma LongThrough(s: string, ps: seq<Piece>)
    requires Spells(s, 0, ps)
    ensures var j := EndOf(s, 0, ps);
      LongBetween(s, 0, Next(s, j).end) <==> LongIn(ps) || Long(Next(s, j).text)
  {
    var j := EndOf(s, 0, ps);
    LongSpelled(s, 0, ps);
    TrackGet(s, Input(j, 0, Invalid, "", false));
    StepsOn(s, 0, j, Next(s, j).end);
  }

  /** Main result: whatever string spells an expression, however spaced, evaluates to the
      right-associative value of the expression, with the error of its leftmost failure, and
      on success the end pointer stands behind its last token.  The condition is that the
      tokens fit: a successful evaluation overruns the buffer exactly when one of the
      expression, or the one that follows it, is too long. */
  lemma EvalReads<V>(ops: Ops<V>, s: string, e: AExpr)
    requires Spells(s, 0, PiecesE(e)) && EndsExpr(Next(s, EndOf(s, 0, PiecesE(e))).tok)
    ensures var v, d, j := EvalExpr(ops, s), ValueE(ops, e), EndOf(s, 0, PiecesE(e));
      && (v.Overrun? || (v.o == d && (d.e == NoError ==> v.end == j)))
      && (d.e == NoError ==> (v.Overrun? <==> LongIn(PiecesE(e)) || Long(Next(s, j).text)))
      && (!LongBetween(s, 0, |s|) ==> !v.Overrun?)
  {
    ExprReads(ops, s, FRESH, 0, e);
    OverrunExact(ops, s);
    LongThrough(s, PiecesE(e));
  }

  // ----- printing

  /** Text that the tokenizer takes as one token of its kind. */
  predicate ValidPiece(p: Piece) {
    match p.tok
    case Ident =>
      && p.text != "" && IdentChar(p.text[0])
      && forall k :: 0 <= k < |p.text| ==> IdentChar(p.text[k]) || ConstChar(p.text[k])
    case Const => p.text != "" && ConstChar(p.text[0]) && ConstEnd(p.text, 1, '\0', false) == |p.text|
    case Invalid => false
    case Eof => false
    case Plus => p.text == "+"
    case Minus => p.text == "-"
    case Mult => p.text == "*"
    case Div => p.text == "/"
    case OParen => p.text == "("
    case CParen => p.text == ")"
  }

  /** The names and numerals of a tree are tokens. */
  predicate ProperF(f: AFactor) {
    match f
    case Paren(e) => ProperE(e)
    case Neg(g) => ProperF(g)
    case Name(t) => ValidPiece(Piece(Ident, t))
    case Num(t) => ValidPiece(Piece(Const, t))
  }

  predicate ProperT(t: ATerm) {
    match t
    case OneFactor(f) => ProperF(f)
    case Mul(l, r) => ProperF(l) && ProperT(r)
    case Quo(l, r) => ProperF(l) && ProperT(r)
  }

  predicate ProperE(e: AExpr) {
    match e
    case OneTerm(t) => ProperT(t)
    case Add(l, r) => ProperT(l) && ProperE(r)
    case Sub(l, r) => ProperT(l) && ProperE(r)
  }

  ghost predicate AllValid(ps: seq<Piece>) {
    forall k :: 0 <= k < |ps| ==> ValidPiece(ps[k])
  }

  lemma {:induction false} ValidF(f: AFactor)
    requires ProperF(f)
    ensures AllValid(PiecesF(f))
  {
    match f
    case Paren(e) => ValidE(e);
    case Neg(g) => ValidF(g);
    case _ =>
  }

  lemma {:induction false} ValidT(t: ATerm)
    requires ProperT(t)
    ensures AllValid(PiecesT(t))
  {
    match t
    case OneFactor(f) => ValidF(f);
    case Mul(l, r) => ValidF(l); ValidT(r);
    case Quo(l, r) => ValidF(l); ValidT(r);
  }

  lemma {:induction false} ValidE(e: AExpr)
    requires ProperE(e)
    ensures AllValid(PiecesE(e))
  {
    match e
    case OneTerm(t) => ValidT(t);
    case Add(l, r) => ValidT(l); ValidE(r);
    case Sub(l, r) => ValidT(l); ValidE(r);
  }

  /** What each character starts: letters, underscore and dollar a name, digits and points a
      numeral, and nothing but the six operators is a token of its own. */
  lemma CharKinds(c: char)
    ensures KindOf(c) == Ident <==> c in "_$" || 'a' <= c <= 'z' || 'A' <= c <= 'Z'
    ensures KindOf(c) == Const <==> c == '.' || '0' <= c <= '9'
    ensures KindOf(c) == Invalid <==> KindOf(c) != Ident && KindOf(c) != Const && c !in "+-*/()"
    ensures forall k :: 0 <= k < 6 ==> KindOf("+-*/()"[k]) == [Plus, Minus, Mult, Div, OParen, CParen][k]
  {
    assert c in "+-*/()" <==> c == '+' || c == '-' || c == '*' || c == '/' || c == '(' || c == ')';
  }

  /** Plain digits, and points among them. */
  predicate Decimal(t: string) {
    t != "" && forall k :: 0 <= k < |t| ==> '0' <= t[k] <= '9' || t[k] == '.'
  }

  predicate HexDigits(t: string) {
    forall k :: 0 <= k < |t| ==> '0' <= t[k] <= '9' || 'a' <= t[k] <= 'f' || 'A' <= t[k] <= 'F'
  }

  /** Decimal numerals, with an exponent or without, are tokens; and so are hexadecimal ones. */
  lemma NumeralsAreTokens(t: string, exponent: string)
    requires Decimal(t) && Decimal(exponent)
    ensures ValidPiece(Piece(Const, t)) && ValidPiece(Piece(Const, t + "e" + exponent))
    ensures ValidPiece(Piece(Const, t + "e-" + exponent)) && ValidPiece(Piece(Const, t + "E+" + exponent))
  {
    DigitsGoOn(t, 1, '\0', false);
    var a, b, c := t + "e" + exponent, t + "e-" + exponent, t + "E+" + exponent;
    ToExponent(t, a, 1, '\0');
    DigitsGoOn(a, |t| + 1, 'e', false);
    ToExponent(t, b, 1, '\0');
    DigitsGoOn(b, |t| + 2, '-', false);
    ToExponent(t, c, 1, '\0');
    DigitsGoOn(c, |t| + 2, '+', false);
  }

  lemma HexNumerals(t: string)
    requires HexDigits(t)
    ensures ValidPiece(Piece(Const, "0x" + t)) && ValidPiece(Piece(Const, "0X" + t))
  {
    HexGoOn("0x" + t, 2, 'x');
    HexGoOn("0X" + t, 2, 'x');
  }

  lemma {:induction false} DigitsGoOn(s: string, i: nat, last: char, allowHex: bool)
    requires i <= |s| && forall k :: i <= k < |s| ==> '0' <= s[k] <= '9' || s[k] == '.'
    ensures ConstEnd(s, i, last, allowHex) == |s|
    decreases |s| - i
  {
    if i < |s| { DigitsGoOn(s, i + 1, Lower(s[i]), allowHex); }
  }

  /** Past the mantissa t and the e behind it. */
  lemma {:induction false} ToExponent(t: string, s: string, i: nat, last: char)
    requires i <= |t| < |s| && t == s[..|t|] && Lower(s[|t|]) == 'e'
    requires forall k :: i <= k < |t| ==> '0' <= t[k] <= '9' || t[k] == '.'
    ensures ConstEnd(s, i, last, false) == ConstEnd(s, |t| + 1, 'e', false)
    decreases |t| - i
  {
    if i < |t| { ToExponent(t, s, i + 1, Lower(s[i])); }
  }

  lemma {:induction false} HexGoOn(s: string, i: nat, last: char)
    requires i <= |s| && HexDigits(s[i..])
    ensures ConstEnd(s, i, last, true) == |s|
    decreases |s| - i
  {
    if i < |s| {
      assert s[i..][0] == s[i] && s[i..][1..] == s[i + 1..];
      HexGoOn(s, i + 1, Lower(s[i]));
    }
  }

  /** Each token behind a blank. */
  function Print(ps: seq<Piece>): string {
    if ps == [] then "" else " " + ps[0].text + Print(ps[1..])
  }

  lemma {:induction false} IdentScan(pre: string, text: string, rest: string, k: nat)
    requires k <= |text| && forall j :: 0 <= j < |text| ==> IdentChar(text[j]) || ConstChar(text[j])
    requires rest == "" || rest[0] == ' '
    ensures IdentEnd(pre + text + rest, |pre| + k) == |pre| + |text|
    decreases |text| - k
  {
    var s := pre + text + rest;
    if k < |text| {
      assert s[|pre| + k] == text[k];
      IdentScan(pre, text, rest, k + 1);
    } else if rest != "" {
      assert s[|pre| + k] == ' ';
    }
  }

  lemma {:induction false} ConstScan(pre: string, text: string, rest: string, k: nat, last: char, hex: bool)
    requires k <= |text| && ConstEnd(text, k, last, hex) == |text|
    requires rest == "" || rest[0] == ' '
    ensures ConstEnd(pre + text + rest, |pre| + k, last, hex) == |pre| + |text|
    decreases |text| - k
  {
    var s := pre + text + rest;
    if k < |text| {
      assert s[|pre| + k] == text[k];
      ConstScan(pre, text, rest, k + 1, Lower(text[k]), hex || text[k] == 'x' || text[k] == 'X');
    } else if rest != "" {
      assert s[|pre| + k] == ' ';
    }
  }

  /** A valid token behind a blank, and before another or the end, is found whole. */
  lemma NextPrinted(pre: string, p: Piece, rest: string)
    requires ValidPiece(p) && (rest == "" || rest[0] == ' ')
    ensures Next(pre + " " + p.text + rest, |pre|) == Lexeme(p.tok, p.text, |pre| + 1 + |p.text|)
  {
    var q := pre + " ";
    var s := q + p.text + rest;
    assert s[|pre|] == ' ' && s[|q|] == p.text[0];
    FirstChar(p);
    assert SkipSpace(s, |pre|) == SkipSpace(s, |q|) == |q|;
    PieceScan(q, p, rest);
    assert s[|q|..|q| + |p.text|] == p.text;
  }

  lemma PieceScan(q: string, p: Piece, rest: string)
    requires ValidPiece(p) && (rest == "" || rest[0] == ' ')
    ensures var s, end := q + p.text + rest, |q| + |p.text|;
      && (p.tok == Ident ==> IdentEnd(s, |q| + 1) == end)
      && (p.tok == Const ==> ConstEnd(s, |q| + 1, '\0', false) == end)
      && (p.tok != Ident && p.tok != Const ==> |q| + 1 == end)
  {
    if p.tok == Ident { IdentScan(q, p.text, rest, 1); }
    if p.tok == Const { ConstScan(q, p.text, rest, 1, '\0', false); }
    hide IdentEnd, ConstEnd, IdentChar, ConstChar, KindOf;
  }

  lemma FirstChar(p: Piece)
    requires ValidPiece(p)
    ensures p.text != "" && !IsSpace(p.text[0]) && KindOf(p.text[0]) == p.tok
  {
  }

  lemma PrintStart(ps: seq<Piece>)
    ensures Print(ps) == "" || Print(ps)[0] == ' '
  {
  }

  lemma {:induction false} PrintSpells(s: string, pre: string, ps: seq<Piece>)
    requires s == pre + Print(ps) && forall k :: 0 <= k < |ps| ==> ValidPiece(ps[k])
    ensures Spells(s, |pre|, ps) && EndOf(s, |pre|, ps) == |s|
    decreases |ps|
  {
    if ps != [] {
      var p, rest := ps[0], Print(ps[1..]);
      Regroup(pre, p.text, rest);
      PrintStart(ps[1..]);
      NextPrinted(pre, p, rest);
      PrintSpells(s, pre + " " + p.text, ps[1..]);
    }
  }

  lemma Regroup(pre: string, text: string, rest: string)
    ensures pre + (" " + text + rest) == pre + " " + text + rest && |pre + " " + text| == |pre| + 1 + |text|
  {
  }

  /** Main result: a printed expression evaluates to its value and is used up, if its tokens
      fit; one that has a value overruns the buffer exactly if one of them does not. */
  lemma PrintedEvaluates<V>(ops: Ops<V>, e: AExpr)
    requires ProperE(e)
    ensures var s, d := Print(PiecesE(e)), ValueE(ops, e);
      && (!LongIn(PiecesE(e)) ==>
            EvalExpr(ops, s).Evaluation? && EvalExpr(ops, s).o == d && (d.e == NoError ==> EvalExpr(ops, s).end == |s|))
      && (d.e == NoError ==> (EvalExpr(ops, s).Overrun? <==> LongIn(PiecesE(e))))
  {
    var s := Print(PiecesE(e));
    ValidE(e);
    assert "" + s == s;
    PrintSpells(s, "", PiecesE(e));
    LongSpelled(s, 0, PiecesE(e));
    EvalReads(ops, s, e);
  }

  /** A name of 512 letters overruns the buffer, whatever it stands for. */
  lemma LongNameOverruns<V>(ops: Ops<V>)
    ensures EvalExpr(ops, seq(TOK_BUF, k => 'a')).Overrun?
  {
    var s := seq(TOK_BUF, k => 'a');
    NameScan(s, 1);
    assert Next(s, 0) == Lexeme(Ident, s[0..], |s|);
    assert Peek(s, FRESH).x.overran;
    assert Factor(ops, s, FRESH).x.overran;
    assert Term(ops, s, FRESH).x.overran;
  }

  lemma {:induction false} NameScan(s: string, i: nat)
    requires i <= |s| && forall k :: i <= k < |s| ==> IdentChar(s[k])
    ensures IdentEnd(s, i) == |s|
    decreases |s| - i
  {
    if i < |s| { NameScan(s, i + 1); }
  }
}
