/** When evaluation succeeds: exactly on text that is read as an expression all of whose parts
    are defined, and what that means for text with unrecognised characters and without. */
module EvalExact {
  import opened Options
  import opened Eval

  // ----- the value of an expression, errors aside

  function PlainF<V>(ops: Ops<V>, f: AFactor): V {
    match f
    case Paren(e) => PlainE(ops, e)
    case Neg(g) => ops.neg(PlainF(ops, g)).v
    case Name(t) => ops.ident(t).v
    case Num(t) => ops.constant(t).v
  }

  function PlainT<V>(ops: Ops<V>, t: ATerm): V {
    match t
    case OneFactor(f) => PlainF(ops, f)
    case Mul(l, r) => ops.mult(PlainF(ops, l), PlainT(ops, r)).v
    case Quo(l, r) => ops.div(PlainF(ops, l), PlainT(ops, r)).v
  }

  function PlainE<V>(ops: Ops<V>, e: AExpr): V {
    match e
    case OneTerm(t) => PlainT(ops, t)
    case Add(l, r) => ops.add(PlainT(ops, l), PlainE(ops, r)).v
    case Sub(l, r) => ops.sub(PlainT(ops, l), PlainE(ops, r)).v
  }

  /** Every name and numeral has a value, no operation fails and nothing is divided by zero. */
  predicate DefinedF<V>(ops: Ops<V>, f: AFactor) {
    match f
    case Paren(e) => DefinedE(ops, e)
    case Neg(g) => DefinedF(ops, g) && ops.neg(PlainF(ops, g)).e == NoError
    case Name(t) => ops.ident(t).e == NoError
    case Num(t) => ops.constant(t).e == NoError
  }

  predicate DefinedT<V>(ops: Ops<V>, t: ATerm) {
    match t
    case OneFactor(f) => DefinedF(ops, f)
    case Mul(l, r) => DefinedF(ops, l) && DefinedT(ops, r) && ops.mult(PlainF(ops, l), PlainT(ops, r)).e == NoError
    case Quo(l, r) =>
      && DefinedF(ops, l) && DefinedT(ops, r)
      && !ops.isZero(PlainT(ops, r)) && ops.div(PlainF(ops, l), PlainT(ops, r)).e == NoError
  }

  predicate DefinedE<V>(ops: Ops<V>, e: AExpr) {
    match e
    case OneTerm(t) => DefinedT(ops, t)
    case Add(l, r) => DefinedT(ops, l) && DefinedE(ops, r) && ops.add(PlainT(ops, l), PlainE(ops, r)).e == NoError
    case Sub(l, r) => DefinedT(ops, l) && DefinedE(ops, r) && ops.sub(PlainT(ops, l), PlainE(ops, r)).e == NoError
  }

  lemma {:induction false} ValueDefinedF<V>(ops: Ops<V>, f: AFactor)
    ensures ValueF(ops, f).e == NoError <==> DefinedF(ops, f)
    ensures DefinedF(ops, f) ==> ValueF(ops, f).v == PlainF(ops, f)
  {
    match f
    case Paren(e) => ValueDefined(ops, e);
    case Neg(g) => ValueDefinedF(ops, g);
    case _ =>
  }

  lemma {:induction false} ValueDefinedT<V>(ops: Ops<V>, t: ATerm)
    ensures ValueT(ops, t).e == NoError <==> DefinedT(ops, t)
    ensures DefinedT(ops, t) ==> ValueT(ops, t).v == PlainT(ops, t)
  {
    match t
    case OneFactor(f) => ValueDefinedF(ops, f);
    case Mul(l, r) => ValueDefinedF(ops, l); ValueDefinedT(ops, r);
    case Quo(l, r) => ValueDefinedF(ops, l); ValueDefinedT(ops, r);
  }

  lemma {:induction false} ValueDefined<V>(ops: Ops<V>, e: AExpr)
    ensures ValueE(ops, e).e == NoError <==> DefinedE(ops, e)
    ensures DefinedE(ops, e) ==> ValueE(ops, e).v == PlainE(ops, e)
  {
    match e
    case OneTerm(t) => ValueDefinedT(ops, t);
    case Add(l, r) => ValueDefinedT(ops, l); ValueDefined(ops, r);
    case Sub(l, r) => ValueDefinedT(ops, l); ValueDefined(ops, r);
  }

  /** A division whose sides are defined and whose right side is zero says so. */
  lemma DivisionByZero<V>(ops: Ops<V>, l: AFactor, r: ATerm)
    requires DefinedF(ops, l) && DefinedT(ops, r) && ops.isZero(PlainT(ops, r))
    ensures ValueT(ops, Quo(l, r)) == Outcome(ops.errValue, DivByZero)
  {
    ValueDefinedF(ops, l);
    ValueDefinedT(ops, r);
  }

  // ----- the texts that are read as an expression

  /** An unrecognised character met by a look ahead is passed over. */
  function Passed(s: string, j: nat): (k: nat)
    requires j <= |s|
    ensures k <= |s|
  {
    if Next(s, j).tok == Invalid then Next(s, j).end else j
  }

  /** The text from position i on is read as the factor, the term or the expression, up to the
      position given; a look ahead that ends a term or an expression may pass over a character. */
  function EndF(s: string, i: nat, f: AFactor): (j: Option<nat>)
    requires i <= |s|
    ensures j.Some? ==> j.value <= |s|
    decreases f
  {
    var l := Next(s, i);
    match f
    case Paren(e) =>
      if l.tok != OParen then None
      else
        var j := EndE(s, l.end, e);
        if j.Some? && Next(s, j.value).tok == CParen then Some(Next(s, j.value).end) else None
    case Neg(g) => if l.tok == Minus then EndF(s, l.end, g) else None
    case Name(t) => if l.tok == Ident && l.text == t then Some(l.end) else None
    case Num(t) => if l.tok == Const && l.text == t then Some(l.end) else None
  }

  function EndT(s: string, i: nat, t: ATerm): (j: Option<nat>)
    requires i <= |s|
    ensures j.Some? ==> j.value <= |s|
    decreases t
  {
    match t
    case OneFactor(f) =>
      var j := EndF(s, i, f);
      if j.None? || Next(s, j.value).tok == Mult || Next(s, j.value).tok == Div then None else Some(Passed(s, j.value))
    case Mul(l, r) =>
      var j := EndF(s, i, l);
      if j.Some? && Next(s, j.value).tok == Mult then EndT(s, Next(s, j.value).end, r) else None
    case Quo(l, r) =>
      var j := EndF(s, i, l);
      if j.Some? && Next(s, j.value).tok == Div then EndT(s, Next(s, j.value).end, r) else None
  }

  function EndE(s: string, i: nat, e: AExpr): (j: Option<nat>)
    requires i <= |s|
    ensures j.Some? ==> j.value <= |s|
    decreases e
  {
    match e
    case OneTerm(t) =>
      var j := EndT(s, i, t);
      if j.None? || Next(s, j.value).tok == Plus || Next(s, j.value).tok == Minus then None
      else Some(Passed(s, j.value))
    case Add(l, r) =>
      var j := EndT(s, i, l);
      if j.Some? && Next(s, j.value).tok == Plus then EndE(s, Next(s, j.value).end, r) else None
    case Sub(l, r) =>
      var j := EndT(s, i, l);
      if j.Some? && Next(s, j.value).tok == Minus then EndE(s, Next(s, j.value).end, r) else None
  }

  /** Looking ahead, and taking the token. */
  lemma TakeNext(s: string, x: Input, i: nat)
    requires At(s, x, i)
    ensures var g, l := Peek(s, x), Next(s, i);
      && g.tok == l.tok && At(s, g.x, Passed(s, i))
      && (l.tok != Invalid ==> At(s, Get(s, g.x).x, l.end) && Get(s, g.x).x.text == l.text)
  {
  }

  // ----- how reading goes on, one look ahead at a time

  lemma ParenGoesOn<V>(ops: Ops<V>, s: string, x: Input)
    requires x.p <= |s| && Peek(s, x).tok == OParen
    ensures var y := Get(s, Peek(s, x).x).x;
      var r, q := Expr(ops, s, y), Factor(ops, s, x);
      && Unread(s, y) < Unread(s, x)
      && (if r.o.e != NoError then q == Result(ops.Checked(r.o.v, r.o.e), r.x)
          else var g := Peek(s, r.x);
            if g.tok == CParen then q == Result(r.o, Get(s, g.x).x) else q.o == Outcome(ops.errValue, Unmatched))
  {
    PeekUses(s, x);
  }

  lemma FactorGoesOn<V>(ops: Ops<V>, s: string, x: Input)
    requires x.p <= |s| && Peek(s, x).tok != OParen
    ensures var g, q := Peek(s, x), Factor(ops, s, x);
      var y := Get(s, g.x).x;
      && (g.tok == Minus ==> Unread(s, y) < Unread(s, x))
      && (g.tok == Minus ==> var r := Factor(ops, s, y);
            q == if r.o.e != NoError then Result(ops.Checked(r.o.v, r.o.e), r.x) else Result(ops.neg(r.o.v), r.x))
      && (g.tok == Ident ==> q == Result(ops.Checked(ops.ident(y.text).v, ops.ident(y.text).e), y))
      && (g.tok == Const ==> q == Result(ops.Checked(ops.constant(y.text).v, ops.constant(y.text).e), y))
      && (g.tok != Minus && g.tok != Ident && g.tok != Const ==> q == Result(Outcome(ops.errValue, NoTerm), g.x))
  {
    PeekUses(s, x);
  }

  lemma TermGoesOn<V>(ops: Ops<V>, s: string, x: Input)
    requires x.p <= |s|
    ensures var r, q := Factor(ops, s, x), Term(ops, s, x);
      r.x.p <= |s| &&
      if r.o.e != NoError then q == Result(ops.Checked(r.o.v, r.o.e), r.x)
      else
        var g := Peek(s, r.x);
        var y := Get(s, g.x).x;
        && (g.tok == Mult || g.tok == Div ==> Unread(s, y) < Unread(s, x))
        && (g.tok == Mult ==> var t := Term(ops, s, y); q == Result(ops.Combined(ops.mult(r.o.v, t.o.v), t.o.e), t.x))
        && (g.tok == Div ==> var t := Term(ops, s, y);
              q == if t.o.e != NoError then Result(ops.Checked(t.o.v, t.o.e), t.x)
                   else Result(ops.Divided(r.o.v, t.o.v), t.x))
        && (g.tok != Mult && g.tok != Div ==> q == Result(r.o, g.x))
  {
    PeekUses(s, Factor(ops, s, x).x);
  }

  lemma ExprGoesOn<V>(ops: Ops<V>, s: string, x: Input)
    requires x.p <= |s|
    ensures var r, q := Term(ops, s, x), Expr(ops, s, x);
      r.x.p <= |s| &&
      if r.o.e != NoError then q == Result(ops.Checked(r.o.v, r.o.e), r.x)
      else
        var g := Peek(s, r.x);
        var y := Get(s, g.x).x;
        && (g.tok == Plus || g.tok == Minus ==> Unread(s, y) < Unread(s, x))
        && (g.tok == Plus ==> var t := Expr(ops, s, y); q == Result(ops.Combined(ops.add(r.o.v, t.o.v), t.o.e), t.x))
        && (g.tok == Minus ==> var t := Expr(ops, s, y); q == Result(ops.Combined(ops.sub(r.o.v, t.o.v), t.o.e), t.x))
        && (g.tok != Plus && g.tok != Minus ==> q == Result(r.o, g.x))
  {
    PeekUses(s, Term(ops, s, x).x);
  }

  // ----- what is read as an expression evaluates to it

  /** Evaluation from position i gave the value, and went on to position j. */
  ghost predicate Gives<V>(s: string, r: Result<V>, o: Outcome<V>, j: nat) {
    r.o == o && (o.e == NoError ==> At(s, r.x, j))
  }

  lemma AtInside(s: string, x: Input, i: nat)
    requires At(s, x, i)
    ensures x.p <= |s| && i <= |s|
  {
  }

  lemma {:induction false} FactorGives<V>(ops: Ops<V>, s: string, x: Input, i: nat, f: AFactor)
    requires i <= |s| && At(s, x, i) && EndF(s, i, f).Some?
    ensures Gives(s, Factor(ops, s, x), ValueF(ops, f), EndF(s, i, f).value)
    decreases f, 0
  {
    hide Factor, Term, Expr, Next, Peek, Get, At, Unread;
    AtInside(s, x, i);
    TakeNext(s, x, i);
    var y, l := Get(s, Peek(s, x).x).x, Next(s, i);
    match f
    case Paren(e) =>
      ParenGoesOn(ops, s, x);
      ExprGives(ops, s, y, l.end, e);
      var r := Expr(ops, s, y);
      if r.o.e == NoError { TakeNext(s, r.x, EndE(s, l.end, e).value); }
    case Neg(g) =>
      FactorGoesOn(ops, s, x);
      FactorGives(ops, s, y, l.end, g);
    case Name(t) => FactorGoesOn(ops, s, x);
    case Num(t) => FactorGoesOn(ops, s, x);
  }

  lemma {:induction false} TermGives<V>(ops: Ops<V>, s: string, x: Input, i: nat, t: ATerm)
    requires i <= |s| && At(s, x, i) && EndT(s, i, t).Some?
    ensures Gives(s, Term(ops, s, x), ValueT(ops, t), EndT(s, i, t).value)
    decreases t, 1
  {
    hide Factor, Term, Expr, Next, Peek, Get, At, Unread;
    AtInside(s, x, i);
    TermGoesOn(ops, s, x);
    var f := match t case OneFactor(f) => f case Mul(l, _) => l case Quo(l, _) => l;
    FactorGives(ops, s, x, i, f);
    var r := Factor(ops, s, x);
    if r.o.e == NoError {
      var j := EndF(s, i, f).value;
      TakeNext(s, r.x, j);
      match t
      case OneFactor(_) =>
      case Mul(_, q) => TermGives(ops, s, Get(s, Peek(s, r.x).x).x, Next(s, j).end, q);
      case Quo(_, q) => TermGives(ops, s, Get(s, Peek(s, r.x).x).x, Next(s, j).end, q);
    }
  }

  lemma {:induction false} ExprGives<V>(ops: Ops<V>, s: string, x: Input, i: nat, e: AExpr)
    requires i <= |s| && At(s, x, i) && EndE(s, i, e).Some?
    ensures Gives(s, Expr(ops, s, x), ValueE(ops, e), EndE(s, i, e).value)
    decreases e, 2
  {
    hide Factor, Term, Expr, Next, Peek, Get, At, Unread;
    AtInside(s, x, i);
    ExprGoesOn(ops, s, x);
    var t := match e case OneTerm(t) => t case Add(l, _) => l case Sub(l, _) => l;
    TermGives(ops, s, x, i, t);
    var r := Term(ops, s, x);
    if r.o.e == NoError {
      var j := EndT(s, i, t).value;
      TakeNext(s, r.x, j);
      match e
      case OneTerm(_) =>
      case Add(_, q) => ExprGives(ops, s, Get(s, Peek(s, r.x).x).x, Next(s, j).end, q);
      case Sub(_, q) => ExprGives(ops, s, Get(s, Peek(s, r.x).x).x, Next(s, j).end, q);
    }
  }

  // ----- what evaluates was read as an expression

  lemma {:induction false} FactorRead<V>(ops: Ops<V>, s: string, x: Input, i: nat) returns (f: AFactor)
    requires i <= |s| && At(s, x, i) && Factor(ops, s, x).o.e == NoError
    ensures EndF(s, i, f).Some? && At(s, Factor(ops, s, x).x, EndF(s, i, f).value)
    decreases Unread(s, x), 0
  {
    hide Factor, Term, Expr, Next, Peek, Get, At, Unread;
    AtInside(s, x, i);
    TakeNext(s, x, i);
    var y, l := Get(s, Peek(s, x).x).x, Next(s, i);
    if l.tok == OParen {
      ParenGoesOn(ops, s, x);
      var e := ExprRead(ops, s, y, l.end);
      f := Paren(e);
      TakeNext(s, Expr(ops, s, y).x, EndE(s, l.end, e).value);
    } else {
      FactorGoesOn(ops, s, x);
      if l.tok == Minus {
        var g := FactorRead(ops, s, y, l.end);
        f := Neg(g);
      } else {
        f := if l.tok == Ident then Name(l.text) else Num(l.text);
      }
    }
  }

  lemma {:induction false} TermRead<V>(ops: Ops<V>, s: string, x: Input, i: nat) returns (t: ATerm)
    requires i <= |s| && At(s, x, i) && Term(ops, s, x).o.e == NoError
    ensures EndT(s, i, t).Some? && At(s, Term(ops, s, x).x, EndT(s, i, t).value)
    decreases Unread(s, x), 1
  {
    hide Factor, Term, Expr, Next, Peek, Get, At, Unread;
    AtInside(s, x, i);
    TermGoesOn(ops, s, x);
    var f := FactorRead(ops, s, x, i);
    var r, j := Factor(ops, s, x), EndF(s, i, f).value;
    TakeNext(s, r.x, j);
    var y, tok := Get(s, Peek(s, r.x).x).x, Next(s, j).tok;
    if tok == Mult || tok == Div {
      var q := TermRead(ops, s, y, Next(s, j).end);
      t := if tok == Mult then Mul(f, q) else Quo(f, q);
    } else {
      t := OneFactor(f);
    }
  }

  lemma {:induction false} ExprRead<V>(ops: Ops<V>, s: string, x: Input, i: nat) returns (e: AExpr)
    requires i <= |s| && At(s, x, i) && Expr(ops, s, x).o.e == NoError
    ensures EndE(s, i, e).Some? && At(s, Expr(ops, s, x).x, EndE(s, i, e).value)
    decreases Unread(s, x), 2
  {
    hide Factor, Term, Expr, Next, Peek, Get, At, Unread;
    AtInside(s, x, i);
    ExprGoesOn(ops, s, x);
    var t := TermRead(ops, s, x, i);
    var r, j := Term(ops, s, x), EndT(s, i, t).value;
    TakeNext(s, r.x, j);
    var y, tok := Get(s, Peek(s, r.x).x).x, Next(s, j).tok;
    if tok == Plus || tok == Minus {
      var q := ExprRead(ops, s, y, Next(s, j).end);
      e := if tok == Plus then Add(t, q) else Sub(t, q);
    } else {
      e := OneTerm(t);
    }
  }

  /** Main result: on every text evaluation succeeds exactly if the text is read as an expression
      that is defined, and gives its value. */
  lemma EvalExactly<V>(ops: Ops<V>, s: string)
    ensures var v := EvalExpr(ops, s);
      v.Overrun? ||
        (&& (v.o.e == NoError <==> exists e :: EndE(s, 0, e).Some? && DefinedE(ops, e))
         && (forall e :: EndE(s, 0, e).Some? && DefinedE(ops, e) ==> v.o == Outcome(PlainE(ops, e), NoError)))
  {
    if Expr(ops, s, FRESH).o.e == NoError {
      var e := ExprRead(ops, s, FRESH, 0);
      ExprGives(ops, s, FRESH, 0, e);
      ValueDefined(ops, e);
      assert EndE(s, 0, e).Some? && DefinedE(ops, e);
    }
    forall e | EndE(s, 0, e).Some? && DefinedE(ops, e) ensures Expr(ops, s, FRESH).o == Outcome(PlainE(ops, e), NoError)
    {
      ExprGives(ops, s, FRESH, 0, e);
      ValueDefined(ops, e);
    }
  }

  // ----- the errors of a text that is not read as one

  predicate StartsFactor(t: Token) {
    t == OParen || t == Minus || t == Ident || t == Const
  }

  /** Where no factor starts, a term is missing. */
  lemma NoFactor<V>(ops: Ops<V>, s: string, x: Input, i: nat)
    requires At(s, x, i) && !StartsFactor(Next(s, i).tok)
    ensures Expr(ops, s, x).o == Term(ops, s, x).o == Factor(ops, s, x).o == Outcome(ops.errValue, NoTerm)
  {
    TakeNext(s, x, i);
    hide Next, Peek, At;
  }

  lemma ErrorGoesOut<V>(ops: Ops<V>, s: string, x: Input, e: Error)
    requires x.p <= |s| && e != NoError && Factor(ops, s, x).o == Outcome(ops.errValue, e)
    ensures Expr(ops, s, x).o == Outcome(ops.errValue, e)
  {
  }

  /** An opening parenthesis and an expression, but no closing one. */
  lemma NotClosed<V>(ops: Ops<V>, s: string, e: AExpr)
    requires Next(s, 0).tok == OParen && EndE(s, Next(s, 0).end, e).Some? && DefinedE(ops, e)
    requires Next(s, EndE(s, Next(s, 0).end, e).value).tok != CParen
    ensures Expr(ops, s, FRESH).o == Outcome(ops.errValue, Unmatched)
  {
    assert At(s, FRESH, 0);
    hide Factor, Term, Expr, Next, Peek, Get, At, Unread, EndE;
    TakeNext(s, FRESH, 0);
    var y, k := Get(s, Peek(s, FRESH).x).x, Next(s, 0).end;
    ExprGives(ops, s, y, k, e);
    ValueDefined(ops, e);
    TakeNext(s, Expr(ops, s, y).x, EndE(s, k, e).value);
    ParenGoesOn(ops, s, FRESH);
    ErrorGoesOut(ops, s, FRESH, Unmatched);
  }

  // ----- texts without unrecognised characters

  /** No character is unrecognised. */
  predicate Tidy(s: string) {
    forall k :: 0 <= k < |s| ==> IsSpace(s[k]) || KindOf(s[k]) != Invalid
  }

  lemma {:induction false} SpellsJoin(s: string, i: nat, ps: seq<Piece>, qs: seq<Piece>)
    requires Spells(s, i, ps)
    ensures Spells(s, EndOf(s, i, ps), qs) ==>
      Spells(s, i, ps + qs) && EndOf(s, i, ps + qs) == EndOf(s, EndOf(s, i, ps), qs)
    decreases |ps|
  {
    if ps == [] {
      assert ps + qs == qs;
    } else {
      assert (ps + qs)[1..] == ps[1..] + qs;
      SpellsJoin(s, Next(s, i).end, ps[1..], qs);
    }
  }

  /** The next token of a tidy text is a piece of it. */
  lemma NextPiece(s: string, i: nat)
    requires Tidy(s) && i <= |s|
    ensures var l := Next(s, i);
      && l.tok != Invalid && Passed(s, i) == i
      && (l.tok != Eof ==> Spells(s, i, [Piece(l.tok, l.text)]) && EndOf(s, i, [Piece(l.tok, l.text)]) == l.end)
      && (l.tok == Plus ==> l.text == "+") && (l.tok == Minus ==> l.text == "-") && (l.tok == Mult ==> l.text == "*")
      && (l.tok == Div ==> l.text == "/") && (l.tok == OParen ==> l.text == "(") && (l.tok == CParen ==> l.text == ")")
  {
    var l, j := Next(s, i), SkipSpace(s, i);
    if j < |s| && l.tok != Ident && l.tok != Const { assert l.text == [s[j]]; }
    if l.tok != Eof {
      var p := Piece(l.tok, l.text);
      assert [p][1..] == [];
      assert Spells(s, l.end, []);
    }
  }

  /** What is read is spelled. */
  lemma {:induction false} ReadSpelledF(s: string, i: nat, f: AFactor)
    requires Tidy(s) && i <= |s| && EndF(s, i, f).Some?
    ensures Spells(s, i, PiecesF(f)) && EndOf(s, i, PiecesF(f)) == EndF(s, i, f).value
    decreases f, 0
  {
    hide Next, Spells, EndOf, Tidy;
    NextPiece(s, i);
    var l := Next(s, i);
    match f
    case Paren(e) =>
      ReadSpelled(s, l.end, e);
      var j := EndE(s, l.end, e).value;
      NextPiece(s, j);
      SpellsJoin(s, i, [Piece(OParen, "(")], PiecesE(e));
      SpellsJoin(s, i, [Piece(OParen, "(")] + PiecesE(e), [Piece(CParen, ")")]);
    case Neg(g) =>
      ReadSpelledF(s, l.end, g);
      SpellsJoin(s, i, [Piece(Minus, "-")], PiecesF(g));
    case _ =>
  }

  lemma {:induction false} ReadSpelledT(s: string, i: nat, t: ATerm)
    requires Tidy(s) && i <= |s| && EndT(s, i, t).Some?
    ensures Spells(s, i, PiecesT(t)) && EndOf(s, i, PiecesT(t)) == EndT(s, i, t).value
    ensures EndsTerm(Next(s, EndT(s, i, t).value).tok)
    decreases t, 1
  {
    hide Next, Spells, EndOf, Tidy;
    var f := match t case OneFactor(f) => f case Mul(l, _) => l case Quo(l, _) => l;
    ReadSpelledF(s, i, f);
    var j := EndF(s, i, f).value;
    NextPiece(s, j);
    if !t.OneFactor? {
      var l, q := Next(s, j), if t.Mul? then t.r else t.r;
      ReadSpelledT(s, l.end, q);
      SpellsJoin(s, i, PiecesF(f), [Piece(l.tok, l.text)]);
      SpellsJoin(s, i, PiecesF(f) + [Piece(l.tok, l.text)], PiecesT(q));
    }
  }

  lemma {:induction false} ReadSpelled(s: string, i: nat, e: AExpr)
    requires Tidy(s) && i <= |s| && EndE(s, i, e).Some?
    ensures Spells(s, i, PiecesE(e)) && EndOf(s, i, PiecesE(e)) == EndE(s, i, e).value
    ensures EndsExpr(Next(s, EndE(s, i, e).value).tok)
    decreases e, 2
  {
    hide Next, Spells, EndOf, Tidy;
    var t := match e case OneTerm(t) => t case Add(l, _) => l case Sub(l, _) => l;
    ReadSpelledT(s, i, t);
    var j := EndT(s, i, t).value;
    NextPiece(s, j);
    if !e.OneTerm? {
      var l, q := Next(s, j), if e.Add? then e.r else e.r;
      ReadSpelled(s, l.end, q);
      SpellsJoin(s, i, PiecesT(t), [Piece(l.tok, l.text)]);
      SpellsJoin(s, i, PiecesT(t) + [Piece(l.tok, l.text)], PiecesE(q));
    }
  }

  /** What is spelled is read. */
  lemma {:induction false} SpelledReadF(s: string, i: nat, f: AFactor)
    requires Spells(s, i, PiecesF(f))
    ensures i <= |s| && EndF(s, i, f) == Some(EndOf(s, i, PiecesF(f)))
    decreases f, 0
  {
    hide Next, Tidy;
    match f
    case Paren(e) =>
      var open, close := [Piece(OParen, "(")], [Piece(CParen, ")")];
      SpellsConcat(s, i, open + PiecesE(e), close);
      SpellsConcat(s, i, open, PiecesE(e));
      SpellsOne(s, i, open[0]);
      SpellsOne(s, EndOf(s, i, open + PiecesE(e)), close[0]);
      SpelledRead(s, Next(s, i).end, e);
    case Neg(g) =>
      SpellsConcat(s, i, [Piece(Minus, "-")], PiecesF(g));
      SpellsOne(s, i, Piece(Minus, "-"));
      SpelledReadF(s, Next(s, i).end, g);
    case Name(t) => SpellsOne(s, i, Piece(Ident, t));
    case Num(t) => SpellsOne(s, i, Piece(Const, t));
  }

  lemma {:induction false} SpelledReadT(s: string, i: nat, t: ATerm)
    requires Spells(s, i, PiecesT(t)) && EndsTerm(Next(s, EndOf(s, i, PiecesT(t))).tok)
    ensures i <= |s| && EndT(s, i, t) == Some(EndOf(s, i, PiecesT(t)))
    decreases t, 1
  {
    hide Next, Spells, EndOf;
    match t
    case OneFactor(f) => SpelledReadF(s, i, f);
    case Mul(l, r) =>
      OperandRead(s, i, PiecesF(l), Piece(Mult, "*"), PiecesT(r));
      SpelledReadF(s, i, l);
      SpelledReadT(s, Next(s, EndOf(s, i, PiecesF(l))).end, r);
    case Quo(l, r) =>
      OperandRead(s, i, PiecesF(l), Piece(Div, "/"), PiecesT(r));
      SpelledReadF(s, i, l);
      SpelledReadT(s, Next(s, EndOf(s, i, PiecesF(l))).end, r);
  }

  lemma {:induction false} SpelledRead(s: string, i: nat, e: AExpr)
    requires Spells(s, i, PiecesE(e)) && EndsExpr(Next(s, EndOf(s, i, PiecesE(e))).tok)
    ensures i <= |s| && EndE(s, i, e) == Some(EndOf(s, i, PiecesE(e)))
    decreases e, 2
  {
    hide Next, Spells, EndOf;
    match e
    case OneTerm(t) => SpelledReadT(s, i, t);
    case Add(l, r) =>
      OperandRead(s, i, PiecesT(l), Piece(Plus, "+"), PiecesE(r));
      SpelledReadT(s, i, l);
      SpelledRead(s, Next(s, EndOf(s, i, PiecesT(l))).end, r);
    case Sub(l, r) =>
      OperandRead(s, i, PiecesT(l), Piece(Minus, "-"), PiecesE(r));
      SpelledReadT(s, i, l);
      SpelledRead(s, Next(s, EndOf(s, i, PiecesT(l))).end, r);
  }

  /** Main result: a text without unrecognised characters is read as an expression exactly if it
      begins with its tokens and nothing follows that would go on with it. */
  lemma TidyReads(s: string, e: AExpr)
    requires Tidy(s)
    ensures EndE(s, 0, e).Some? <==>
      Spells(s, 0, PiecesE(e)) && EndsExpr(Next(s, EndOf(s, 0, PiecesE(e))).tok)
  {
    if EndE(s, 0, e).Some? { ReadSpelled(s, 0, e); }
    if Spells(s, 0, PiecesE(e)) && EndsExpr(Next(s, EndOf(s, 0, PiecesE(e))).tok) { SpelledRead(s, 0, e); }
  }

  lemma UntidyTokens()
    ensures var s := "1#+1";
      && Next(s, 0) == Lexeme(Const, "1", 1) && Next(s, 1).tok == Invalid && Next(s, 1).end == 2
      && Next(s, 2).tok == Plus && Next(s, 2).end == 3 && Next(s, 3) == Lexeme(Const, "1", 4) && Next(s, 4).tok == Eof
  {
  }

  /** The condition matters: here the character behind a term is passed over, and the text is
      read as a sum although it does not begin with one. */
  lemma UntidyRead()
    ensures var s, e := "1#+1", Add(OneFactor(Num("1")), OneTerm(OneFactor(Num("1"))));
      !Tidy(s) && EndE(s, 0, e) == Some(4) && !Spells(s, 0, PiecesE(e))
  {
    UntidyTokens();
    assert "1#+1"[1] == '#';
    var e := Add(OneFactor(Num("1")), OneTerm(OneFactor(Num("1"))));
    assert PiecesE(e)[0] == Piece(Const, "1") && PiecesE(e)[1..][0] == Piece(Plus, "+");
    hide Next;
  }
}
