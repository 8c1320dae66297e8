/** The expression evaluator in place: the tokenizer's loops over the input and the recursive
    methods that change its state, proved to do what module Eval says. */
module EvalImpl {
  import opened Eval

  lemma SameNext(s: string, i: nat, j: nat)
    requires i <= |s| && j <= |s| && SkipSpace(s, i) == SkipSpace(s, j)
    ensures Next(s, i) == Next(s, j)
  {
  }

  class Evaluator<!V> {
    const ops: Ops<V>
    var input: string
    var p: nat
    var lastp: nat
    var peek: Token
    const tokBuf: array<char>
    var error: Error
    ghost var text: string

    constructor (ops: Ops<V>)
      ensures this.ops == ops && peek == Invalid && error == NoError && Valid() && fresh(tokBuf)
    {
      this.ops := ops;
      input, p, lastp, peek, error, text := "", 0, 0, Invalid, NoError, "";
      tokBuf := new char[TOK_BUF](_ => '\0');
    }

    /** The buffer holds the text and its terminator. */
    ghost predicate Holds(t: string)
      reads tokBuf
    {
      && tokBuf.Length == TOK_BUF && |t| < TOK_BUF && '\0' !in t && tokBuf[|t|] == '\0'
      && (forall k :: 0 <= k < |t| ==> tokBuf[k] == t[k])
    }

    ghost predicate Valid()
      reads this, tokBuf
    {
      p <= |input| && '\0' !in input && Holds(text)
    }

    ghost function View(): Input
      reads this
    {
      Input(p, lastp, peek, text, false)
    }

    method GetNextToken() returns (tok: Token)
      requires Valid() && !Get(input, View()).x.overran
      modifies this`p, this`peek, this`text, tokBuf
      ensures Valid() && Got(tok, View()) == Get(input, old(View()))
    {
      if peek != Invalid {
        tok := peek;
        peek := Invalid;
        return;
      }
      tokBuf[0] := '\0';
      text := "";
      while p < |input| && IsSpace(input[p])
        invariant p <= |input| && SkipSpace(input, p) == SkipSpace(input, old(p))
        invariant peek == Invalid && text == "" && Holds(text)
      {
        p := p + 1;
      }
      SameNext(input, old(p), p);
      if p == |input| { return Eof; }
      tok := ScanToken();
    }

    /** Scans the token that starts here. */
    method ScanToken() returns (tok: Token)
      requires Valid() && p < |input| && !IsSpace(input[p]) && !Long(Next(input, p).text)
      modifies this`p, this`text, tokBuf
      ensures Valid() && Lexeme(tok, text, p) == Next(input, old(p))
    {
      hide SkipSpace, IdentEnd, ConstEnd;
      ghost var start := p;
      tok := KindOf(input[p]);
      tokBuf[0] := input[p];
      p := p + 1;
      var n := 1;
      match tok {
        case Ident => n := ScanIdent(start);
        case Const => n := ScanConst(start);
        case _ =>
      }
      tokBuf[n] := '\0';
      text := input[start..p];
    }

    /** The buffer holds the characters since start. */
    ghost predicate Copied(start: nat)
      reads this`input, this`p, tokBuf
    {
      && start <= p <= |input| && tokBuf.Length == TOK_BUF && p - start < TOK_BUF
      && (forall k :: 0 <= k < p - start ==> tokBuf[k] == input[start + k])
    }

    /** Scans the rest of an identifier. */
    method ScanIdent(ghost start: nat) returns (n: nat)
      requires Copied(start) && p == start + 1 && IdentEnd(input, p) - start < TOK_BUF
      modifies this`p, tokBuf
      ensures p == IdentEnd(input, old(p)) && Copied(start) && n == p - start
    {
      n := 1;
      while p < |input| && (IdentChar(input[p]) || ConstChar(input[p]))
        invariant Copied(start) && n == p - start && IdentEnd(input, p) == IdentEnd(input, old(p))
      {
        tokBuf[n] := input[p];
        p, n := p + 1, n + 1;
      }
    }

    /** Scans the rest of a numeral. */
    method ScanConst(ghost start: nat) returns (n: nat)
      requires Copied(start) && p == start + 1 && ConstEnd(input, p, '\0', false) - start < TOK_BUF
      modifies this`p, tokBuf
      ensures p == ConstEnd(input, old(p), '\0', false) && Copied(start) && n == p - start
    {
      var last, allowHex := '\0', false;
      n := 1;
      while p < |input| && GoesOn(input[p], last, allowHex)
        invariant Copied(start) && n == p - start
        invariant ConstEnd(input, p, last, allowHex) == ConstEnd(input, old(p), '\0', false)
      {
        last := Lower(input[p]);
        if input[p] == 'x' || input[p] == 'X' { allowHex := true; }
        tokBuf[n] := input[p];
        p, n := p + 1, n + 1;
      }
    }

    /** The text in the buffer, up to its terminator. */
    method TokenText() returns (t: string)
      requires Valid()
      ensures t == text
    {
      var n := 0;
      while tokBuf[n] != '\0'
        invariant n <= |text|
        decreases |text| - n
      {
        assert n < |text|;
        n := n + 1;
      }
      t := tokBuf[..n];
    }

    method PeekNextToken() returns (tok: Token)
      requires Valid() && !Peek(input, View()).x.overran
      modifies this`p, this`lastp, this`peek, this`text, tokBuf
      ensures Valid() && Got(tok, View()) == Peek(input, old(View()))
    {
      if peek == Invalid {
        lastp := p;
        var t := GetNextToken();
        peek := t;
      }
      tok := peek;
    }

    method EvalFactor() returns (val: V)
      requires Valid() && error == NoError && !Factor(ops, input, View()).x.overran
      modifies this`p, this`lastp, this`peek, this`text, this`error, tokBuf
      ensures Valid() && Result(Outcome(val, error), View()) == Factor(ops, input, old(View()))
      decreases Unread(input, View()), 0
    {
      hide Expr, Term, ParenRest, Peek, Get;
      PeekUses(input, View());
      var tok := PeekNextToken();
      match tok {
        case OParen =>
          tok := GetNextToken();
          val := EvalParen();
        case Minus =>
          tok := GetNextToken();
          val := EvalFactor();
          if error != NoError { return ops.errValue; }
          val := Set(ops.neg(val));
        case Ident =>
          tok := GetNextToken();
          val := Convert(ops.ident);
        case Const =>
          tok := GetNextToken();
          val := Convert(ops.constant);
        case _ =>
          error := NoTerm;
          return ops.errValue;
      }
    }

    /** The rest of a factor behind its opening parenthesis. */
    method EvalParen() returns (val: V)
      requires Valid() && error == NoError && !ParenRest(ops, input, View()).x.overran
      modifies this`p, this`lastp, this`peek, this`text, this`error, tokBuf
      ensures Valid() && Result(Outcome(val, error), View()) == ParenRest(ops, input, old(View()))
      decreases Unread(input, View()), 3
    {
      val := EvalExpression();
      if error != NoError { return ops.errValue; }
      var tok := PeekNextToken();
      if tok != CParen {
        error := Unmatched;
        return ops.errValue;
      }
      tok := GetNextToken();
    }

    /** The value of the token text. */
    method Convert(f: string -> Outcome<V>) returns (v: V)
      requires Valid() && error == NoError
      modifies this`error
      ensures Valid() && Outcome(v, error) == ops.Checked(f(text).v, f(text).e)
    {
      var t := TokenText();
      v := Set(f(t));
      if error != NoError { return ops.errValue; }
    }

    /** The value of an operation; its error, if it has one, is set. */
    method Set(o: Outcome<V>) returns (v: V)
      modifies this`error
      ensures v == o.v && error == if o.e != NoError then o.e else old(error)
    {
      if o.e != NoError { error := o.e; }
      v := o.v;
    }

    /** The quotient of two values, or the error of a zero divisor. */
    method Divide(val: V, right: V) returns (v: V)
      requires error == NoError
      modifies this`error
      ensures Outcome(v, error) == ops.Divided(val, right)
    {
      if ops.isZero(right) {
        error := DivByZero;
        return ops.errValue;
      }
      v := Set(ops.div(val, right));
    }

    method EvalTerm() returns (val: V)
      requires Valid() && error == NoError && !Term(ops, input, View()).x.overran
      modifies this`p, this`lastp, this`peek, this`text, this`error, tokBuf
      ensures Valid() && Result(Outcome(val, error), View()) == Term(ops, input, old(View()))
      decreases Unread(input, View()), 1
    {
      hide Factor, Expr, Peek, Get;
      val := EvalFactor();
      if error != NoError { return ops.errValue; }
      PeekUses(input, View());
      var tok := PeekNextToken();
      match tok {
        case Mult =>
          tok := GetNextToken();
          var right := EvalTerm();
          val := Set(ops.mult(val, right));
          if error != NoError { return ops.errValue; }
        case Div =>
          tok := GetNextToken();
          var right := EvalTerm();
          if error != NoError { return ops.errValue; }
          val := Divide(val, right);
        case _ =>
      }
    }

    method EvalExpression() returns (val: V)
      requires Valid() && error == NoError && !Expr(ops, input, View()).x.overran
      modifies this`p, this`lastp, this`peek, this`text, this`error, tokBuf
      ensures Valid() && Result(Outcome(val, error), View()) == Expr(ops, input, old(View()))
      decreases Unread(input, View()), 2
    {
      hide Term, Factor, Peek, Get;
      val := EvalTerm();
      if error != NoError { return ops.errValue; }
      PeekUses(input, View());
      var tok := PeekNextToken();
      match tok {
        case Plus =>
          tok := GetNextToken();
          var right := EvalExpression();
          val := Set(ops.add(val, right));
          if error != NoError { return ops.errValue; }
        case Minus =>
          tok := GetNextToken();
          var right := EvalExpression();
          val := Set(ops.sub(val, right));
          if error != NoError { return ops.errValue; }
        case _ =>
      }
    }

    /** Evaluates a string, and says where the expression ended.  The caller sees to it that no
        token read is too long for the buffer. */
    method Evaluate(s: string) returns (val: V, end: nat)
      requires Valid() && '\0' !in s && !EvalExpr(ops, s).Overrun?
      modifies this, tokBuf
      ensures Valid() && Evaluation(Outcome(val, error), end) == EvalExpr(ops, s)
    {
      error := NoError;
      input, p, peek, text := s, 0, Invalid, "";
      tokBuf[0] := '\0';
      lastp := 0; // stale in the original, where no peek has set it yet and none reads it
      val := EvalExpression();
      end := if peek != Invalid then lastp else p;
    }
  }
}
