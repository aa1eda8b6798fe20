/**
 * Derived `Show` against derived `Read`: the text a derived `showsPrec`
 * writes, cut into the lexemes Haskell's `lex` returns, is the sequence of
 * tokens the derived reader of the same constructor expects, and the reader
 * demands parentheses exactly where `showsPrec` writes them. The generator
 * as written misses this in two places (records, and infix constructors with
 * alphanumeric names); the corrected reader `MkReadConFixed` meets it.
 */
module DeriveText {
  import opened DeriveAst
  import opened DeriveShow
  import opened DeriveRead

  /**
   * The lexemes a piece of shown text contributes: a space separates lexemes
   * and is none itself; a value shown at precedence `k` is what `readsPrec k`
   * consumes; a labelled field is what `primReadField` with that label
   * consumes. Derived `Show` produces no opaque piece.
   */
  function PieceTokens(p: Piece): (r: seq<Token>)
    ensures |r| <= 1
  {
    match p
    case Chr(c) => if c == ' ' then [] else [Lit([c])]
    case Str(s) => [Lit(s)]
    case Shown(k, _) => [Sub(k)]
    case Field(l, _) => [Sel(l)]
    case Opaque(_) => []
  }

  function ShowTokens(ps: seq<Piece>): seq<Token>
    decreases |ps|
  {
    if ps == [] then [] else PieceTokens(ps[0]) + ShowTokens(ps[1..])
  }

  /** The shown text is parenthesised when the context precedence is `dv`. */
  predicate ShowParens(rn: Rendering, dv: int)
  {
    rn.parenFrom.Some? && rn.parenFrom.value <= dv
  }

  lemma {:induction false} ShowTokensAppend(a: seq<Piece>, b: seq<Piece>)
    ensures ShowTokens(a + b) == ShowTokens(a) + ShowTokens(b)
    decreases |a|
  {
    if a == [] {
      assert a + b == b;
    } else {
      assert (a + b)[0] == a[0] && (a + b)[1..] == a[1..] + b;
      ShowTokensAppend(a[1..], b);
    }
  }

  lemma ShowTokensSmall(p: Piece, q: Piece, r: Piece)
    ensures ShowTokens([p]) == PieceTokens(p)
    ensures ShowTokens([p, q]) == PieceTokens(p) + PieceTokens(q)
    ensures ShowTokens([p, q, r]) == PieceTokens(p) + PieceTokens(q) + PieceTokens(r)
  {
    assert [p][1..] == [] && [p, q][1..] == [q] && [p, q, r][1..] == [q, r] && [q, r][1..] == [r];
    assert [r][1..] == [] && [q][1..] == [];
    assert ShowTokens([r]) == PieceTokens(r);
    assert ShowTokens([q, r]) == PieceTokens(q) + PieceTokens(r);
  }

  /** Fields written after spaces are the field tokens, one per field. */
  lemma {:induction false} SpacedTokens(k: int, xs: seq<Cell>)
    ensures ShowTokens(Interleaved(Chr(' '), ShownAll(k, xs))) == Repeat(Sub(k), |xs|)
    decreases |xs|
  {
    if xs != [] {
      var ps := ShownAll(k, xs);
      assert ps[1..] == ShownAll(k, xs[1..]);
      SpacedTokens(k, xs[1..]);
      ShowTokensAppend([Chr(' '), ps[0]], Interleaved(Chr(' '), ps[1..]));
      ShowTokensSmall(Chr(' '), ps[0], ps[0]);
      assert [Sub(k)] + Repeat(Sub(k), |xs| - 1) == Repeat(Sub(k), |xs|);
    }
  }

  /** Fields written after commas are what the reader's separator loop expects after its first field. */
  lemma {:induction false} CommaTokens(ps: seq<Piece>, fields: seq<Option<string>>)
    requires |ps| == |fields|
    requires forall i :: 0 <= i < |ps| ==> PieceTokens(ps[i]) == [FieldToken(fields[i])]
    ensures ShowTokens(Interleaved(Chr(','), ps)) == SepTokens(",", fields)
    decreases |ps|
  {
    if ps != [] {
      CommaTokens(ps[1..], fields[1..]);
      ShowTokensAppend([Chr(','), ps[0]], Interleaved(Chr(','), ps[1..]));
      ShowTokensSmall(Chr(','), ps[0], ps[0]);
    }
  }

  lemma ShowTokensAround(a: seq<Piece>, b: seq<Piece>, c: seq<Piece>)
    ensures ShowTokens(a + b + c) == ShowTokens(a) + ShowTokens(b) + ShowTokens(c)
  {
    ShowTokensAppend(a + b, c);
    ShowTokensAppend(a, b);
  }

  lemma TupleTokensAgree(xs: seq<Cell>)
    requires |xs| >= 1
    ensures ShowTokens(ShowSpec(TupleCon(|xs|), xs, None).pieces) == TupleTokens(|xs|)
  {
    var n := |xs|;
    var rest := Interleaved(Chr(','), ShownAll(0, xs[1..]));
    var front, back := [Chr('('), Shown(0, xs[0])], [Chr(')')];
    assert ShowSpec(TupleCon(n), xs, None).pieces == front + rest + back;
    BracketTokens(Chr('('), Shown(0, xs[0]), ')');
    TupleRestTokens(xs);
    ShowTokensThree(front, rest, back, [Lit("("), Sub(0)], SepTokens(",", NoSels(n - 1)), [Lit(")")]);
    TupleSepTokens(n);
  }

  /** An opening piece pair and a closing bracket, as tokens. */
  lemma BracketTokens(p: Piece, q: Piece, close: char)
    requires close != ' '
    ensures ShowTokens([p, q]) == PieceTokens(p) + PieceTokens(q)
    ensures ShowTokens([Chr(close)]) == [Lit([close])]
  {
    ShowTokensPair(p, q);
    ShowTokensSmall(Chr(close), Chr(close), Chr(close));
  }


  /** The components after the first, each after a comma, are read by the separator loop after its first turn. */
  lemma TupleRestTokens(xs: seq<Cell>)
    requires |xs| >= 1
    ensures ShowTokens(Interleaved(Chr(','), ShownAll(0, xs[1..]))) == SepTokens(",", NoSels(|xs| - 1))
  {
    CommaTokens(ShownAll(0, xs[1..]), NoSels(|xs| - 1));
  }

  lemma TupleSepTokens(n: nat)
    requires n >= 1
    ensures SepTokens("(", NoSels(n)) == [Lit("("), Sub(0)] + SepTokens(",", NoSels(n - 1))
  {
    assert NoSels(n)[1..] == NoSels(n - 1);
  }


  lemma RecordTokensAgree(con: Constr, ls: seq<string>, xs: seq<Cell>)
    requires |ls| == |xs| >= 1
    ensures ShowTokens(ShowSpec(Con(con), xs, Some(ls)).pieces) == RecordTokens(con, ls)
  {
    var fs := FieldsAll(ls, xs);
    var front, back := [Str(con.name), Chr('{')], [Chr('}')];
    var rest := SepTokens(",", SomeSels(ls)[1..]);
    assert ShowSpec(Con(con), xs, Some(ls)).pieces == front + SepFields(fs) + back;
    BracketTokens(Str(con.name), Chr('{'), '}');
    RecordFieldTokens(ls, xs);
    ShowTokensThree(front, SepFields(fs), back, [Lit(con.name), Lit("{")], [Sel(ls[0])] + rest, [Lit("}")]);
    RecordSepTokens(ls);
    assert [Lit(con.name), Lit("{")] + ([Sel(ls[0])] + rest) + [Lit("}")]
        == [Lit(con.name)] + ([Lit("{"), Sel(ls[0])] + rest) + [Lit("}")];
  }


  /** The labelled fields separated by commas are the selector tokens after the first separator. */
  lemma RecordFieldTokens(ls: seq<string>, xs: seq<Cell>)
    requires |ls| == |xs| >= 1
    ensures ShowTokens(SepFields(FieldsAll(ls, xs))) == [Sel(ls[0])] + SepTokens(",", SomeSels(ls)[1..])
  {
    var fs := FieldsAll(ls, xs);
    CommaTokens(fs[1..], SomeSels(ls)[1..]);
    ShowTokensAppend([fs[0]], Interleaved(Chr(','), fs[1..]));
    ShowTokensSmall(fs[0], fs[0], fs[0]);
  }

  lemma RecordSepTokens(ls: seq<string>)
    requires |ls| >= 1
    ensures SepTokens("{", SomeSels(ls)) == [Lit("{"), Sel(ls[0])] + SepTokens(",", SomeSels(ls)[1..])
  {
  }


  lemma InfixTokensAgree(con: Constr, xs: seq<Cell>)
    requires IsInfix(con) && |xs| == 2
    ensures ShowTokens(ShowSpec(Con(con), xs, None).pieces) ==
      if con.alphanumeric then QuotedInfixTokens(con) else InfixTokens(con)
  {
    assert ShowSpec(Con(con), xs, None).pieces == InfixText(con, xs[0], xs[1]);
    InfixTextTokens(con, xs[0], xs[1]);
  }

  /** The operands, the spaces and the operator (with its backquotes) are the reader's tokens. */
  lemma InfixTextTokens(con: Constr, x: Cell, y: Cell)
    ensures ShowTokens(InfixText(con, x, y)) ==
      if con.alphanumeric then QuotedInfixTokens(con) else InfixTokens(con)
  {
    if con.alphanumeric {
      QuotedInfixTextTokens(con, x, y);
    } else {
      PlainInfixTextTokens(con, x, y);
    }
  }

  lemma QuotedInfixTextTokens(con: Constr, x: Cell, y: Cell)
    requires con.alphanumeric
    ensures ShowTokens(InfixText(con, x, y)) == QuotedInfixTokens(con)
  {
    var s := con.syntax;
    var left, right := [Shown(LeftPrec(s), x), Chr(' ')], [Chr(' '), Shown(RightPrec(s), y)];
    var op := [Chr('`'), Str(con.name), Chr('`')];
    assert InfixText(con, x, y) == left + op + right;
    OperandTokens(LeftPrec(s), x, RightPrec(s), y);
    QuotedOperatorTokens(con.name);
    ShowTokensThree(left, op, right, [Sub(LeftPrec(s))], [Lit("`"), Lit(con.name), Lit("`")], [Sub(RightPrec(s))]);
  }

  lemma PlainInfixTextTokens(con: Constr, x: Cell, y: Cell)
    requires !con.alphanumeric
    ensures ShowTokens(InfixText(con, x, y)) == InfixTokens(con)
  {
    var s := con.syntax;
    var left, right := [Shown(LeftPrec(s), x), Chr(' ')], [Chr(' '), Shown(RightPrec(s), y)];
    var op := [Str(con.name)];
    assert InfixText(con, x, y) == left + op + right;
    OperandTokens(LeftPrec(s), x, RightPrec(s), y);
    assert ShowTokens(op) == [Lit(con.name)] by {
      ShowTokensSmall(Str(con.name), Str(con.name), Str(con.name));
    }
    ShowTokensThree(left, op, right, [Sub(LeftPrec(s))], [Lit(con.name)], [Sub(RightPrec(s))]);
  }


  lemma ShowTokensThree(a: seq<Piece>, b: seq<Piece>, c: seq<Piece>, ta: seq<Token>, tb: seq<Token>, tc: seq<Token>)
    requires ShowTokens(a) == ta && ShowTokens(b) == tb && ShowTokens(c) == tc
    ensures ShowTokens(a + b + c) == ta + tb + tc
  {
    ShowTokensAround(a, b, c);
  }

  /** An operand and a space, or a space and an operand, is one token. */
  lemma OperandTokens(lp: int, x: Cell, rp: int, y: Cell)
    ensures ShowTokens([Shown(lp, x), Chr(' ')]) == [Sub(lp)]
    ensures ShowTokens([Chr(' '), Shown(rp, y)]) == [Sub(rp)]
  {
    ShowTokensPair(Shown(lp, x), Chr(' '));
    ShowTokensPair(Chr(' '), Shown(rp, y));
  }

  /** A backquoted name is three tokens. */
  lemma QuotedOperatorTokens(name: string)
    ensures ShowTokens([Chr('`'), Str(name), Chr('`')]) == [Lit("`"), Lit(name), Lit("`")]
  {
    ShowTokensSmall(Chr('`'), Str(name), Chr('`'));
    assert PieceTokens(Chr('`')) == [Lit("`")];
  }

  lemma ShowTokensPair(p: Piece, q: Piece)
    ensures ShowTokens([p, q]) == PieceTokens(p) + PieceTokens(q)
  {
    assert [p, q][1..] == [q] && [q][1..] == [];
    assert ShowTokens([q]) == PieceTokens(q);
  }



  lemma PrefixTokensAgree(con: Constr, xs: seq<Cell>)
    requires !IsInfix(con) && |xs| == con.arity
    ensures ShowTokens(ShowSpec(Con(con), xs, None).pieces) == PrefixTokens(con)
  {
    if |xs| > 0 {
      var rest := Interleaved(Chr(' '), ShownAll(10, xs));
      assert ShowSpec(Con(con), xs, None).pieces == [Str(con.name)] + rest;
      ShowTokensAppend([Str(con.name)], rest);
      SpacedTokens(10, xs);
    }
  }

  /**
   * The tokens of the text derived `Show` writes for a constructor applied to
   * its fields are the tokens the corrected reader expects. A record must have
   * at least one field (see the empty record under "Left out").
   */
  lemma ShowReadTokensFixed(con: Constr, xs: seq<Cell>, cfs: seq<CfunSfun>)
    requires |xs| == con.arity
    requires LookupSels(cfs, con).Some? ==> |LookupSels(cfs, con).value| == |xs| >= 1
    ensures ShowTokens(ShowSpec(Con(con), xs, LookupSels(cfs, con)).pieces) == ConTokensFixed(con, LookupSels(cfs, con))
  {
    var sels := LookupSels(cfs, con);
    if sels.Some? {
      RecordTokensAgree(con, sels.value, xs);
    } else if IsInfix(con) {
      InfixTokensAgree(con, xs);
    } else {
      PrefixTokensAgree(con, xs);
    }
  }

  /** The corrected reader demands parentheses exactly where derived `Show` writes them. */
  lemma ShowReadParensFixed(con: Constr, xs: seq<Cell>, cfs: seq<CfunSfun>, d: Cell)
    requires |xs| == con.arity
    requires LookupSels(cfs, con).Some? ==> |LookupSels(cfs, con).value| == |xs|
    ensures forall dv :: DemandsParens(ReadCondFixed(con, cfs, d), d, dv) <==>
      ShowParens(ShowSpec(Con(con), xs, LookupSels(cfs, con)), dv)
  {
    ReadCondFixedParens(con, cfs, d);
  }

  /**
   * As written, the reader expects the tokens derived `Show` writes except
   * for an infix constructor with an alphanumeric name, whose backquotes it
   * does not read.
   */
  lemma ShowReadTokensAsWritten(con: Constr, xs: seq<Cell>, cfs: seq<CfunSfun>)
    requires |xs| == con.arity
    requires LookupSels(cfs, con).Some? ==> |LookupSels(cfs, con).value| == |xs| >= 1
    ensures ShowTokens(ShowSpec(Con(con), xs, LookupSels(cfs, con)).pieces) == ConTokens(con, LookupSels(cfs, con)) <==>
      !(LookupSels(cfs, con).None? && IsInfix(con) && con.alphanumeric)
  {
    ShowReadTokensFixed(con, xs, cfs);
    if LookupSels(cfs, con).None? && IsInfix(con) && con.alphanumeric {
      assert |QuotedInfixTokens(con)| != |InfixTokens(con)|;
    }
  }

  /**
   * As written, whenever the reader demands parentheses the shown text has
   * them, except for a record constructor with fields: it is never shown in
   * parentheses, yet read only below precedence 10.
   */
  lemma ShowReadParensAsWritten(con: Constr, xs: seq<Cell>, cfs: seq<CfunSfun>, d: Cell)
    requires |xs| == con.arity
    requires LookupSels(cfs, con).Some? ==> |LookupSels(cfs, con).value| == |xs|
    ensures (forall dv :: DemandsParens(ReadCond(con, cfs, d), d, dv) ==>
               ShowParens(ShowSpec(Con(con), xs, LookupSels(cfs, con)), dv)) <==>
      !(LookupSels(cfs, con).Some? && con.arity > 0)
  {
    var rn := ShowSpec(Con(con), xs, LookupSels(cfs, con));
    ReadCondParens(con, cfs, d);
    ShowParensOf(con, xs, LookupSels(cfs, con));
    if LookupSels(cfs, con).Some? && con.arity > 0 {
      assert DemandsParens(ReadCond(con, cfs, d), d, 10) && !ShowParens(rn, 10);
    }
  }

  /**
   * Derived `Show` parenthesises a constructor with fields, unless it is a
   * record, from precedence 10 on, or from p + 1 on for an infix one.
   */
  lemma ShowParensOf(con: Constr, xs: seq<Cell>, sels: Option<seq<string>>)
    requires |xs| == con.arity
    requires sels.Some? ==> |sels.value| == |xs|
    ensures forall dv :: ShowParens(ShowSpec(Con(con), xs, sels), dv) <==>
      sels.None? && con.arity > 0 && dv >= (if IsInfix(con) then con.syntax.prec + 1 else 10)
  {
  }


  /** A record constructor `C {x :: Int}` and a prefix constructor `P` with a field of the same type. */
  const RecordC := Constr("C", 1, Syntax(Applic, 9), false)
  const RecordCfs := [CfunSfun(RecordC, ["x"])]

  /**
   * `show (P (C {x = 1}))` is "P C{x=1}": the field of `P` is shown at
   * precedence 10 without parentheses, but read at precedence 10 the reader
   * of `C` demands them, so the text does not read back.
   */
  lemma RecordFieldNotReadBack()
    ensures DemandsParens(ReadCond(RecordC, RecordCfs, Inv(0)), Inv(0), 10)
    ensures !ShowParens(ShowSpec(Con(RecordC), [Inv(1)], LookupSels(RecordCfs, RecordC)), 10)
    ensures !DemandsParens(ReadCondFixed(RecordC, RecordCfs, Inv(0)), Inv(0), 10)
  {
  }

  /** `data T = Int `Plus` Int` with `infixl 6 `Plus``. */
  const PlusCon := Constr("Plus", 2, Syntax(LeftAss, 6), true)

  /**
   * `show (1 `Plus` 2)` is "1 `Plus` 2", but the reader as written lexes
   * "Plus" right after the left operand, where the text has a backquote.
   */
  lemma BackquotedInfixNotReadBack()
    ensures ConTokensFixed(PlusCon, None) == ShowTokens(ShowSpec(Con(PlusCon), [Inv(1), Inv(2)], None).pieces)
    ensures ShowTokens(ShowSpec(Con(PlusCon), [Inv(1), Inv(2)], None).pieces)[1] == Lit("`")
    ensures ConTokens(PlusCon, None)[1] == Lit("Plus")
  {
    InfixTokensAgree(PlusCon, [Inv(1), Inv(2)]);
  }

  /**
   * What the derived `showsPrec` equation writes for a constructor pattern is
   * what the derived `readsPrec` (corrected) reads back: the same tokens, and
   * parentheses exactly where the reader demands them. Tuples are written and
   * read as "(", the components separated by ",", then ")", never in
   * parentheses of their own.
   */
  lemma ShowThenRead(d: Cell, pat: Cell, cfs: seq<CfunSfun>, dr: Cell)
    requires WellShaped(pat) && SelsFit(cfs) && d.Inv?
    requires Head(pat).Con? && LookupSels(cfs, Head(pat).con).Some? ==> Head(pat).con.arity >= 1
    ensures var rn := Render(ShowsPrecRhs(d, pat, cfs), d);
      if Head(pat).TupleCon? then
        ShowTokens(rn.pieces) == TupleTokens(Head(pat).size) && rn.parenFrom == None
      else
        ShowTokens(rn.pieces) == ConTokensFixed(Head(pat).con, LookupSels(cfs, Head(pat).con)) &&
        forall dv :: DemandsParens(ReadCondFixed(Head(pat).con, cfs, dr), dr, dv) <==> ShowParens(rn, dv)
  {
    ShowsPrecRhsMeaning(d, pat, cfs);
    var h := Head(pat);
    var xs := Args(pat);
    if h.TupleCon? {
      TupleTokensAgree(xs);
    } else {
      ShowReadTokensFixed(h.con, xs, cfs);
      ShowReadParensFixed(h.con, xs, cfs, dr);
    }
  }
}
