/**
 * Derived `Show`: the equation `showsPrec d pat = rhs` for one constructor
 * (`mkAltShow`) and its right-hand side (`showsPrecRhs`) for tuples, record
 * constructors, nullary constructors, binary infix constructors and prefix
 * constructors. The right-hand side is a composition of `ShowS` functions; its
 * meaning is given by `Render`, which reads off the optional `showParen`
 * threshold and the sequence of printed pieces.
 */
module DeriveShow {
  import opened DeriveAst

  /** A constructor's field selectors, for constructors declared with record syntax. */
  datatype CfunSfun = CfunSfun(con: Constr, sels: seq<string>)

  /** The selectors of `c` if `c` was declared with record syntax: the first entry for `c` wins. */
  function LookupSels(cfs: seq<CfunSfun>, c: Constr): (r: Option<seq<string>>)
    ensures r.None? <==> forall i :: 0 <= i < |cfs| ==> cfs[i].con != c
    ensures r.Some? ==> exists i :: 0 <= i < |cfs| && cfs[i].con == c && cfs[i].sels == r.value &&
                          forall j :: 0 <= j < i ==> cfs[j].con != c
    decreases |cfs|
  {
    if cfs == [] then None
    else if cfs[0].con == c then Some(cfs[0].sels)
    else
      var r := LookupSels(cfs[1..], c);
      assert forall i :: 1 <= i < |cfs| ==> cfs[1..][i - 1] == cfs[i];
      if r.Some? then
        var i :| 0 <= i < |cfs| - 1 && cfs[1..][i].con == c && cfs[1..][i].sels == r.value &&
                 forall j :: 0 <= j < i ==> cfs[1..][j].con != c;
        assert cfs[i + 1].con == c;
        r
      else r
  }

  // The building blocks the generator names with macros.
  function ConsChar(c: char): Cell { Ap(Con(ConsConstr), CharLit(c)) }
  function Shows(k: int): Cell { Ap(VarShowsPrec, IntLit(k)) }
  function ComposeChar(c: char): Cell { Ap(VarCompose, ConsChar(c)) }
  function Compose(f: Cell, g: Cell): Cell { Ap2(VarCompose, f, g) }
  function ShowString(s: string): Cell { Ap(VarAppend, StrLit(s)) }

  /** The loop for a tuple: `rhs := showChar ',' . showsPrec 0 x . rhs` for fields `i` down to 2. */
  function TupleFold(pat: Cell, i: nat, rhs: Cell): Cell
    requires SpineLength(pat) >= i
    decreases i
  {
    if i > 1 then TupleFold(pat.fun, i - 1, Ap(ComposeChar(','), Compose(Ap(Shows(0), pat.arg), rhs)))
    else rhs
  }

  /**
   * The loop for a record: fields are walked from the last, pairing each with
   * the selectors walked from the last, and a comma goes between fields.
   */
  function RecordFold(pat: Cell, sels: seq<string>, rhs: Cell): Cell
    requires SpineLength(pat) <= |sels|
  {
    if pat.Ap? then
      var rhs' := Compose(Ap2(VarShowField, StrLit(sels[|sels| - 1]), pat.arg), rhs);
      if pat.fun.Ap? then RecordFold(pat.fun, sels[..|sels| - 1], Ap(ComposeChar(','), rhs'))
      else rhs'
    else rhs
  }

  /** The loop for a prefix constructor: `rhs := showChar ' ' . showsPrec 10 x . rhs`. */
  function PrefixFold(pat: Cell, rhs: Cell): Cell
  {
    if pat.Ap? then PrefixFold(pat.fun, Ap(ComposeChar(' '), Compose(Ap(Shows(10), pat.arg), rhs)))
    else rhs
  }

  /**
   * The precedence at which the left operand of an infix constructor is shown
   * (and read): the constructor's own on a left-associative one, one higher
   * otherwise.
   */
  function LeftPrec(s: Syntax): (r: int)
    ensures r == s.prec || r == s.prec + 1
    ensures r == s.prec <==> s.assoc == LeftAss
  {
    if s.assoc == LeftAss then s.prec else s.prec + 1
  }

  /**
   * The precedence at which the right operand of an infix constructor is shown
   * (and read): the constructor's own on a right-associative one, one higher
   * otherwise.
   */
  function RightPrec(s: Syntax): (r: int)
    ensures r == s.prec || r == s.prec + 1
    ensures r == s.prec <==> s.assoc == RightAss
  {
    if s.assoc == RightAss then s.prec else s.prec + 1
  }

  /** The constructor is shown and read infix: a binary constructor with a declared fixity. */
  predicate IsInfix(c: Constr)
  {
    c.arity == 2 && c.syntax.assoc != Applic
  }

  /** A pattern whose head is a tuple or constructor applied to as many fields as it has. */
  predicate WellShaped(pat: Cell)
  {
    var h := Head(pat);
    (h.TupleCon? && h.size >= 1 && SpineLength(pat) == h.size) ||
    (h.Con? && SpineLength(pat) == h.con.arity)
  }

  /** Record constructors have one selector per field. */
  predicate SelsFit(cfs: seq<CfunSfun>)
  {
    forall i :: 0 <= i < |cfs| ==> |cfs[i].sels| == cfs[i].con.arity
  }

  /** `showsPrecRhs(d, pat)`. */
  function ShowsPrecRhs(d: Cell, pat: Cell, cfs: seq<CfunSfun>): Cell
    requires WellShaped(pat) && SelsFit(cfs)
  {
    var h := Head(pat);
    if h.TupleCon? then ShowTupleRhs(pat, h.size)
    else
      var c := h.con;
      var sels := LookupSels(cfs, c);
      if sels.Some? then
        SelsOfFit(cfs, c);
        ShowRecordRhs(c, pat, sels.value)
      else if c.arity == 0 then
        ShowString(c.name)
      else if IsInfix(c) then
        ShowInfixRhs(d, c, pat)
      else
        ShowPrefixRhs(d, c, pat)
  }

  /** A tuple: "(", the first field at precedence 0, then the others each after ",", then ")". */
  function ShowTupleRhs(pat: Cell, n: nat): Cell
    requires SpineLength(pat) == n >= 1
  {
    var last := TupleFold(pat, n, ConsChar(')'));
    var rest := PeelN(pat, n - 1);
    Ap(ComposeChar('('), Compose(Ap(Shows(0), rest.arg), last))
  }

  /** A record: the name, "{", the fields with their selectors separated by ",", then "}". */
  function ShowRecordRhs(c: Constr, pat: Cell, sels: seq<string>): Cell
    requires SpineLength(pat) <= |sels|
  {
    Compose(ShowString(c.name), Ap(ComposeChar('{'), RecordFold(pat, sels, ConsChar('}'))))
  }

  /** A binary infix constructor: the operands at the precedences its associativity gives, around the name. */
  function ShowInfixRhs(d: Cell, c: Constr, pat: Cell): Cell
    requires SpineLength(pat) == 2
  {
    assert SpineLength(pat.fun) == 1;
    Ap2(VarShowParen, Ap2(VarLe, IntLit(c.syntax.prec + 1), d), InfixBody(c, pat.fun.arg, pat.arg))
  }

  /** The unparenthesised text of an infix application: `x`, the operator, `y`. */
  function InfixBody(c: Constr, x: Cell, y: Cell): Cell
  {
    var s := c.syntax;
    var rhs0 := Ap(ComposeChar(' '), Ap2(VarShowsPrec, IntLit(RightPrec(s)), y));
    var rhs1 := if c.alphanumeric then
                  Ap(ComposeChar('`'), Compose(ShowString(c.name), Ap(ComposeChar('`'), rhs0)))
                else Compose(ShowString(c.name), rhs0);
    Compose(Ap2(VarShowsPrec, IntLit(LeftPrec(s)), x), Ap(ComposeChar(' '), rhs1))
  }


  /** A prefix constructor: the name, then each field at precedence 10 after a space. */
  function ShowPrefixRhs(d: Cell, c: Constr, pat: Cell): Cell
    requires pat.Ap?
  {
    var rhs := PrefixFold(pat.fun, Ap(ComposeChar(' '), Ap(Shows(10), pat.arg)));
    Ap2(VarShowParen, Ap2(VarLe, IntLit(10), d), Compose(ShowString(c.name), rhs))
  }

  /** The spine left after the tuple loop has peeled `k` fields. */
  function PeelN(pat: Cell, k: nat): (r: Cell)
    requires SpineLength(pat) > k
    ensures SpineLength(r) == SpineLength(pat) - k && r.Ap?
  {
    if k == 0 then pat else PeelN(pat.fun, k - 1)
  }

  lemma SelsOfFit(cfs: seq<CfunSfun>, c: Constr)
    requires SelsFit(cfs) && LookupSels(cfs, c).Some?
    ensures |LookupSels(cfs, c).value| == c.arity
  {
  }

  /**
   * `mkAltShow(line, h, a)` over the variable cache `vs`: the first cached
   * variable is the precedence argument and the next `a` are the fields.
   */
  function MkAltShow(line: int, h: Cell, a: nat, vs: seq<Cell>, cfs: seq<CfunSfun>): (alt: Alt)
    requires |vs| >= a + 1 && SelsFit(cfs)
    requires (h.TupleCon? && h.size == a >= 1) || (h.Con? && h.con.arity == a)
    ensures |alt.pats| == 2 && alt.pats[0] == vs[0]
    ensures Head(alt.pats[1]) == h && Args(alt.pats[1]) == vs[1..a + 1]
  {
    var pat := ApplyTo(h, vs[1..a + 1]);
    ApplyToSpine(h, vs[1..a + 1]);
    SpineLengthArgs(pat);
    Alt([vs[0], pat], line, ShowsPrecRhs(vs[0], pat, cfs))
  }

  // ------------------------------------------------------------ meaning

  /** What a `ShowS` composition prints, piece by piece. */
  datatype Piece =
    | Chr(c: char)                   // showChar c
    | Str(s: string)                 // showString s
    | Shown(prec: int, x: Cell)      // showsPrec prec x
    | Field(sel: string, x: Cell)    // primShowField sel x: the selector, "=", then the value
    | Opaque(e: Cell)                // anything else

  function Pieces(e: Cell): seq<Piece>
  {
    if e.Ap? && e.fun.Ap? && e.fun.fun == VarCompose then Pieces(e.fun.arg) + Pieces(e.arg)
    else if e.Ap? && e.fun == Con(ConsConstr) && e.arg.CharLit? then [Chr(e.arg.c)]
    else if e.Ap? && e.fun == VarAppend && e.arg.StrLit? then [Str(e.arg.s)]
    else if e.Ap? && e.fun.Ap? && e.fun.fun == VarShowsPrec && e.fun.arg.IntLit? then [Shown(e.fun.arg.i, e.arg)]
    else if e.Ap? && e.fun.Ap? && e.fun.fun == VarShowField && e.fun.arg.StrLit? then [Field(e.fun.arg.s, e.arg)]
    else [Opaque(e)]
  }

  /**
   * A right-hand side's meaning: the precedence from which on the output is
   * parenthesised (`showParen (k <= d)`), if any, and the printed pieces.
   */
  datatype Rendering = Rendering(parenFrom: Option<int>, pieces: seq<Piece>)

  function Render(rhs: Cell, d: Cell): Rendering
  {
    if rhs.Ap? && rhs.fun.Ap? && rhs.fun.fun == VarShowParen && rhs.fun.arg.Ap? && rhs.fun.arg.fun.Ap?
       && rhs.fun.arg.fun.fun == VarLe && rhs.fun.arg.fun.arg.IntLit? && rhs.fun.arg.arg == d
    then Rendering(Some(rhs.fun.arg.fun.arg.i), Pieces(rhs.arg))
    else Rendering(None, Pieces(rhs))
  }

  /** Each piece preceded by a separator. */
  function Interleaved(sep: Piece, ps: seq<Piece>): (r: seq<Piece>)
    ensures |r| == 2 * |ps|
    decreases |ps|
  {
    if ps == [] then [] else [sep, ps[0]] + Interleaved(sep, ps[1..])
  }

  lemma {:induction false} InterleavedAppend(sep: Piece, a: seq<Piece>, b: seq<Piece>)
    ensures Interleaved(sep, a + b) == Interleaved(sep, a) + Interleaved(sep, b)
    decreases |a|
  {
    if a != [] {
      assert (a + b)[0] == a[0];
      assert (a + b)[1..] == a[1..] + b;
      InterleavedAppend(sep, a[1..], b);
      calc {
        Interleaved(sep, a + b);
        [sep, a[0]] + Interleaved(sep, a[1..] + b);
        [sep, a[0]] + (Interleaved(sep, a[1..]) + Interleaved(sep, b));
        ([sep, a[0]] + Interleaved(sep, a[1..])) + Interleaved(sep, b);
      }
    } else {
      assert a + b == b;
    }
  }

  function ShownAll(k: int, xs: seq<Cell>): (r: seq<Piece>)
    ensures |r| == |xs| && forall i :: 0 <= i < |xs| ==> r[i] == Shown(k, xs[i])
  {
    seq(|xs|, i requires 0 <= i < |xs| => Shown(k, xs[i]))
  }

  function FieldsAll(ls: seq<string>, xs: seq<Cell>): (r: seq<Piece>)
    requires |ls| == |xs|
    ensures |r| == |xs| && forall i :: 0 <= i < |xs| ==> r[i] == Field(ls[i], xs[i])
  {
    seq(|xs|, i requires 0 <= i < |xs| => Field(ls[i], xs[i]))
  }

  /**
   * The text derived `show` is specified to produce for a constructor with the
   * given fields (and selectors, for a record), as in the Haskell 1.4 report.
   */
  function ShowSpec(h: Cell, xs: seq<Cell>, sels: Option<seq<string>>): Rendering
    requires h.TupleCon? ==> |xs| >= 1
    requires sels.Some? ==> |sels.value| == |xs|
  {
    if h.TupleCon? then TupleSpec(xs)
    else if !h.Con? then Rendering(None, [])
    else if sels.Some? then RecordSpec(h.con, sels.value, xs)
    else if |xs| == 0 then Rendering(None, [Str(h.con.name)])
    else if IsInfix(h.con) && |xs| == 2 then InfixSpec(h.con, xs[0], xs[1])
    else PrefixSpec(h.con, xs)
  }

  function TupleSpec(xs: seq<Cell>): Rendering
    requires |xs| >= 1
  {
    Rendering(None, [Chr('('), Shown(0, xs[0])] + Interleaved(Chr(','), ShownAll(0, xs[1..])) + [Chr(')')])
  }

  function RecordSpec(c: Constr, sels: seq<string>, xs: seq<Cell>): Rendering
    requires |sels| == |xs|
  {
    Rendering(None, [Str(c.name), Chr('{')] + SepFields(FieldsAll(sels, xs)) + [Chr('}')])
  }

  /** Record fields separated by commas. */
  function SepFields(fs: seq<Piece>): seq<Piece>
  {
    if fs == [] then [] else [fs[0]] + Interleaved(Chr(','), fs[1..])
  }


  function InfixSpec(c: Constr, x: Cell, y: Cell): Rendering
  {
    Rendering(Some(c.syntax.prec + 1), InfixText(c, x, y))
  }

  /** The operands at the precedences the associativity gives, around the operator and two spaces. */
  function InfixText(c: Constr, x: Cell, y: Cell): seq<Piece>
  {
    var op := if c.alphanumeric then [Chr('`'), Str(c.name), Chr('`')] else [Str(c.name)];
    [Shown(LeftPrec(c.syntax), x), Chr(' ')] + op + [Chr(' '), Shown(RightPrec(c.syntax), y)]
  }


  function PrefixSpec(c: Constr, xs: seq<Cell>): Rendering
  {
    Rendering(Some(10), [Str(c.name)] + Interleaved(Chr(' '), ShownAll(10, xs)))
  }

  lemma PiecesCompose(f: Cell, g: Cell)
    ensures Pieces(Compose(f, g)) == Pieces(f) + Pieces(g)
  {
  }

  lemma PiecesChar(c: char, g: Cell)
    ensures Pieces(Ap(ComposeChar(c), g)) == [Chr(c)] + Pieces(g)
    ensures Pieces(ConsChar(c)) == [Chr(c)]
  {
    assert Pieces(ConsChar(c)) == [Chr(c)];
  }

  lemma PiecesString(s: string)
    ensures Pieces(ShowString(s)) == [Str(s)]
  {
  }

  lemma PiecesShows(k: int, x: Cell)
    ensures Pieces(Ap2(VarShowsPrec, IntLit(k), x)) == [Shown(k, x)]
  {
  }

  /** One step of the tuple and prefix loops prints a separator and a field. */
  lemma PiecesSep(c: char, k: int, x: Cell, rhs: Cell)
    ensures Pieces(Ap(ComposeChar(c), Compose(Ap(Shows(k), x), rhs))) == [Chr(c), Shown(k, x)] + Pieces(rhs)
  {
    assert Pieces(ConsChar(c)) == [Chr(c)];
    assert Pieces(Ap(Shows(k), x)) == [Shown(k, x)];
    assert Pieces(Compose(Ap(Shows(k), x), rhs)) == [Shown(k, x)] + Pieces(rhs);
  }

  lemma {:induction false} TupleFoldPieces(pat: Cell, i: nat, rhs: Cell)
    requires SpineLength(pat) >= i >= 1
    ensures SpineLength(pat) == |Args(pat)|
    ensures Pieces(TupleFold(pat, i, rhs)) ==
            Interleaved(Chr(','), ShownAll(0, Args(pat)[|Args(pat)| - (i - 1)..])) + Pieces(rhs)
    decreases i
  {
    SpineLengthArgs(pat);
    var xs := Args(pat);
    var m := |xs|;
    if i > 1 {
      var rhs' := Ap(ComposeChar(','), Compose(Ap(Shows(0), pat.arg), rhs));
      TupleFoldPieces(pat.fun, i - 1, rhs');
      assert Args(pat.fun) == xs[..m - 1];
      assert xs[..m - 1][m - 1 - (i - 2)..] == xs[m - (i - 1)..m - 1];
      PiecesSep(',', 0, pat.arg, rhs);
      assert ShownAll(0, xs[m - (i - 1)..]) == ShownAll(0, xs[m - (i - 1)..m - 1]) + [Shown(0, pat.arg)];
      InterleavedAppend(Chr(','), ShownAll(0, xs[m - (i - 1)..m - 1]), [Shown(0, pat.arg)]);
    } else {
      assert xs[m..] == [];
    }
  }

  lemma {:induction false} PeelNArgs(pat: Cell, k: nat)
    requires SpineLength(pat) > k
    ensures SpineLength(pat) == |Args(pat)|
    ensures PeelN(pat, k).arg == Args(pat)[|Args(pat)| - 1 - k]
    decreases k
  {
    SpineLengthArgs(pat);
    if k > 0 {
      PeelNArgs(pat.fun, k - 1);
    }
  }

  lemma {:induction false} PrefixFoldPieces(pat: Cell, rhs: Cell)
    ensures Pieces(PrefixFold(pat, rhs)) == Interleaved(Chr(' '), ShownAll(10, Args(pat))) + Pieces(rhs)
  {
    if pat.Ap? {
      var rhs' := Ap(ComposeChar(' '), Compose(Ap(Shows(10), pat.arg), rhs));
      PrefixFoldPieces(pat.fun, rhs');
      PiecesSep(' ', 10, pat.arg, rhs);
      SepShownSnoc(Chr(' '), 10, pat);
      SnocAlgebra(Pieces(PrefixFold(pat.fun, rhs')), Interleaved(Chr(' '), ShownAll(10, Args(pat.fun))),
        [Chr(' '), Shown(10, pat.arg)], Pieces(rhs'), Pieces(rhs));
    } else {
      assert ShownAll(10, Args(pat)) == [];
    }
  }

  lemma InterleavedSnoc(sep: Piece, ps: seq<Piece>, p: Piece)
    ensures Interleaved(sep, ps + [p]) == Interleaved(sep, ps) + [sep, p]
  {
    InterleavedAppend(sep, ps, [p]);
    assert [p][1..] == [];
  }

  /** The fields of an application, shown and separated, end with its last argument. */
  lemma SepShownSnoc(sep: Piece, k: int, pat: Cell)
    requires pat.Ap?
    ensures Interleaved(sep, ShownAll(k, Args(pat))) == Interleaved(sep, ShownAll(k, Args(pat.fun))) + [sep, Shown(k, pat.arg)]
  {
    assert ShownAll(k, Args(pat)) == ShownAll(k, Args(pat.fun)) + [Shown(k, pat.arg)];
    InterleavedSnoc(sep, ShownAll(k, Args(pat.fun)), Shown(k, pat.arg));
  }

  /** `showParen (k <= d) body` is rendered as the body, parenthesised from `k` on. */
  lemma RenderParen(k: int, d: Cell, body: Cell)
    requires d.Inv?
    ensures Render(Ap2(VarShowParen, Ap2(VarLe, IntLit(k), d), body), d) == Rendering(Some(k), Pieces(body))
  {
  }

  /** A composition is never parenthesised. */
  lemma RenderCompose(f: Cell, g: Cell, d: Cell)
    ensures Render(Compose(f, g), d) == Rendering(None, Pieces(Compose(f, g)))
  {
  }


  /** A name followed by more output. */
  lemma PiecesNameThen(s: string, g: Cell)
    ensures Pieces(Compose(ShowString(s), g)) == [Str(s)] + Pieces(g)
  {
    PiecesString(s);
  }

  /** A field shown at precedence `k` after a separator. */
  lemma PiecesSepLast(c: char, k: int, x: Cell)
    ensures Pieces(Ap(ComposeChar(c), Ap(Shows(k), x))) == [Chr(c), Shown(k, x)]
  {
    PiecesShows(k, x);
    PiecesChar(c, Ap(Shows(k), x));
  }


  /** One field of the record loop prints `label=value`. */
  lemma PiecesField(sel: string, x: Cell, rhs: Cell)
    ensures Pieces(Compose(Ap2(VarShowField, StrLit(sel), x), rhs)) == [Field(sel, x)] + Pieces(rhs)
  {
    assert Pieces(Ap2(VarShowField, StrLit(sel), x)) == [Field(sel, x)];
  }

  /** The fields of a record end with its last field. */
  lemma FieldsAllSnoc(sels: seq<string>, xs: seq<Cell>)
    requires |sels| == |xs| >= 1
    ensures var n := |xs| - 1;
      FieldsAll(sels, xs) == FieldsAll(sels[..n], xs[..n]) + [Field(sels[n], xs[n])]
  {
    var n := |xs| - 1;
    var a, b := FieldsAll(sels, xs), FieldsAll(sels[..n], xs[..n]) + [Field(sels[n], xs[n])];
    forall k | 0 <= k < |a| ensures a[k] == b[k] {
      if k < n {
        assert b[k] == FieldsAll(sels[..n], xs[..n])[k];
      }
    }
  }

  /** The comma-separated fields, one field longer. */
  lemma SepFieldsSnoc(fs: seq<Piece>, f: Piece)
    requires |fs| >= 1
    ensures [(fs + [f])[0]] + Interleaved(Chr(','), (fs + [f])[1..])
         == [fs[0]] + Interleaved(Chr(','), fs[1..]) + [Chr(','), f]
  {
    assert (fs + [f])[1..] == fs[1..] + [f];
    InterleavedSnoc(Chr(','), fs[1..], f);
  }


  /** What the record loop prints for the fields of `pat`, followed by `rhs`. */
  predicate RecordFoldPrints(pat: Cell, sels: seq<string>, rhs: Cell)
    requires SpineLength(pat) == |sels| >= 1
  {
    SpineLengthArgs(pat);
    var fs := FieldsAll(sels, Args(pat));
    Pieces(RecordFold(pat, sels, rhs)) == [fs[0]] + Interleaved(Chr(','), fs[1..]) + Pieces(rhs)
  }

  lemma {:induction false} RecordFoldPieces(pat: Cell, sels: seq<string>, rhs: Cell)
    requires SpineLength(pat) == |sels| >= 1
    ensures SpineLength(pat) == |Args(pat)|
    ensures var fs := FieldsAll(sels, Args(pat));
      Pieces(RecordFold(pat, sels, rhs)) == [fs[0]] + Interleaved(Chr(','), fs[1..]) + Pieces(rhs)
    decreases |sels|
  {
    SpineLengthArgs(pat);
    var n := |sels| - 1;
    if pat.fun.Ap? {
      var rhs' := Compose(Ap2(VarShowField, StrLit(sels[n]), pat.arg), rhs);
      RecordFoldPieces(pat.fun, sels[..n], Ap(ComposeChar(','), rhs'));
      RecordFoldNext(pat, sels, rhs);
    } else {
      RecordFoldLast(pat, sels, rhs);
    }
    assert RecordFoldPrints(pat, sels, rhs);
  }

  /** The record loop's last step (its first field) prints that field. */
  lemma RecordFoldLast(pat: Cell, sels: seq<string>, rhs: Cell)
    requires SpineLength(pat) == |sels| == 1
    ensures RecordFoldPrints(pat, sels, rhs)
  {
    SpineLengthArgs(pat);
    PiecesField(sels[0], pat.arg, rhs);
    assert Args(pat) == [pat.arg];
  }

  /** A step of the record loop prints a comma and one more field after the earlier ones. */
  lemma RecordFoldNext(pat: Cell, sels: seq<string>, rhs: Cell)
    requires SpineLength(pat) == |sels| >= 2
    requires RecordFoldPrints(pat.fun, sels[..|sels| - 1],
      Ap(ComposeChar(','), Compose(Ap2(VarShowField, StrLit(sels[|sels| - 1]), pat.arg), rhs)))
    ensures RecordFoldPrints(pat, sels, rhs)
  {
    SpineLengthArgs(pat);
    SpineLengthArgs(pat.fun);
    var n := |sels| - 1;
    var f := Field(sels[n], pat.arg);
    var rhs' := Ap(ComposeChar(','), Compose(Ap2(VarShowField, StrLit(sels[n]), pat.arg), rhs));
    var fs' := FieldsAll(sels[..n], Args(pat.fun));
    RecordFieldsSnoc(pat, sels);
    PiecesCommaField(sels[n], pat.arg, rhs);
    SepFieldsSnoc(fs', f);
    SnocAlgebra(Pieces(RecordFold(pat.fun, sels[..n], rhs')), [fs'[0]] + Interleaved(Chr(','), fs'[1..]),
      [Chr(','), f], Pieces(rhs'), Pieces(rhs));
  }

  /** Regrouping the printed pieces around a step of a loop. */
  lemma SnocAlgebra(whole: seq<Piece>, earlier: seq<Piece>, step: seq<Piece>, after: seq<Piece>, rest: seq<Piece>)
    requires whole == earlier + after && after == step + rest
    ensures whole == (earlier + step) + rest
  {
  }

  /** The fields of a record pattern end with its last argument's field. */
  lemma RecordFieldsSnoc(pat: Cell, sels: seq<string>)
    requires SpineLength(pat) == |sels| >= 2
    ensures SpineLength(pat.fun) == |Args(pat.fun)| == |sels| - 1
    ensures FieldsAll(sels, Args(pat)) == FieldsAll(sels[..|sels| - 1], Args(pat.fun)) + [Field(sels[|sels| - 1], pat.arg)]
  {
    SpineLengthArgs(pat);
    SpineLengthArgs(pat.fun);
    var xs := Args(pat);
    var n := |sels| - 1;
    FieldsAllSnoc(sels, xs);
    assert xs[..n] == Args(pat.fun) && xs[n] == pat.arg;
  }

  /** The comma and the field a step of the record loop prints. */
  lemma PiecesCommaField(sel: string, x: Cell, rhs: Cell)
    ensures Pieces(Ap(ComposeChar(','), Compose(Ap2(VarShowField, StrLit(sel), x), rhs))) == [Chr(','), Field(sel, x)] + Pieces(rhs)
  {
    PiecesField(sel, x, rhs);
    PiecesChar(',', Compose(Ap2(VarShowField, StrLit(sel), x), rhs));
  }





  /** The specified text's selectors: those of a record constructor, none otherwise. */
  function SelsOf(h: Cell, cfs: seq<CfunSfun>): Option<seq<string>>
  {
    if h.Con? then LookupSels(cfs, h.con) else None
  }

  /** A tuple is printed as "(", its components at precedence 0 separated by ",", then ")". */
  lemma TupleMeaning(d: Cell, pat: Cell, n: nat)
    requires SpineLength(pat) == n >= 1
    ensures |Args(pat)| == n
    ensures Render(ShowTupleRhs(pat, n), d) == TupleSpec(Args(pat))
  {
    SpineLengthArgs(pat);
    var xs := Args(pat);
    var last := TupleFold(pat, n, ConsChar(')'));
    var rest := PeelN(pat, n - 1);
    var rhs := ShowTupleRhs(pat, n);
    var text := [Chr('('), Shown(0, xs[0])] + Interleaved(Chr(','), ShownAll(0, xs[1..])) + [Chr(')')];
    assert Pieces(last) == Interleaved(Chr(','), ShownAll(0, xs[1..])) + [Chr(')')] by {
      TupleFoldPieces(pat, n, ConsChar(')'));
      assert xs[|xs| - (n - 1)..] == xs[1..];
      PiecesChar(')', last);
    }
    assert rest.arg == xs[0] by {
      PeelNArgs(pat, n - 1);
    }
    assert Pieces(rhs) == text by {
      PiecesShows(0, rest.arg);
      PiecesCompose(Ap(Shows(0), rest.arg), last);
      PiecesChar('(', Compose(Ap(Shows(0), rest.arg), last));
    }
  }

  /** A record is printed as its name, "{", its `label=value` fields separated by ",", then "}". */
  lemma RecordMeaning(d: Cell, c: Constr, pat: Cell, sels: seq<string>)
    requires SpineLength(pat) == |sels|
    ensures |Args(pat)| == |sels|
    ensures Render(ShowRecordRhs(c, pat, sels), d) == RecordSpec(c, sels, Args(pat))
  {
    SpineLengthArgs(pat);
    var body := RecordFold(pat, sels, ConsChar('}'));
    RecordBodyPieces(pat, sels);
    PiecesChar('{', body);
    PiecesNameThen(c.name, Ap(ComposeChar('{'), body));
    RenderCompose(ShowString(c.name), Ap(ComposeChar('{'), body), d);
    assert [Str(c.name)] + ([Chr('{')] + Pieces(body))
        == [Str(c.name), Chr('{')] + SepFields(FieldsAll(sels, Args(pat))) + [Chr('}')];
  }


  /** The record loop prints the comma-separated fields, then "}". */
  lemma RecordBodyPieces(pat: Cell, sels: seq<string>)
    requires SpineLength(pat) == |sels|
    ensures SpineLength(pat) == |Args(pat)|
    ensures Pieces(RecordFold(pat, sels, ConsChar('}'))) == SepFields(FieldsAll(sels, Args(pat))) + [Chr('}')]
  {
    SpineLengthArgs(pat);
    PiecesChar('}', ConsChar('}'));
    if |sels| >= 1 {
      RecordFoldPieces(pat, sels, ConsChar('}'));
    } else {
      assert Args(pat) == [];
    }
  }


  /**
   * A binary constructor with a fixity is printed as the left operand, the
   * name (between backquotes if alphanumeric) and the right operand, each at
   * the precedence its associativity gives, parenthesised from p + 1 on.
   */
  lemma InfixMeaning(d: Cell, c: Constr, pat: Cell)
    requires SpineLength(pat) == 2 && d.Inv?
    ensures |Args(pat)| == 2
    ensures Render(ShowInfixRhs(d, c, pat), d) == InfixSpec(c, Args(pat)[0], Args(pat)[1])
  {
    InfixArgs(pat);
    InfixBodyPieces(c, pat.fun.arg, pat.arg);
    RenderParen(c.syntax.prec + 1, d, InfixBody(c, pat.fun.arg, pat.arg));
  }

  /** The infix body prints the specified text. */
  lemma InfixBodyPieces(c: Constr, x: Cell, y: Cell)
    ensures Pieces(InfixBody(c, x, y)) == InfixText(c, x, y)
  {
    var s := c.syntax;
    var rhs0 := Ap(ComposeChar(' '), Ap2(VarShowsPrec, IntLit(RightPrec(s)), y));
    PiecesSepLast(' ', RightPrec(s), y);
    var rhs1 := if c.alphanumeric then
                  Ap(ComposeChar('`'), Compose(ShowString(c.name), Ap(ComposeChar('`'), rhs0)))
                else Compose(ShowString(c.name), rhs0);
    InfixOpPieces(c, rhs0);
    PiecesShownThen(LeftPrec(s), x, rhs1);
  }


  /** The two operands of a binary application. */
  lemma InfixArgs(pat: Cell)
    requires SpineLength(pat) == 2
    ensures pat.Ap? && pat.fun.Ap? && Args(pat) == [pat.fun.arg, pat.arg]
  {
    assert SpineLength(pat.fun.fun) == 0;
    assert Args(pat.fun) == [pat.fun.arg];
  }


  /** The operator name, between backquotes when alphanumeric. */
  lemma InfixOpPieces(c: Constr, rhs0: Cell)
    ensures var rhs1 := if c.alphanumeric then
                          Ap(ComposeChar('`'), Compose(ShowString(c.name), Ap(ComposeChar('`'), rhs0)))
                        else Compose(ShowString(c.name), rhs0);
      Pieces(rhs1) == (if c.alphanumeric then [Chr('`'), Str(c.name), Chr('`')] else [Str(c.name)]) + Pieces(rhs0)
  {
    PiecesString(c.name);
    if c.alphanumeric {
      PiecesChar('`', rhs0);
      PiecesCompose(ShowString(c.name), Ap(ComposeChar('`'), rhs0));
      PiecesChar('`', Compose(ShowString(c.name), Ap(ComposeChar('`'), rhs0)));
    } else {
      PiecesCompose(ShowString(c.name), rhs0);
    }
  }

  /** An operand shown at precedence `k`, then a space and more output. */
  lemma PiecesShownThen(k: int, x: Cell, g: Cell)
    ensures Pieces(Compose(Ap2(VarShowsPrec, IntLit(k), x), Ap(ComposeChar(' '), g))) == [Shown(k, x), Chr(' ')] + Pieces(g)
  {
    PiecesShows(k, x);
    PiecesChar(' ', g);
    PiecesCompose(Ap2(VarShowsPrec, IntLit(k), x), Ap(ComposeChar(' '), g));
  }


  /** A prefix constructor is printed as its name and its fields at precedence 10, parenthesised from 10 on. */
  lemma PrefixMeaning(d: Cell, c: Constr, pat: Cell)
    requires pat.Ap? && d.Inv?
    ensures Render(ShowPrefixRhs(d, c, pat), d) == PrefixSpec(c, Args(pat))
  {
    var last := Ap(ComposeChar(' '), Ap(Shows(10), pat.arg));
    var fold := PrefixFold(pat.fun, last);
    var body := Compose(ShowString(c.name), fold);
    assert ShowPrefixRhs(d, c, pat) == Ap2(VarShowParen, Ap2(VarLe, IntLit(10), d), body);
    RenderParen(10, d, body);
    PiecesNameThen(c.name, fold);
    PrefixFoldPieces(pat.fun, last);
    PiecesSepLast(' ', 10, pat.arg);
    SepShownSnoc(Chr(' '), 10, pat);
  }


  /**
   * `showsPrecRhs` produces the specified text for every kind of constructor:
   * tuples and records are never parenthesised, nullary constructors show their
   * name, infix constructors show their operands at the precedences their
   * associativity gives (with backquotes around an alphanumeric name) and are
   * parenthesised from precedence p+1 on, and prefix constructors show each
   * field at precedence 10 after a space and are parenthesised from 10 on.
   */
  lemma ShowsPrecRhsMeaning(d: Cell, pat: Cell, cfs: seq<CfunSfun>)
    requires WellShaped(pat) && SelsFit(cfs)
    requires d.Inv?
    ensures SpineLength(pat) == |Args(pat)|
    ensures var sels := SelsOf(Head(pat), cfs);
      (sels.Some? ==> |sels.value| == |Args(pat)|) &&
      Render(ShowsPrecRhs(d, pat, cfs), d) == ShowSpec(Head(pat), Args(pat), sels)
  {
    SpineLengthArgs(pat);
    var h := Head(pat);
    if h.TupleCon? {
      TupleMeaning(d, pat, h.size);
    } else if LookupSels(cfs, h.con).Some? {
      SelsOfFit(cfs, h.con);
      RecordMeaning(d, h.con, pat, LookupSels(cfs, h.con).value);
    } else if h.con.arity == 0 {
      PiecesString(h.con.name);
    } else if IsInfix(h.con) {
      InfixMeaning(d, h.con, pat);
    } else {
      PrefixMeaning(d, h.con, pat);
    }
  }
}
