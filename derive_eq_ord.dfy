/**
 * The equations of derived `==` and `compare` for one constructor: the pair of
 * argument patterns (`makeDPats2`), the right-hand side of `==` (`mkAltEq`) and
 * of `compare` (`mkAltOrd`). Each builder walks the two patterns' application
 * spines from the last field outwards, as the generator's loops do; each is
 * proved equal to a reference definition written from the first field
 * inwards, and given a meaning by an evaluator over abstract field tests.
 */
module DeriveEqOrd {
  import opened DeriveAst

  /**
   * `makeDPats2(h, n)` over the variable cache `us`: the first pattern built
   * takes the first `n` cached variables, the second the next `n`, and the
   * result lists the second pattern first.
   */
  function DPats2(h: Cell, n: nat, us: seq<Cell>): (r: seq<Cell>)
    requires !h.Ap? && |us| >= 2 * n
    ensures |r| == 2
    ensures Head(r[0]) == h && Args(r[0]) == us[n..2 * n]
    ensures Head(r[1]) == h && Args(r[1]) == us[..n]
  {
    ApplyToSpine(h, us[n..2 * n]);
    ApplyToSpine(h, us[..n]);
    [ApplyTo(h, us[n..2 * n]), ApplyTo(h, us[..n])]
  }

  // ---------------------------------------------------------------- Eq

  /** The loop of `mkAltEq`: conjoin one more field test on the left of `e`. */
  function EqFold(p: Cell, q: Cell, e: Cell): Cell
    requires SpineLength(p) == SpineLength(q)
  {
    if p.Ap? then EqFold(p.fun, q.fun, Ap2(VarAnd, Ap2(VarEq, p.arg, q.arg), e)) else e
  }

  /** `mkAltEq(line, pats)`: the equation for `==` on the two patterns. */
  function MkAltEq(line: int, pats: seq<Cell>): Alt
    requires |pats| == 2 && SpineLength(pats[0]) == SpineLength(pats[1])
  {
    var p, q := pats[0], pats[1];
    var e := if p.Ap? then EqFold(p.fun, q.fun, Ap2(VarEq, p.arg, q.arg)) else VarTrue;
    Alt(pats, line, e)
  }

  /**
   * The reference right-hand side: `True` with no fields, else
   * `x1 == y1 && (x2 == y2 && ... (xn == yn))`.
   */
  function EqSpec(xs: seq<Cell>, ys: seq<Cell>): Cell
    requires |xs| == |ys|
    decreases |xs|
  {
    if |xs| == 0 then VarTrue
    else if |xs| == 1 then Ap2(VarEq, xs[0], ys[0])
    else Ap2(VarAnd, Ap2(VarEq, xs[0], ys[0]), EqSpec(xs[1..], ys[1..]))
  }

  lemma {:induction false} EqFoldSpec(p: Cell, q: Cell, xs: seq<Cell>, ys: seq<Cell>)
    requires SpineLength(p) == SpineLength(q) && |xs| == |ys| >= 1
    ensures SpineLength(p) == |Args(p)| && SpineLength(q) == |Args(q)|
    ensures EqFold(p, q, EqSpec(xs, ys)) == EqSpec(Args(p) + xs, Args(q) + ys)
  {
    SpineLengthArgs(p);
    SpineLengthArgs(q);
    if p.Ap? {
      var xs', ys' := [p.arg] + xs, [q.arg] + ys;
      assert xs'[1..] == xs && ys'[1..] == ys;
      assert EqSpec(xs', ys') == Ap2(VarAnd, Ap2(VarEq, p.arg, q.arg), EqSpec(xs, ys));
      EqFoldSpec(p.fun, q.fun, xs', ys');
      assert Args(p.fun) + xs' == Args(p) + xs;
      assert Args(q.fun) + ys' == Args(q) + ys;
    } else {
      assert Args(p) + xs == xs && Args(q) + ys == ys;
    }
  }

  /** `mkAltEq` builds exactly the reference conjunction of field tests, in field order. */
  lemma MkAltEqIsSpec(line: int, pats: seq<Cell>)
    requires |pats| == 2 && SpineLength(pats[0]) == SpineLength(pats[1])
    ensures |Args(pats[0])| == |Args(pats[1])|
    ensures MkAltEq(line, pats) == Alt(pats, line, EqSpec(Args(pats[0]), Args(pats[1])))
  {
    var p, q := pats[0], pats[1];
    SpineLengthArgs(p);
    SpineLengthArgs(q);
    if p.Ap? {
      EqFoldSpec(p.fun, q.fun, [p.arg], [q.arg]);
    }
  }

  /** The value of a Boolean right-hand side, given the value of each field test. */
  function EvalBool(e: Cell, eq: (Cell, Cell) -> bool): bool
  {
    match e
    case Ap(Ap(Var(f), a), b) =>
      if f == "==" then eq(a, b)
      else if f == "&&" then EvalBool(a, eq) && EvalBool(b, eq)
      else false
    case Var(v) => v == "True"
    case _ => false
  }

  lemma {:induction false} EqSpecMeaning(xs: seq<Cell>, ys: seq<Cell>, eq: (Cell, Cell) -> bool)
    requires |xs| == |ys|
    ensures EvalBool(EqSpec(xs, ys), eq) <==> forall i :: 0 <= i < |xs| ==> eq(xs[i], ys[i])
    decreases |xs|
  {
    if |xs| > 1 {
      EqSpecMeaning(xs[1..], ys[1..], eq);
      assert forall i :: 1 <= i < |xs| ==> xs[1..][i - 1] == xs[i] && ys[1..][i - 1] == ys[i];
    }
  }

  /**
   * Derived `==` on two values of the same constructor holds exactly when every
   * pair of corresponding fields is equal (and always for a nullary constructor).
   */
  lemma MkAltEqMeaning(line: int, pats: seq<Cell>, eq: (Cell, Cell) -> bool)
    requires |pats| == 2 && SpineLength(pats[0]) == SpineLength(pats[1])
    ensures |Args(pats[0])| == |Args(pats[1])|
    ensures EvalBool(MkAltEq(line, pats).rhs, eq) <==>
            forall i :: 0 <= i < |Args(pats[0])| ==> eq(Args(pats[0])[i], Args(pats[1])[i])
  {
    MkAltEqIsSpec(line, pats);
    EqSpecMeaning(Args(pats[0]), Args(pats[1]), eq);
  }

  // ---------------------------------------------------------------- Ord

  /** The loop of `mkAltOrd`: wrap `e` in one more `primCompAux` for an earlier field. */
  function CmpFold(p: Cell, q: Cell, e: Cell): Cell
    requires SpineLength(p) == SpineLength(q)
  {
    if p.Ap? then CmpFold(p.fun, q.fun, Ap3(VarCompAux, p.arg, q.arg, e)) else e
  }

  /** `mkAltOrd(line, pats)`: the equation for `compare` on the two patterns. */
  function MkAltOrd(line: int, pats: seq<Cell>): Alt
    requires |pats| == 2 && SpineLength(pats[0]) == SpineLength(pats[1])
  {
    var p, q := pats[0], pats[1];
    var e := if p.Ap? then CmpFold(p.fun, q.fun, Ap2(VarCompare, p.arg, q.arg)) else VarEQ;
    Alt(pats, line, e)
  }

  /**
   * The reference right-hand side: `EQ` with no fields, else
   * `primCompAux x1 y1 (primCompAux x2 y2 (... (compare xn yn)))`.
   */
  function CmpSpec(xs: seq<Cell>, ys: seq<Cell>): Cell
    requires |xs| == |ys|
    decreases |xs|
  {
    if |xs| == 0 then VarEQ
    else if |xs| == 1 then Ap2(VarCompare, xs[0], ys[0])
    else Ap3(VarCompAux, xs[0], ys[0], CmpSpec(xs[1..], ys[1..]))
  }

  lemma {:induction false} CmpFoldSpec(p: Cell, q: Cell, xs: seq<Cell>, ys: seq<Cell>)
    requires SpineLength(p) == SpineLength(q) && |xs| == |ys| >= 1
    ensures SpineLength(p) == |Args(p)| && SpineLength(q) == |Args(q)|
    ensures CmpFold(p, q, CmpSpec(xs, ys)) == CmpSpec(Args(p) + xs, Args(q) + ys)
  {
    SpineLengthArgs(p);
    SpineLengthArgs(q);
    if p.Ap? {
      var xs', ys' := [p.arg] + xs, [q.arg] + ys;
      assert xs'[1..] == xs && ys'[1..] == ys;
      assert CmpSpec(xs', ys') == Ap3(VarCompAux, p.arg, q.arg, CmpSpec(xs, ys));
      CmpFoldSpec(p.fun, q.fun, xs', ys');
      assert Args(p.fun) + xs' == Args(p) + xs;
      assert Args(q.fun) + ys' == Args(q) + ys;
    } else {
      assert Args(p) + xs == xs && Args(q) + ys == ys;
    }
  }

  /** `mkAltOrd` builds exactly the reference chain of comparisons, in field order. */
  lemma MkAltOrdIsSpec(line: int, pats: seq<Cell>)
    requires |pats| == 2 && SpineLength(pats[0]) == SpineLength(pats[1])
    ensures |Args(pats[0])| == |Args(pats[1])|
    ensures MkAltOrd(line, pats) == Alt(pats, line, CmpSpec(Args(pats[0]), Args(pats[1])))
  {
    var p, q := pats[0], pats[1];
    SpineLengthArgs(p);
    SpineLengthArgs(q);
    if p.Ap? {
      CmpFoldSpec(p.fun, q.fun, [p.arg], [q.arg]);
    }
  }

  datatype Ordering = LT | EQ | GT

  /**
   * The value of an `Ordering` right-hand side, given the comparison of each pair
   * of fields; `primCompAux x y o` is `o` when `x` and `y` compare equal and
   * their comparison otherwise.
   */
  function EvalOrd(e: Cell, cmp: (Cell, Cell) -> Ordering): Ordering
  {
    match e
    case Ap(Ap(Ap(Var(f), a), b), rest) =>
      if f == "primCompAux" then (if cmp(a, b) == EQ then EvalOrd(rest, cmp) else cmp(a, b))
      else EQ
    case Ap(Ap(Var(f), a), b) => if f == "compare" then cmp(a, b) else EQ
    case _ => EQ
  }

  /** Lexicographic comparison: the first pair of fields that differs decides. */
  function Lex(xs: seq<Cell>, ys: seq<Cell>, cmp: (Cell, Cell) -> Ordering): (r: Ordering)
    requires |xs| == |ys|
    ensures r == EQ <==> forall i :: 0 <= i < |xs| ==> cmp(xs[i], ys[i]) == EQ
    ensures r != EQ ==> exists k :: 0 <= k < |xs| && r == cmp(xs[k], ys[k]) &&
                          forall i :: 0 <= i < k ==> cmp(xs[i], ys[i]) == EQ
    decreases |xs|
  {
    if |xs| == 0 then EQ
    else if cmp(xs[0], ys[0]) != EQ then cmp(xs[0], ys[0])
    else
      var r := Lex(xs[1..], ys[1..], cmp);
      assert forall i :: 1 <= i < |xs| ==> xs[1..][i - 1] == xs[i] && ys[1..][i - 1] == ys[i];
      if r != EQ then
        var k :| 0 <= k < |xs| - 1 && r == cmp(xs[1..][k], ys[1..][k]) &&
                 forall i :: 0 <= i < k ==> cmp(xs[1..][i], ys[1..][i]) == EQ;
        assert r == cmp(xs[k + 1], ys[k + 1]);
        r
      else r
  }

  lemma {:induction false} CmpSpecMeaning(xs: seq<Cell>, ys: seq<Cell>, cmp: (Cell, Cell) -> Ordering)
    requires |xs| == |ys|
    ensures EvalOrd(CmpSpec(xs, ys), cmp) == Lex(xs, ys, cmp)
    decreases |xs|
  {
    if |xs| > 1 {
      CmpSpecMeaning(xs[1..], ys[1..], cmp);
    }
  }

  /** Derived `compare` on two values of the same constructor compares their fields lexicographically. */
  lemma MkAltOrdMeaning(line: int, pats: seq<Cell>, cmp: (Cell, Cell) -> Ordering)
    requires |pats| == 2 && SpineLength(pats[0]) == SpineLength(pats[1])
    ensures |Args(pats[0])| == |Args(pats[1])|
    ensures EvalOrd(MkAltOrd(line, pats).rhs, cmp) == Lex(Args(pats[0]), Args(pats[1]), cmp)
  {
    MkAltOrdIsSpec(line, pats);
    CmpSpecMeaning(Args(pats[0]), Args(pats[1]), cmp);
  }

  /**
   * The catch-all equation `deriveEq` adds after the constructors' equations for a
   * type with several constructors: `_ == _ = False`.
   */
  function EqCatchAll(line: int): (a: Alt)
    ensures a.pats == [Wildcard, Wildcard] && !EvalBool(a.rhs, (x, y) => true)
  {
    Alt([Wildcard, Wildcard], line, VarFalse)
  }

  /**
   * The equation `deriveOrd` adds for a type with several constructors, and the
   * whole of `compare` for an enumeration with several constructors:
   * `compare u w = compare (conToTag u) (conToTag w)`.
   */
  function CompareByTag(t: Tycon, line: int, u: Cell, w: Cell): (a: Alt)
    ensures a.pats == [u, w]
    ensures forall cmp: (Cell, Cell) -> Ordering ::
      EvalOrd(a.rhs, cmp) == cmp(Ap(ConToTag(t.name), u), Ap(ConToTag(t.name), w))
  {
    Alt([u, w], line, Ap2(VarCompare, Ap(ConToTag(t.name), u), Ap(ConToTag(t.name), w)))
  }
}
