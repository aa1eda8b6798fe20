/**
 * Derived `Ix` instances. For an enumeration (`mkIxBindsEnum`) the bindings go
 * through the constructor tags; for a product type (`mkIxBinds`) three patterns
 * `X l1 .. ln`, `X u1 .. un` and `X i1 .. in` are built from the variable cache
 * and `range` (`prodRange`), `index` (`prodIndex`) and `inRange` (`prodInRange`)
 * combine the fields' own instances. `index` is the mixed-radix number whose
 * last field is the least significant digit.
 */
module DeriveIx {
  import opened DeriveAst

  /** Every third cached variable, starting at `off`. */
  function Every3(vs: seq<Cell>, off: nat, n: nat): (r: seq<Cell>)
    requires off < 3 && |vs| >= 3 * n
    ensures |r| == n && forall k :: 0 <= k < n ==> r[k] == vs[3 * k + off]
  {
    seq(n, k requires 0 <= k < n => vs[3 * k + off])
  }

  predicate SameSpines(ls: Cell, us: Cell, ins: Cell)
  {
    SpineLength(ls) == SpineLength(us) == SpineLength(ins)
  }

  /**
   * The shape of the loops of `prodRange` and `prodIndex`: walk the three spines
   * from the last field and put one item per field in front of `acc`.
   */
  function Fold3(f: (Cell, Cell, Cell) -> Cell, ls: Cell, us: Cell, ins: Cell, acc: seq<Cell>): seq<Cell>
    requires SameSpines(ls, us, ins)
  {
    if ls.Ap? then Fold3(f, ls.fun, us.fun, ins.fun, [f(ls.arg, us.arg, ins.arg)] + acc) else acc
  }

  /** One item per field, in field order. */
  function Map3(f: (Cell, Cell, Cell) -> Cell, xs: seq<Cell>, ys: seq<Cell>, zs: seq<Cell>): (r: seq<Cell>)
    requires |xs| == |ys| == |zs|
    ensures |r| == |xs| && forall k :: 0 <= k < |xs| ==> r[k] == f(xs[k], ys[k], zs[k])
    decreases |xs|
  {
    if xs == [] then []
    else
      var n := |xs| - 1;
      Map3(f, xs[..n], ys[..n], zs[..n]) + [f(xs[n], ys[n], zs[n])]
  }

  lemma {:induction false} Fold3Map(f: (Cell, Cell, Cell) -> Cell, ls: Cell, us: Cell, ins: Cell, acc: seq<Cell>)
    requires SameSpines(ls, us, ins)
    ensures |Args(ls)| == |Args(us)| == |Args(ins)|
    ensures Fold3(f, ls, us, ins, acc) == Map3(f, Args(ls), Args(us), Args(ins)) + acc
  {
    SpineLengthArgs(ls);
    SpineLengthArgs(us);
    SpineLengthArgs(ins);
    if ls.Ap? {
      var x := f(ls.arg, us.arg, ins.arg);
      Fold3Map(f, ls.fun, us.fun, ins.fun, [x] + acc);
      var n := |Args(ls)| - 1;
      assert Args(ls)[..n] == Args(ls.fun) && Args(us)[..n] == Args(us.fun) && Args(ins)[..n] == Args(ins.fun);
      assert Args(ls)[n] == ls.arg && Args(us)[n] == us.arg && Args(ins)[n] == ins.arg;
      var m := Map3(f, Args(ls.fun), Args(us.fun), Args(ins.fun));
      assert Map3(f, Args(ls), Args(us), Args(ins)) == m + [x];
      assert m + ([x] + acc) == (m + [x]) + acc;
    }
  }

  /** The generator `i <- range (l, u)` of one field. */
  function RangeGen(l: Cell, u: Cell, i: Cell): Cell
  {
    FromQual(i, Ap(VarRange, Tuple2(l, u)))
  }

  /** The term `index (l, u) i` of one field. */
  function IndexTerm(l: Cell, u: Cell, i: Cell): Cell
  {
    Ap2(VarIndex, Tuple2(l, u), i)
  }

  /** The test `inRange (l, u) i` of one field. */
  function InRangeTest(l: Cell, u: Cell, i: Cell): Cell
  {
    Ap2(VarInRange, Tuple2(l, u), i)
  }

  /** `prodRange`: `range (X l1 .. ln, X u1 .. un) = [X i1 .. in | i1 <- range (l1,u1), ...]`. */
  function ProdRange(line: int, pats: seq<Cell>, ls: Cell, us: Cell, ins: Cell): Bind
    requires SameSpines(ls, us, ins)
  {
    MkBind("range", [Alt(pats, line, Comp(ins, Fold3(RangeGen, ls, us, ins, [])))])
  }

  /** The second loop of `prodIndex`: `e := x + rangeSize b * e` for each later field `x = index b _`. */
  function HornerFold(xs: seq<Cell>, e: Cell): Cell
    requires forall k :: 0 <= k < |xs| ==> xs[k].Ap? && xs[k].fun.Ap?
    decreases |xs|
  {
    if xs == [] then e
    else HornerFold(xs[1..], Ap2(VarPlus, xs[0], Ap2(VarMult, Ap(VarRangeSize, xs[0].fun.arg), e)))
  }

  /** `prodIndex`, for a product of at least one field. */
  function ProdIndex(line: int, pats: seq<Cell>, ls: Cell, us: Cell, ins: Cell): Bind
    requires SameSpines(ls, us, ins) && ls.Ap?
  {
    var xs := Fold3(IndexTerm, ls, us, ins, []);
    Fold3Map(IndexTerm, ls, us, ins, []);
    MkBind("index", [Alt(pats, line, HornerFold(xs[1..], xs[0]))])
  }

  /** The loop of `prodInRange`: conjoin one more field's test on the left of `e`. */
  function InRangeFold(ls: Cell, us: Cell, ins: Cell, e: Cell): Cell
    requires SameSpines(ls, us, ins)
  {
    if ls.Ap? then InRangeFold(ls.fun, us.fun, ins.fun, Ap2(VarAnd, InRangeTest(ls.arg, us.arg, ins.arg), e)) else e
  }

  /** `prodInRange`, for a product of at least one field. */
  function ProdInRange(line: int, pats: seq<Cell>, ls: Cell, us: Cell, ins: Cell): Bind
    requires SameSpines(ls, us, ins) && ls.Ap?
  {
    var e := InRangeFold(ls.fun, us.fun, ins.fun, InRangeTest(ls.arg, us.arg, ins.arg));
    MkBind("inRange", [Alt(pats, line, e)])
  }

  /**
   * `mkIxBinds(line, h, n)` over the variable cache `vs`: field `k` takes cached
   * variables `3k`, `3k+1` and `3k+2` as its lower bound, upper bound and index.
   */
  function MkIxBinds(line: int, h: Cell, n: nat, vs: seq<Cell>): seq<Bind>
    requires !h.Ap? && n >= 1 && |vs| >= 3 * n
  {
    var lv, uv, iv := Every3(vs, 0, n), Every3(vs, 1, n), Every3(vs, 2, n);
    var ls, us, ins := ApplyTo(h, lv), ApplyTo(h, uv), ApplyTo(h, iv);
    ApplyToSpine(h, lv);
    ApplyToSpine(h, uv);
    ApplyToSpine(h, iv);
    SpineLengthArgs(ls);
    SpineLengthArgs(us);
    SpineLengthArgs(ins);
    var pr := Tuple2(ls, us);
    var pats := [pr, ins];
    [ProdRange(line, [pr], ls, us, ins), ProdIndex(line, pats, ls, us, ins), ProdInRange(line, pats, ls, us, ins)]
  }

  // ------------------------------------------------------------ meaning

  /** The values of the fields' own instance methods, and of the constructor tags. */
  datatype IxEnv = IxEnv(
    index: (Cell, Cell) -> int,
    rangeSize: Cell -> int,
    inRange: (Cell, Cell) -> bool,
    tag: Cell -> int)

  /** `f a b` for the Prelude function named `f`. */
  predicate IsAp2(e: Cell, f: string)
  {
    e.Ap? && e.fun.Ap? && e.fun.fun == Var(f)
  }

  /** The value of an integer-valued right-hand side. */
  function EvalInt(e: Cell, env: IxEnv): int
  {
    if IsAp2(e, "+") then EvalInt(e.fun.arg, env) + EvalInt(e.arg, env)
    else if IsAp2(e, "*") then EvalInt(e.fun.arg, env) * EvalInt(e.arg, env)
    else if IsAp2(e, "-") then EvalInt(e.fun.arg, env) - EvalInt(e.arg, env)
    else if IsAp2(e, "index") then env.index(e.fun.arg, e.arg)
    else if e.Ap? && e.fun == VarRangeSize then env.rangeSize(e.arg)
    else if e.Ap? && e.fun.ConToTag? then env.tag(e.arg)
    else 0
  }

  /** The value of a Boolean right-hand side. */
  function EvalTest(e: Cell, env: IxEnv): bool
  {
    if IsAp2(e, "&&") then EvalTest(e.fun.arg, env) && EvalTest(e.arg, env)
    else if IsAp2(e, "<=") then EvalInt(e.fun.arg, env) <= EvalInt(e.arg, env)
    else if IsAp2(e, "inRange") then env.inRange(e.fun.arg, e.arg)
    else false
  }

  /**
   * The mixed-radix number with digits `idx` in bases `size`, the last digit
   * least significant: `idx[n-1] + size[n-1] * (idx[n-2] + ... (idx[0]))`.
   */
  function Mixed(idx: seq<int>, size: seq<int>): int
    requires |idx| == |size| >= 1
    decreases |idx|
  {
    var n := |idx| - 1;
    if n == 0 then idx[0] else idx[n] + size[n] * Mixed(idx[..n], size[..n])
  }

  function Product(size: seq<int>): int
    decreases |size|
  {
    if size == [] then 1 else Product(size[..|size| - 1]) * size[|size| - 1]
  }

  lemma {:induction false} HornerFoldGeneral(xs: seq<Cell>, e: Cell, env: IxEnv, idx: seq<int>, size: seq<int>, m: nat)
    requires forall k :: 0 <= k < |xs| ==> xs[k].Ap? && xs[k].fun.Ap?
    requires 1 <= m && |idx| == |size| == |xs| + m
    requires EvalInt(e, env) == Mixed(idx[..m], size[..m])
    requires forall k :: 0 <= k < |xs| ==>
      xs[k] == Ap2(VarIndex, xs[k].fun.arg, xs[k].arg) &&
      env.index(xs[k].fun.arg, xs[k].arg) == idx[k + m] && env.rangeSize(xs[k].fun.arg) == size[k + m]
    ensures EvalInt(HornerFold(xs, e), env) == Mixed(idx, size)
    decreases |xs|
  {
    if xs == [] {
      assert idx[..m] == idx && size[..m] == size;
    } else {
      var e' := Ap2(VarPlus, xs[0], Ap2(VarMult, Ap(VarRangeSize, xs[0].fun.arg), e));
      assert EvalInt(xs[0], env) == idx[m] by {
        assert xs[0] == Ap2(VarIndex, xs[0].fun.arg, xs[0].arg);
      }
      assert EvalInt(Ap(VarRangeSize, xs[0].fun.arg), env) == size[m];
      assert idx[..m + 1][..m] == idx[..m] && size[..m + 1][..m] == size[..m];
      assert idx[..m + 1][m] == idx[m] && size[..m + 1][m] == size[m];
      assert EvalInt(e', env) == Mixed(idx[..m + 1], size[..m + 1]);
      assert forall k :: 0 <= k < |xs| - 1 ==> xs[1..][k] == xs[k + 1];
      HornerFoldGeneral(xs[1..], e', env, idx, size, m + 1);
    }
  }

  /** Field `k`'s bounds as the pair `(lk, uk)`. */
  function Bounds(ls: Cell, us: Cell, k: nat): Cell
    requires k < |Args(ls)| && k < |Args(us)|
  {
    Tuple2(Args(ls)[k], Args(us)[k])
  }

  /**
   * `range` draws each field's index from the range of that field's bounds, in
   * field order, and yields the pattern of indices.
   */
  lemma ProdRangeShape(line: int, pats: seq<Cell>, ls: Cell, us: Cell, ins: Cell)
    requires SameSpines(ls, us, ins)
    ensures |Args(ls)| == |Args(us)| == |Args(ins)|
    ensures var a := ProdRange(line, pats, ls, us, ins).alts;
      && |a| == 1 && a[0].pats == pats && a[0].rhs.Comp? && a[0].rhs.head == ins
      && |a[0].rhs.quals| == |Args(ls)|
      && forall k :: 0 <= k < |Args(ls)| ==>
           a[0].rhs.quals[k] == FromQual(Args(ins)[k], Ap(VarRange, Bounds(ls, us, k)))
  {
    Fold3Map(RangeGen, ls, us, ins, []);
  }

  /** The fields' indices `index (lk, uk) ik`, in field order. */
  function Digits(ls: Cell, us: Cell, ins: Cell, env: IxEnv): (r: seq<int>)
    requires |Args(ls)| == |Args(us)| == |Args(ins)|
    ensures |r| == |Args(ls)|
    ensures forall k :: 0 <= k < |r| ==> r[k] == env.index(Bounds(ls, us, k), Args(ins)[k])
  {
    seq(|Args(ls)|, k requires 0 <= k < |Args(ls)| => env.index(Bounds(ls, us, k), Args(ins)[k]))
  }

  /** The fields' range sizes `rangeSize (lk, uk)`, in field order. */
  function Bases(ls: Cell, us: Cell, env: IxEnv): (r: seq<int>)
    requires |Args(ls)| == |Args(us)|
    ensures |r| == |Args(ls)|
    ensures forall k :: 0 <= k < |r| ==> r[k] == env.rangeSize(Bounds(ls, us, k))
  {
    seq(|Args(ls)|, k requires 0 <= k < |Args(ls)| => env.rangeSize(Bounds(ls, us, k)))
  }

  /** One field's `index` term evaluates to that field's index. */
  lemma EvalIndexTerm(b: Cell, i: Cell, env: IxEnv)
    ensures EvalInt(Ap2(VarIndex, b, i), env) == env.index(b, i)
  {
  }

  /** The terms `prodIndex` combines, one per field in field order. */
  lemma ProdIndexTerms(line: int, pats: seq<Cell>, ls: Cell, us: Cell, ins: Cell)
    requires SameSpines(ls, us, ins) && ls.Ap?
    ensures |Args(ls)| == |Args(us)| == |Args(ins)| >= 1
    ensures var xs := Fold3(IndexTerm, ls, us, ins, []);
      && |xs| == |Args(ls)|
      && (forall k :: 0 <= k < |xs| ==> xs[k] == Ap2(VarIndex, Bounds(ls, us, k), Args(ins)[k]))
      && ProdIndex(line, pats, ls, us, ins).alts[0].rhs == HornerFold(xs[1..], xs[0])
  {
    var xs := Fold3(IndexTerm, ls, us, ins, []);
    Fold3Map(IndexTerm, ls, us, ins, []);
    SpineLengthArgs(ls);
    forall k | 0 <= k < |xs|
      ensures xs[k] == Ap2(VarIndex, Bounds(ls, us, k), Args(ins)[k])
    {
      assert xs[k] == IndexTerm(Args(ls)[k], Args(us)[k], Args(ins)[k]);
    }
  }

  /**
   * `index` of a product is the mixed-radix number whose digits are the fields'
   * indices and whose bases are the fields' range sizes, the last field least
   * significant.
   */
  lemma ProdIndexMeaning(line: int, pats: seq<Cell>, ls: Cell, us: Cell, ins: Cell, env: IxEnv)
    requires SameSpines(ls, us, ins) && ls.Ap?
    ensures |Args(ls)| == |Args(us)| == |Args(ins)| >= 1
    ensures EvalInt(ProdIndex(line, pats, ls, us, ins).alts[0].rhs, env) ==
            Mixed(Digits(ls, us, ins, env), Bases(ls, us, env))
  {
    ProdIndexTerms(line, pats, ls, us, ins);
    var xs := Fold3(IndexTerm, ls, us, ins, []);
    var idx, size := Digits(ls, us, ins, env), Bases(ls, us, env);
    assert EvalInt(xs[0], env) == Mixed(idx[..1], size[..1]) by {
      EvalIndexTerm(Bounds(ls, us, 0), Args(ins)[0], env);
    }
    HornerFoldGeneral(xs[1..], xs[0], env, idx, size, 1);
  }

  lemma DigitBound(a: int, s: int, m: int, p: int)
    requires 0 <= a < s && 0 <= m < p
    ensures 0 <= a + s * m < p * s
  {
    assert s * m <= s * (p - 1);
  }

  /** With every digit below its base, the index is below the product of the range sizes. */
  lemma {:induction false} MixedBound(idx: seq<int>, size: seq<int>)
    requires |idx| == |size| >= 1
    requires forall k :: 0 <= k < |idx| ==> 0 <= idx[k] < size[k]
    ensures 0 <= Mixed(idx, size) < Product(size)
    decreases |idx|
  {
    var n := |idx| - 1;
    if n == 0 {
      assert size[..0] == [];
    } else {
      MixedBound(idx[..n], size[..n]);
      DigitBound(idx[n], size[n], Mixed(idx[..n], size[..n]), Product(size[..n]));
    }
  }

  lemma DigitUnique(x: int, y: int, s: int, m1: int, m2: int)
    requires 0 <= x < s && 0 <= y < s && x + s * m1 == y + s * m2
    ensures x == y && m1 == m2
  {
    var d := m1 - m2;
    assert s * m1 == s * m2 + s * d;
  }

  /** Distinct in-range index tuples get distinct indices: `index` is injective. */
  lemma {:induction false} MixedInjective(a: seq<int>, b: seq<int>, size: seq<int>)
    requires |a| == |b| == |size| >= 1
    requires forall k :: 0 <= k < |a| ==> 0 <= a[k] < size[k] && 0 <= b[k] < size[k]
    requires Mixed(a, size) == Mixed(b, size)
    ensures a == b
    decreases |a|
  {
    var n := |a| - 1;
    if n > 0 {
      DigitUnique(a[n], b[n], size[n], Mixed(a[..n], size[..n]), Mixed(b[..n], size[..n]));
      MixedInjective(a[..n], b[..n], size[..n]);
      assert a == a[..n] + [a[n]] && b == b[..n] + [b[n]];
    }
  }

  /** Peeling the last field off three parallel spines. */
  lemma LastField(ls: Cell, us: Cell, ins: Cell)
    requires SameSpines(ls, us, ins) && ls.Ap?
    ensures |Args(ls.fun)| == |Args(us.fun)| == |Args(ins.fun)|
    ensures |Args(ls)| == |Args(us)| == |Args(ins)| == |Args(ls.fun)| + 1
    ensures forall k :: 0 <= k < |Args(ls.fun)| ==>
      Bounds(ls.fun, us.fun, k) == Bounds(ls, us, k) && Args(ins.fun)[k] == Args(ins)[k]
    ensures Bounds(ls, us, |Args(ls.fun)|) == Tuple2(ls.arg, us.arg) && Args(ins)[|Args(ls.fun)|] == ins.arg
  {
    SpineLengthArgs(ls.fun);
    SpineLengthArgs(us.fun);
    SpineLengthArgs(ins.fun);
  }

  lemma EvalInRangeTest(l: Cell, u: Cell, i: Cell, env: IxEnv)
    ensures EvalTest(InRangeTest(l, u, i), env) == env.inRange(Tuple2(l, u), i)
  {
  }

  lemma {:induction false} InRangeFoldMeaning(ls: Cell, us: Cell, ins: Cell, e: Cell, env: IxEnv)
    requires SameSpines(ls, us, ins)
    ensures |Args(ls)| == |Args(us)| == |Args(ins)|
    ensures EvalTest(InRangeFold(ls, us, ins, e), env) <==>
      (forall k :: 0 <= k < |Args(ls)| ==> env.inRange(Bounds(ls, us, k), Args(ins)[k])) && EvalTest(e, env)
  {
    SpineLengthArgs(ls);
    SpineLengthArgs(us);
    SpineLengthArgs(ins);
    if ls.Ap? {
      var e' := Ap2(VarAnd, InRangeTest(ls.arg, us.arg, ins.arg), e);
      InRangeFoldMeaning(ls.fun, us.fun, ins.fun, e', env);
      EvalInRangeTest(ls.arg, us.arg, ins.arg, env);
      LastField(ls, us, ins);
    }
  }

  /** `inRange` of a product holds exactly when every field is in its own range. */
  lemma ProdInRangeMeaning(line: int, pats: seq<Cell>, ls: Cell, us: Cell, ins: Cell, env: IxEnv)
    requires SameSpines(ls, us, ins) && ls.Ap?
    ensures |Args(ls)| == |Args(us)| == |Args(ins)|
    ensures EvalTest(ProdInRange(line, pats, ls, us, ins).alts[0].rhs, env) <==>
      forall k :: 0 <= k < |Args(ls)| ==> env.inRange(Bounds(ls, us, k), Args(ins)[k])
  {
    InRangeFoldMeaning(ls.fun, us.fun, ins.fun, InRangeTest(ls.arg, us.arg, ins.arg), env);
    EvalInRangeTest(ls.arg, us.arg, ins.arg, env);
    LastField(ls, us, ins);
  }

  /** `conToTag x` for a constructor `x` of `t`. */
  function TagOf(t: Tycon, x: Cell): Cell
  {
    Ap(ConToTag(t.name), x)
  }

  lemma EvalTag(t: Tycon, x: Cell, env: IxEnv)
    ensures EvalInt(TagOf(t, x), env) == env.tag(x)
  {
  }

  lemma EvalLe(a: Cell, b: Cell, env: IxEnv)
    ensures EvalTest(Ap2(VarLe, a, b), env) == (EvalInt(a, env) <= EvalInt(b, env))
  {
  }

  lemma EvalAnd(p: Cell, q: Cell, env: IxEnv)
    ensures EvalTest(Ap2(VarAnd, p, q), env) == (EvalTest(p, env) && EvalTest(q, env))
  {
  }

  lemma EvalMinus(a: Cell, b: Cell, env: IxEnv)
    ensures EvalInt(Ap2(VarMinus, a, b), env) == EvalInt(a, env) - EvalInt(b, env)
  {
  }

  /**
   * `mkIxBindsEnum(t)` with invented variables `b`, `c1`, `c2` and `ci`:
   * `range`, `index` and `inRange` through the type's constructor tags.
   */
  function MkIxBindsEnum(t: Tycon, b: Cell, c1: Cell, c2: Cell, ci: Cell): seq<Bind>
  {
    var l := t.line;
    [ MkBind("range", [Alt([Tuple2(c1, c2)], l,
        Ap2(VarMap, TagToCon(t.name), Ap2(VarEnumFromTo, TagOf(t, c1), TagOf(t, c2))))]),
      MkBind("index", [Alt([AsPat(b, Tuple2(c1, c2)), ci], l,
        Cond(Ap2(VarInRange, b, ci),
             Ap2(VarMinus, TagOf(t, ci), TagOf(t, c1)),
             Ap(VarError, StrLit("Ix.index: Index out of range"))))]),
      MkBind("inRange", [Alt([Tuple2(c1, c2), ci], l,
        Ap2(VarAnd, Ap2(VarLe, TagOf(t, c1), TagOf(t, ci)), Ap2(VarLe, TagOf(t, ci), TagOf(t, c2))))]) ]
  }

  /**
   * For an enumeration, `inRange (c1, c2) ci` compares tags, and `index` is
   * guarded by `inRange` and gives the distance of `ci`'s tag from `c1`'s, which
   * is then below the number of tags in the range.
   */
  lemma EnumIxMeaning(t: Tycon, b: Cell, c1: Cell, c2: Cell, ci: Cell, env: IxEnv)
    ensures var bs := MkIxBindsEnum(t, b, c1, c2, ci);
      && |bs| == 3 && bs[0].name == "range" && bs[1].name == "index" && bs[2].name == "inRange"
      && (EvalTest(bs[2].alts[0].rhs, env) <==> env.tag(c1) <= env.tag(ci) <= env.tag(c2))
      && bs[1].alts[0].rhs.Cond? && bs[1].alts[0].rhs.test == Ap2(VarInRange, b, ci)
      && EvalInt(bs[1].alts[0].rhs.thenBranch, env) == env.tag(ci) - env.tag(c1)
      && (EvalTest(bs[2].alts[0].rhs, env) ==>
            0 <= EvalInt(bs[1].alts[0].rhs.thenBranch, env) <= env.tag(c2) - env.tag(c1))
  {
    var bs := MkIxBindsEnum(t, b, c1, c2, ci);
    var k1, ki, k2 := TagOf(t, c1), TagOf(t, ci), TagOf(t, c2);
    EvalTag(t, c1, env);
    EvalTag(t, ci, env);
    EvalTag(t, c2, env);
    EvalLe(k1, ki, env);
    EvalLe(ki, k2, env);
    EvalAnd(Ap2(VarLe, k1, ki), Ap2(VarLe, ki, k2), env);
    EvalMinus(ki, k1, env);
    assert bs[1].alts[0].rhs.thenBranch == Ap2(VarMinus, ki, k1);
  }
}
