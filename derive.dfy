/**
 * The derived-instance generator's state and its entry points: the cache of
 * invented variables shared by the pattern builders (`diVars`, `diNum`), the
 * fresh-name counter behind `inventVar`, and the table of record
 * constructors' selectors (`cfunSfuns`). Each `Derive*` method builds the
 * bindings of one derived class for a type constructor or a tuple type.
 */
module Derive {
  import opened DeriveAst
  import EO = DeriveEqOrd
  import Ix = DeriveIx
  import opened DeriveShow
  import opened DeriveRead

  /** The invented variables numbered `hi - 1` down to `lo`: the newest first, as `getDiVars` conses them. */
  function Invented(lo: nat, hi: nat): (r: seq<Cell>)
    requires lo <= hi
    ensures |r| == hi - lo && forall i :: 0 <= i < |r| ==> r[i] == Inv(hi - 1 - i)
    decreases hi - lo
  {
    if lo == hi then [] else [Inv(hi - 1)] + Invented(lo, hi - 1)
  }

  /** Inventing one more variable puts it at the front. */
  lemma InventedNext(lo: nat, hi: nat, rest: seq<Cell>)
    requires lo <= hi
    ensures [Inv(hi)] + (Invented(lo, hi) + rest) == Invented(lo, hi + 1) + rest
  {
    assert Invented(lo, hi + 1) == [Inv(hi)] + Invented(lo, hi);
  }

  /** The variables invented in two runs, the later run's in front. */
  lemma {:induction false} InventedJoin(a: nat, b: nat, c: nat)
    requires a <= b <= c
    ensures Invented(b, c) + Invented(a, b) == Invented(a, c)
    decreases c - b
  {
    if b < c {
      InventedJoin(a, b, c - 1);
      assert Invented(b, c) == [Inv(c - 1)] + Invented(b, c - 1);
      assert Invented(a, c) == [Inv(c - 1)] + Invented(a, c - 1);
    }
  }

  function Max(a: nat, b: nat): nat { if a < b then b else a }

  /** The variable cache (`diVars`, `diNum`) and the counter behind `inventVar`, as one value. */
  datatype CacheState = CacheState(vars: seq<Cell>, num: nat, next: nat)

  /**
   * `after` is what `getDiVars(k)` leaves of `before`: the cache holds the
   * larger of its old size and `k` variables, the ones it lacked invented from
   * `before.next` on and consed onto its front, the newest first.
   */
  predicate Grown(before: CacheState, after: CacheState, k: nat)
  {
    after.num == Max(before.num, k) && after.next == before.next + (after.num - before.num) &&
    after.vars == Invented(before.next, after.next) + before.vars
  }

  /** Growing the cache to `k1` and then to `k2` grows it to the larger of the two. */
  lemma GrownCompose(a: CacheState, b: CacheState, c: CacheState, k1: nat, k2: nat)
    requires Grown(a, b, k1) && Grown(b, c, k2)
    ensures Grown(a, c, Max(k1, k2))
  {
    InventedJoin(a.next, b.next, c.next);
  }

  /** The cache size a loop over the constructors `cs` asks for: the largest `mul * arity + add`, 0 for none. */
  function CacheNeed(cs: seq<Constr>, mul: nat, add: nat): (r: nat)
    ensures forall j :: 0 <= j < |cs| ==> mul * cs[j].arity + add <= r
    decreases |cs|
  {
    if cs == [] then 0
    else
      var init := cs[..|cs| - 1];
      assert forall j :: 0 <= j < |init| ==> init[j] == cs[j];
      Max(CacheNeed(init, mul, add), mul * cs[|cs| - 1].arity + add)
  }

  lemma CacheNeedNext(cs: seq<Constr>, i: nat, mul: nat, add: nat)
    requires i < |cs|
    ensures CacheNeed(cs[..i + 1], mul, add) == Max(CacheNeed(cs[..i], mul, add), mul * cs[i].arity + add)
  {
    assert cs[..i + 1][..i] == cs[..i];
  }

  /** One more round of a loop over the constructors grows the cache as far as the longer prefix asks. */
  lemma GrownNext(start: CacheState, before: CacheState, after: CacheState, cs: seq<Constr>, i: nat, mul: nat, add: nat)
    requires i < |cs|
    requires Grown(start, before, CacheNeed(cs[..i], mul, add)) && Grown(before, after, mul * cs[i].arity + add)
    ensures Grown(start, after, CacheNeed(cs[..i + 1], mul, add))
  {
    GrownCompose(start, before, after, CacheNeed(cs[..i], mul, add), mul * cs[i].arity + add);
    CacheNeedNext(cs, i, mul, add);
  }

  /** A type whose every constructor is nullary, declared by `data` or `newtype`. */
  predicate EnumType(t: Type)
  {
    t.TyconType? && (t.tycon.what == DataType || t.tycon.what == NewType) &&
    forall i :: 0 <= i < |t.tycon.defn| ==> t.tycon.defn[i].arity == 0
  }

  /** `isEnumType`: the loop over the constructors, stopping at the first with fields. */
  method IsEnumType(t: Type) returns (b: bool)
    ensures b <==> EnumType(t)
  {
    if t.TyconType? && (t.tycon.what == DataType || t.tycon.what == NewType) {
      var cs := t.tycon.defn;
      for i := 0 to |cs|
        invariant forall j :: 0 <= j < i ==> cs[j].arity == 0
      {
        if cs[i].arity != 0 {
          return false;
        }
      }
      return true;
    }
    return false;
  }

  /** The last of a type's constructors, found by walking the list as the generator does. */
  method LastConstr(cs: seq<Constr>) returns (c: Constr)
    requires |cs| >= 1
    ensures c == cs[|cs| - 1]
  {
    var k := 0;
    while k + 1 < |cs|
      invariant 0 <= k < |cs|
    {
      k := k + 1;
    }
    c := cs[k];
  }

  /** `h` applied to `n` copies of `x`, built left to right as `mkBndBinds`' loop does. */
  function BndFold(h: Cell, x: Cell, n: nat): Cell
  {
    if n == 0 then h else Ap(BndFold(h, x, n - 1), x)
  }

  lemma {:induction false} BndFoldSpine(h: Cell, x: Cell, n: nat)
    requires !h.Ap?
    ensures Head(BndFold(h, x, n)) == h && Args(BndFold(h, x, n)) == Repeat(x, n)
  {
    if n > 0 {
      BndFoldSpine(h, x, n - 1);
      assert Repeat(x, n - 1) + [x] == Repeat(x, n);
    }
  }

  /** `mkBndBinds(line, h, n)`: `minBound` and `maxBound` of a product. */
  function MkBndBinds(line: int, h: Cell, n: nat): seq<Bind>
  {
    [MkBind("minBound", MkVarAlts(line, BndFold(h, VarMinBound, n))),
     MkBind("maxBound", MkVarAlts(line, BndFold(h, VarMaxBound, n)))]
  }

  /** The bounds of a product are its constructor applied to the fields' own bounds. */
  lemma MkBndBindsMeaning(line: int, h: Cell, n: nat)
    requires !h.Ap?
    ensures var bs := MkBndBinds(line, h, n);
      |bs| == 2 && bs[0].name == "minBound" && bs[1].name == "maxBound" &&
      bs[0].alts == [Alt([], line, bs[0].alts[0].rhs)] && bs[1].alts == [Alt([], line, bs[1].alts[0].rhs)] &&
      Head(bs[0].alts[0].rhs) == h && Args(bs[0].alts[0].rhs) == Repeat(VarMinBound, n) &&
      Head(bs[1].alts[0].rhs) == h && Args(bs[1].alts[0].rhs) == Repeat(VarMaxBound, n)
  {
    BndFoldSpine(h, VarMinBound, n);
    BndFoldSpine(h, VarMaxBound, n);
  }

  /**
   * `deriveBounded`: for an enumeration the first and the last constructor,
   * for a tuple or a type with a single constructor the constructor applied to
   * the fields' bounds; any other type is an error.
   */
  method DeriveBounded(t: Type) returns (res: Result<seq<Bind>>)
    requires t.TyconType? ==> |t.tycon.defn| >= 1
    ensures EnumType(t) ==> res == Ok([MkBind("minBound", MkVarAlts(t.tycon.line, Con(t.tycon.defn[0]))),
                                       MkBind("maxBound", MkVarAlts(t.tycon.line, Con(t.tycon.defn[|t.tycon.defn| - 1])))])
    ensures t.TupleType? ==> res == Ok(MkBndBinds(0, TupleCon(t.arity), t.arity))
    ensures t.TyconType? && !EnumType(t) && !HasSeveralConstrs(t.tycon) ==>
      res == Ok(MkBndBinds(t.tycon.line, Con(t.tycon.defn[0]), t.tycon.defn[0].arity))
    ensures t.TyconType? && !EnumType(t) && HasSeveralConstrs(t.tycon) ==>
      res == Err(t.tycon.line, "Can only derive instances of Bounded for enumeration and product types")
  {
    var isEnum := IsEnumType(t);
    if isEnum {
      var last := LastConstr(t.tycon.defn);
      res := Ok([MkBind("minBound", MkVarAlts(t.tycon.line, Con(t.tycon.defn[0]))),
                 MkBind("maxBound", MkVarAlts(t.tycon.line, Con(last)))]);
    } else if t.TupleType? {
      res := Ok(MkBndBinds(0, TupleCon(t.arity), t.arity));
    } else if !HasSeveralConstrs(t.tycon) {
      res := Ok(MkBndBinds(t.tycon.line, Con(t.tycon.defn[0]), t.tycon.defn[0].arity));
    } else {
      res := Err(t.tycon.line, "Can only derive instances of Bounded for enumeration and product types");
    }
  }

  /** Two patterns with head `h`, each applied to `n` invented variables, no variable used twice. */
  predicate TwoPats(h: Cell, n: nat, pats: seq<Cell>)
  {
    |pats| == 2 && Head(pats[0]) == h && Head(pats[1]) == h &&
    SpineLength(pats[0]) == n && SpineLength(pats[1]) == n &&
    |Args(pats[0])| == n && |Args(pats[1])| == n &&
    (forall i :: 0 <= i < n ==> Args(pats[0])[i].Inv? && Args(pats[1])[i].Inv?) &&
    Distinct(Args(pats[1]) + Args(pats[0]))
  }

  /** The equation of `==` for one constructor: `c x1 .. == c y1 ..` over distinct variables. */
  predicate EqAltFor(c: Constr, line: int, a: Alt)
  {
    TwoPats(Con(c), c.arity, a.pats) && a == EO.MkAltEq(line, a.pats)
  }

  /** The equation of `compare` for one constructor: `compare (c x1 ..) (c y1 ..)` over distinct variables. */
  predicate OrdAltFor(c: Constr, line: int, a: Alt)
  {
    TwoPats(Con(c), c.arity, a.pats) && a == EO.MkAltOrd(line, a.pats)
  }

  /** The equations of `==` for a type: one per constructor in order, then `_ == _ = False` if there are several. */
  predicate EqAltsFor(t: Tycon, alts: seq<Alt>)
  {
    |alts| == |t.defn| + (if HasSeveralConstrs(t) then 1 else 0) &&
    (forall i :: 0 <= i < |t.defn| ==> EqAltFor(t.defn[i], t.line, alts[i])) &&
    (HasSeveralConstrs(t) ==> alts[|t.defn|] == EO.EqCatchAll(t.line))
  }

  /** The equations of `compare` for a type with a constructor having fields. */
  predicate OrdAltsFor(t: Tycon, alts: seq<Alt>)
  {
    |alts| == |t.defn| + (if HasSeveralConstrs(t) then 1 else 0) &&
    (forall i :: 0 <= i < |t.defn| ==> OrdAltFor(t.defn[i], t.line, alts[i])) &&
    (HasSeveralConstrs(t) ==> CompareByTagAlt(t, alts[|t.defn|]))
  }

  /** Two field lists of one length whose corresponding fields are equal by `eq`. */
  predicate FieldsAgree(xs: seq<Cell>, ys: seq<Cell>, eq: (Cell, Cell) -> bool)
  {
    |xs| == |ys| && forall k :: 0 <= k < |xs| ==> eq(xs[k], ys[k])
  }

  /**
   * Each equation `deriveEq` builds for a constructor holds exactly when the
   * two values' fields are pairwise equal, and the catch-all never holds.
   */
  lemma EqAltsMeaning(t: Tycon, alts: seq<Alt>, eq: (Cell, Cell) -> bool)
    requires EqAltsFor(t, alts)
    ensures forall i :: 0 <= i < |t.defn| ==>
      (EO.EvalBool(alts[i].rhs, eq) <==> FieldsAgree(Args(alts[i].pats[0]), Args(alts[i].pats[1]), eq))
    ensures HasSeveralConstrs(t) ==> !EO.EvalBool(alts[|t.defn|].rhs, eq)
  {
    forall i | 0 <= i < |t.defn|
      ensures EO.EvalBool(alts[i].rhs, eq) <==> FieldsAgree(Args(alts[i].pats[0]), Args(alts[i].pats[1]), eq)
    {
      EO.MkAltEqMeaning(t.line, alts[i].pats, eq);
    }
    if HasSeveralConstrs(t) {
      assert alts[|t.defn|].rhs == VarFalse;
    }
  }

  /**
   * Each equation `deriveOrd` builds for a constructor compares the two
   * values' fields lexicographically, and the last one compares constructor tags.
   */
  lemma OrdAltsMeaning(t: Tycon, alts: seq<Alt>, cmp: (Cell, Cell) -> EO.Ordering)
    requires OrdAltsFor(t, alts)
    ensures forall i :: 0 <= i < |t.defn| ==>
      EO.EvalOrd(alts[i].rhs, cmp) == EO.Lex(Args(alts[i].pats[0]), Args(alts[i].pats[1]), cmp)
    ensures HasSeveralConstrs(t) ==>
      EO.EvalOrd(alts[|t.defn|].rhs, cmp) ==
        cmp(Ap(ConToTag(t.name), alts[|t.defn|].pats[0]), Ap(ConToTag(t.name), alts[|t.defn|].pats[1]))
  {
    forall i | 0 <= i < |t.defn|
      ensures EO.EvalOrd(alts[i].rhs, cmp) == EO.Lex(Args(alts[i].pats[0]), Args(alts[i].pats[1]), cmp)
    {
      EO.MkAltOrdMeaning(t.line, alts[i].pats, cmp);
    }
  }

  /** `compare u w = compare (conToTag u) (conToTag w)` for two distinct invented `u` and `w`. */
  predicate CompareByTagAlt(t: Tycon, a: Alt)
  {
    |a.pats| == 2 && a.pats[0].Inv? && a.pats[1].Inv? && a.pats[0] != a.pats[1] &&
    a == EO.CompareByTag(t, t.line, a.pats[0], a.pats[1])
  }

  /** A `showsPrec` equation for a constructor: `showsPrec d (h x1 .. xa)`, all variables distinct. */
  predicate ShowAltFor(line: int, h: Cell, a: nat, alt: Alt, cfs: seq<CfunSfun>)
  {
    |alt.pats| == 2 && alt.line == line && alt.pats[0].Inv? &&
    Head(alt.pats[1]) == h && |Args(alt.pats[1])| == a && Distinct([alt.pats[0]] + Args(alt.pats[1])) &&
    WellShaped(alt.pats[1]) && SelsFit(cfs) &&
    alt.rhs == ShowsPrecRhs(alt.pats[0], alt.pats[1], cfs)
  }

  /** A cache of distinct invented variables, all numbered below `n`. */
  predicate CacheBelow(vs: seq<Cell>, n: nat)
  {
    Distinct(vs) && forall i :: 0 <= i < |vs| ==> vs[i].Inv? && vs[i].id < n
  }

  lemma CacheGrows(vs: seq<Cell>, n: nat)
    requires CacheBelow(vs, n)
    ensures CacheBelow([Inv(n)] + vs, n + 1)
  {
    var ws := [Inv(n)] + vs;
    forall i, j | 0 <= i < j < |ws| ensures ws[i] != ws[j] {
      if i > 0 {
        assert ws[i] == vs[i - 1] && ws[j] == vs[j - 1];
      } else {
        assert ws[j] == vs[j - 1];
      }
    }
  }

  lemma CacheMonotone(vs: seq<Cell>, n: nat, m: nat)
    requires CacheBelow(vs, n) && n <= m
    ensures CacheBelow(vs, m)
  {
  }

  /** The two patterns over a cache of distinct invented variables share no variable. */
  lemma DPats2Fresh(h: Cell, n: nat, us: seq<Cell>, k: nat)
    requires !h.Ap? && |us| >= 2 * n && CacheBelow(us, k)
    ensures TwoPats(h, n, EO.DPats2(h, n, us))
  {
    var pats := EO.DPats2(h, n, us);
    SpineLengthArgs(pats[0]);
    SpineLengthArgs(pats[1]);
    CacheHalves(us, n, k);
  }

  /** The first `2n` variables of a cache, split in two halves: all invented, none shared. */
  lemma CacheHalves(us: seq<Cell>, n: nat, k: nat)
    requires |us| >= 2 * n && CacheBelow(us, k)
    ensures forall i :: 0 <= i < n ==> us[n..2 * n][i].Inv? && us[..n][i].Inv?
    ensures Distinct(us[..n] + us[n..2 * n])
  {
    forall i | 0 <= i < n
      ensures us[n..2 * n][i].Inv? && us[..n][i].Inv?
    {
      assert us[n..2 * n][i] == us[n + i];
    }
    assert us[..n] + us[n..2 * n] == us[..2 * n];
  }

  /** The equation `mkAltShow` builds over a cache of distinct invented variables is well formed. */
  lemma MkAltShowFor(line: int, h: Cell, a: nat, vs: seq<Cell>, cfs: seq<CfunSfun>, n: nat)
    requires |vs| >= a + 1 && SelsFit(cfs) && CacheBelow(vs, n)
    requires (h.TupleCon? && h.size == a >= 1) || (h.Con? && h.con.arity == a)
    ensures ShowAltFor(line, h, a, MkAltShow(line, h, a, vs, cfs), cfs)
  {
    var alt := MkAltShow(line, h, a, vs, cfs);
    SpineLengthArgs(alt.pats[1]);
    CacheFront(vs, a, n);
  }

  /** The first `a + 1` variables of a cache are invented and distinct. */
  lemma CacheFront(vs: seq<Cell>, a: nat, n: nat)
    requires |vs| >= a + 1 && CacheBelow(vs, n)
    ensures vs[0].Inv? && Distinct([vs[0]] + vs[1..a + 1])
  {
    assert [vs[0]] + vs[1..a + 1] == vs[..a + 1];
  }

  /** One more constructor appends its reader, numbered after the others. */
  lemma ReadConExpsNext(cs: seq<Constr>, i: nat, d: Cell, r: Cell, cfs: seq<CfunSfun>, next: nat)
    requires i < |cs|
    ensures var b := ReadConExps(false, cs[..i], d, r, cfs, next);
      var c := MkReadCon(cs[i], d, r, cfs, b.next);
      ReadConExps(false, cs[..i + 1], d, r, cfs, next).exps == b.exps + [c.exp] &&
      ReadConExps(false, cs[..i + 1], d, r, cfs, next).next == c.next
  {
    ReadConExpsSnoc(cs[..i], cs[i], d, r, cfs, next);
    TakeNext(cs, i);
  }

  lemma TakeNext<T>(s: seq<T>, i: nat)
    requires i < |s|
    ensures s[..i + 1] == s[..i] + [s[i]]
  {
  }

  lemma {:induction false} ReadConExpsSnoc(cs: seq<Constr>, c: Constr, d: Cell, r: Cell, cfs: seq<CfunSfun>, next: nat)
    ensures var b := ReadConExps(false, cs, d, r, cfs, next);
      ReadConExps(false, cs + [c], d, r, cfs, next) ==
        Builts(b.exps + [MkReadCon(c, d, r, cfs, b.next).exp], MkReadCon(c, d, r, cfs, b.next).next)
    decreases |cs|
  {
    if cs != [] {
      var first := MkReadCon(cs[0], d, r, cfs, next);
      assert (cs + [c])[1..] == cs[1..] + [c];
      ReadConExpsSnoc(cs[1..], c, d, r, cfs, first.next);
    }
  }

  /** The readers joined with `++`, the last one innermost, by the generator's loop from the last reader back. */
  method JoinReaders(exps: seq<Cell>) returns (exp: Cell)
    requires |exps| >= 1
    ensures exp == AppendChain(exps)
  {
    var k := |exps| - 1;
    exp := exps[k];
    while k > 0
      invariant 0 <= k < |exps|
      invariant AppendFold(exps[..k], exp) == AppendChain(exps)
    {
      assert exps[..k][..k - 1] == exps[..k - 1];
      k := k - 1;
      exp := Ap2(VarAppend, exps[k], exp);
    }
  }

  class Deriver {
    /** The cache of invented variables, the newest first. */
    var diVars: seq<Cell>
    var diNum: nat
    /** The number of the next variable `inventVar` returns. */
    var nextVar: nat
    /** The selectors of each record constructor, filled in by the static analysis. */
    var cfunSfuns: seq<CfunSfun>

    ghost predicate Valid()
      reads this
    {
      |diVars| == diNum && CacheBelow(diVars, nextVar) && SelsFit(cfunSfuns)
    }

    /** The cache and the counter. */
    function Cache(): CacheState
      reads this
    {
      CacheState(diVars, diNum, nextVar)
    }

    /** Installing the generator: the cache and the selector table start empty. */
    constructor (next: nat)
      ensures Valid()
      ensures diVars == [] && diNum == 0 && nextVar == next && cfunSfuns == []
    {
      diVars := [];
      diNum := 0;
      nextVar := next;
      cfunSfuns := [];
    }

    /** `deriveControl(RESET)`: empty the cache and the selector table. */
    method Reset()
      modifies this
      ensures Valid()
      ensures diVars == [] && diNum == 0 && cfunSfuns == [] && nextVar == old(nextVar)
    {
      diVars := [];
      diNum := 0;
      cfunSfuns := [];
    }

    /** `inventVar`: a variable never returned before. */
    method InventVar() returns (v: Cell)
      modifies this
      ensures v == Inv(old(nextVar)) && nextVar == old(nextVar) + 1
      ensures diVars == old(diVars) && diNum == old(diNum) && cfunSfuns == old(cfunSfuns)
    {
      v := Inv(nextVar);
      nextVar := nextVar + 1;
    }

    /** One step of `getDiVars`: cons a freshly invented variable onto the cache. */
    method GrowCache()
      requires Valid()
      modifies this
      ensures Valid() && cfunSfuns == old(cfunSfuns)
      ensures diVars == [Inv(old(nextVar))] + old(diVars)
      ensures diNum == old(diNum) + 1 && nextVar == old(nextVar) + 1
    {
      CacheGrows(diVars, nextVar);
      var v := InventVar();
      diVars := [v] + diVars;
      diNum := diNum + 1;
    }

    /**
     * `getDiVars(n)`: grow the cache to at least `n` variables by consing
     * freshly invented ones onto its front, and return it. A cache already
     * holding `n` variables is left as it is.
     */
    method GetDiVars(n: nat) returns (vs: seq<Cell>)
      requires Valid()
      modifies this
      ensures Valid() && cfunSfuns == old(cfunSfuns)
      ensures diNum == if n <= old(diNum) then old(diNum) else n
      ensures nextVar == old(nextVar) + (diNum - old(diNum))
      ensures diVars == Invented(old(nextVar), nextVar) + old(diVars)
      ensures Grown(old(Cache()), Cache(), n)
      ensures vs == diVars
    {
      ghost var start, cache := nextVar, diVars;
      while diNum < n
        invariant Valid() && cfunSfuns == old(cfunSfuns)
        invariant old(diNum) <= diNum && (old(diNum) <= n ==> diNum <= n)
        invariant n < old(diNum) ==> diNum == old(diNum)
        invariant start <= nextVar == start + (diNum - old(diNum))
        invariant diVars == Invented(start, nextVar) + cache
        decreases n - diNum
      {
        GrowCache();
        InventedNext(start, nextVar - 1, cache);
      }
      vs := diVars;
    }


    /**
     * `makeDPats2(h, n)`: two patterns of `h` applied to `n` cached variables
     * each, the second pattern first; no variable is shared.
     */
    method MakeDPats2(h: Cell, n: nat) returns (pats: seq<Cell>)
      requires Valid() && !h.Ap?
      modifies this
      ensures Valid() && cfunSfuns == old(cfunSfuns) && Grown(old(Cache()), Cache(), 2 * n)
      ensures |diVars| >= 2 * n && pats == EO.DPats2(h, n, diVars)
      ensures TwoPats(h, n, pats)
    {
      var us := GetDiVars(2 * n);
      pats := EO.DPats2(h, n, us);
      DPats2Fresh(h, n, us, nextVar);
    }

    /**
     * `deriveEq`: for a type constructor an equation per constructor in
     * declaration order and, with several constructors, `_ == _ = False`;
     * for a tuple the single equation comparing the components.
     */
    method DeriveEq(t: Type) returns (binds: seq<Bind>)
      requires Valid() && (t.TyconType? ==> |t.tycon.defn| >= 1)
      modifies this
      ensures Valid() && cfunSfuns == old(cfunSfuns)
      ensures t.TyconType? ==> Grown(old(Cache()), Cache(), CacheNeed(t.tycon.defn, 2, 0))
      ensures t.TupleType? ==> Grown(old(Cache()), Cache(), 2 * t.arity)
      ensures |binds| == 1 && binds[0].name == "=="
      ensures t.TyconType? ==> EqAltsFor(t.tycon, binds[0].alts)
      ensures t.TupleType? ==>
        (|binds[0].alts| == 1 && TwoPats(TupleCon(t.arity), t.arity, binds[0].alts[0].pats) &&
         binds[0].alts[0] == EO.MkAltEq(0, binds[0].alts[0].pats))
    {
      if t.TyconType? {
        var tc := t.tycon;
        var alts := EqConAlts(tc);
        if HasSeveralConstrs(tc) {
          alts := alts + [EO.EqCatchAll(tc.line)];
        }
        binds := [MkBind("==", alts)];
      } else {
        var pats := MakeDPats2(TupleCon(t.arity), t.arity);
        binds := [MkBind("==", [EO.MkAltEq(0, pats)])];
      }
    }

    /** The equation of `==` for one constructor over two fresh patterns. */
    method EqAltM(line: int, c: Constr) returns (a: Alt)
      requires Valid()
      modifies this
      ensures Valid() && cfunSfuns == old(cfunSfuns) && Grown(old(Cache()), Cache(), 2 * c.arity)
      ensures EqAltFor(c, line, a)
    {
      var pats := MakeDPats2(Con(c), c.arity);
      a := EO.MkAltEq(line, pats);
    }

    /** The loop of `deriveEq` over the constructors: one equation each, in declaration order. */
    method EqConAlts(tc: Tycon) returns (alts: seq<Alt>)
      requires Valid()
      modifies this
      ensures Valid() && cfunSfuns == old(cfunSfuns) && |alts| == |tc.defn|
      ensures Grown(old(Cache()), Cache(), CacheNeed(tc.defn, 2, 0))
      ensures forall j :: 0 <= j < |tc.defn| ==> EqAltFor(tc.defn[j], tc.line, alts[j])
    {
      alts := [];
      for i := 0 to |tc.defn|
        invariant Valid() && cfunSfuns == old(cfunSfuns) && |alts| == i
        invariant Grown(old(Cache()), Cache(), CacheNeed(tc.defn[..i], 2, 0))
        invariant forall j :: 0 <= j < i ==> EqAltFor(tc.defn[j], tc.line, alts[j])
      {
        var a := EqConStep(tc, i, old(Cache()));
        alts := alts + [a];
      }
      assert tc.defn[..|tc.defn|] == tc.defn;
    }

    /** One round of `deriveEq`'s loop: constructor `i`'s equation, the cache grown from `start` as far as the loop has asked. */
    method EqConStep(tc: Tycon, i: nat, ghost start: CacheState) returns (a: Alt)
      requires Valid() && i < |tc.defn| && Grown(start, Cache(), CacheNeed(tc.defn[..i], 2, 0))
      modifies this
      ensures Valid() && cfunSfuns == old(cfunSfuns) && Grown(start, Cache(), CacheNeed(tc.defn[..i + 1], 2, 0))
      ensures EqAltFor(tc.defn[i], tc.line, a)
    {
      ghost var before := Cache();
      a := EqAltM(tc.line, tc.defn[i]);
      GrownNext(start, before, Cache(), tc.defn, i, 2, 0);
    }


    /**
     * `deriveOrd`: for an enumeration one equation comparing constructor tags
     * (or `EQ` when there is a single constructor); otherwise an equation per
     * constructor and, with several, the comparison of tags last; for a tuple
     * the single equation comparing the components.
     */
    method DeriveOrd(t: Type) returns (binds: seq<Bind>)
      requires Valid() && (t.TyconType? ==> |t.tycon.defn| >= 1)
      modifies this
      ensures Valid() && cfunSfuns == old(cfunSfuns)
      ensures EnumType(t) ==> Cache() == old(Cache()).(next := old(nextVar) + 2)
      ensures t.TyconType? && !EnumType(t) ==>
        var tail := if HasSeveralConstrs(t.tycon) then 2 else 0;
        nextVar >= tail && Grown(old(Cache()), Cache().(next := nextVar - tail), CacheNeed(t.tycon.defn, 2, 0))
      ensures t.TupleType? ==> Grown(old(Cache()), Cache(), 2 * t.arity)
      ensures |binds| == 1 && binds[0].name == "compare"
      ensures EnumType(t) ==>
        binds[0].alts == [if HasSeveralConstrs(t.tycon)
                          then EO.CompareByTag(t.tycon, t.tycon.line, Inv(old(nextVar)), Inv(old(nextVar) + 1))
                          else Alt([Inv(old(nextVar)), Inv(old(nextVar) + 1)], t.tycon.line, VarEQ)]
      ensures t.TyconType? && !EnumType(t) ==> OrdAltsFor(t.tycon, binds[0].alts)
      ensures t.TyconType? && !EnumType(t) && HasSeveralConstrs(t.tycon) ==>
        nextVar >= 2 && binds[0].alts[|t.tycon.defn|].pats == [Inv(nextVar - 2), Inv(nextVar - 1)]
      ensures t.TupleType? ==>
        (|binds[0].alts| == 1 && TwoPats(TupleCon(t.arity), t.arity, binds[0].alts[0].pats) &&
         binds[0].alts[0] == EO.MkAltOrd(0, binds[0].alts[0].pats))
    {
      if t.TyconType? {
        var alts := OrdTycon(t.tycon);
        binds := [MkBind("compare", alts)];
      } else {
        var pats := MakeDPats2(TupleCon(t.arity), t.arity);
        binds := [MkBind("compare", [EO.MkAltOrd(0, pats)])];
      }
    }

    /** `deriveOrd` for a type constructor: the enumeration's single equation, or the equations of `OrdTyconAlts`. */
    method OrdTycon(tc: Tycon) returns (alts: seq<Alt>)
      requires Valid() && |tc.defn| >= 1
      modifies this
      ensures Valid() && cfunSfuns == old(cfunSfuns)
      ensures EnumType(TyconType(tc)) ==> Cache() == old(Cache()).(next := old(nextVar) + 2)
      ensures EnumType(TyconType(tc)) ==>
        alts == [if HasSeveralConstrs(tc) then EO.CompareByTag(tc, tc.line, Inv(old(nextVar)), Inv(old(nextVar) + 1))
                 else Alt([Inv(old(nextVar)), Inv(old(nextVar) + 1)], tc.line, VarEQ)]
      ensures !EnumType(TyconType(tc)) ==>
        var tail := if HasSeveralConstrs(tc) then 2 else 0;
        nextVar >= tail && Grown(old(Cache()), Cache().(next := nextVar - tail), CacheNeed(tc.defn, 2, 0))
      ensures !EnumType(TyconType(tc)) ==> OrdAltsFor(tc, alts)
      ensures !EnumType(TyconType(tc)) && HasSeveralConstrs(tc) ==>
        nextVar >= 2 && alts[|tc.defn|].pats == [Inv(nextVar - 2), Inv(nextVar - 1)]
    {
      var isEnum := IsEnumType(TyconType(tc));
      if isEnum {
        var alt := OrdEnumAlt(tc);
        alts := [alt];
      } else {
        alts := OrdTyconAlts(tc);
      }
    }

    /** `deriveOrd` for an enumeration: over two freshly invented variables, their tags compared, or `EQ` for a single constructor. */
    method OrdEnumAlt(tc: Tycon) returns (alt: Alt)
      requires Valid()
      modifies this
      ensures Valid() && cfunSfuns == old(cfunSfuns) && Cache() == old(Cache()).(next := old(nextVar) + 2)
      ensures alt == if HasSeveralConstrs(tc) then EO.CompareByTag(tc, tc.line, Inv(old(nextVar)), Inv(old(nextVar) + 1))
                     else Alt([Inv(old(nextVar)), Inv(old(nextVar) + 1)], tc.line, VarEQ)
    {
      var u := InventVar();
      var w := InventVar();
      CacheMonotone(diVars, old(nextVar), nextVar);
      alt := if HasSeveralConstrs(tc) then EO.CompareByTag(tc, tc.line, u, w) else Alt([u, w], tc.line, VarEQ);
    }

    /** `deriveOrd` for a type that is not an enumeration: an equation per constructor, then with several the comparison of tags. */
    method OrdTyconAlts(tc: Tycon) returns (alts: seq<Alt>)
      requires Valid() && |tc.defn| >= 1
      modifies this
      ensures Valid() && cfunSfuns == old(cfunSfuns)
      ensures var tail := if HasSeveralConstrs(tc) then 2 else 0;
        nextVar >= tail && Grown(old(Cache()), Cache().(next := nextVar - tail), CacheNeed(tc.defn, 2, 0))
      ensures OrdAltsFor(tc, alts)
      ensures HasSeveralConstrs(tc) ==> nextVar >= 2 && alts[|tc.defn|].pats == [Inv(nextVar - 2), Inv(nextVar - 1)]
    {
      alts := OrdConAlts(tc);
      if HasSeveralConstrs(tc) {
        ghost var mid := Cache();
        var a := OrdTagAltM(tc);
        assert Cache().(next := nextVar - 2) == mid;
        alts := alts + [a];
      }
    }

    /** The last equation of `compare` for several constructors: the tags of two freshly invented variables compared. */
    method OrdTagAltM(tc: Tycon) returns (a: Alt)
      requires Valid()
      modifies this
      ensures Valid() && cfunSfuns == old(cfunSfuns) && Cache() == old(Cache()).(next := old(nextVar) + 2)
      ensures a == EO.CompareByTag(tc, tc.line, Inv(old(nextVar)), Inv(old(nextVar) + 1))
    {
      var u := InventVar();
      var w := InventVar();
      CacheMonotone(diVars, old(nextVar), nextVar);
      a := EO.CompareByTag(tc, tc.line, u, w);
    }

    /** The equation of `compare` for one constructor over two fresh patterns. */
    method OrdAltM(line: int, c: Constr) returns (a: Alt)
      requires Valid()
      modifies this
      ensures Valid() && cfunSfuns == old(cfunSfuns) && Grown(old(Cache()), Cache(), 2 * c.arity)
      ensures OrdAltFor(c, line, a)
    {
      var pats := MakeDPats2(Con(c), c.arity);
      a := EO.MkAltOrd(line, pats);
    }

    /** The loop of `deriveOrd` over the constructors: one equation each, in declaration order. */
    method OrdConAlts(tc: Tycon) returns (alts: seq<Alt>)
      requires Valid()
      modifies this
      ensures Valid() && cfunSfuns == old(cfunSfuns) && |alts| == |tc.defn|
      ensures Grown(old(Cache()), Cache(), CacheNeed(tc.defn, 2, 0))
      ensures forall j :: 0 <= j < |tc.defn| ==> OrdAltFor(tc.defn[j], tc.line, alts[j])
    {
      alts := [];
      for i := 0 to |tc.defn|
        invariant Valid() && cfunSfuns == old(cfunSfuns) && |alts| == i
        invariant Grown(old(Cache()), Cache(), CacheNeed(tc.defn[..i], 2, 0))
        invariant forall j :: 0 <= j < i ==> OrdAltFor(tc.defn[j], tc.line, alts[j])
      {
        var a := OrdConStep(tc, i, old(Cache()));
        alts := alts + [a];
      }
      assert tc.defn[..|tc.defn|] == tc.defn;
    }

    /** One round of `deriveOrd`'s loop: constructor `i`'s equation, the cache grown from `start` as far as the loop has asked. */
    method OrdConStep(tc: Tycon, i: nat, ghost start: CacheState) returns (a: Alt)
      requires Valid() && i < |tc.defn| && Grown(start, Cache(), CacheNeed(tc.defn[..i], 2, 0))
      modifies this
      ensures Valid() && cfunSfuns == old(cfunSfuns) && Grown(start, Cache(), CacheNeed(tc.defn[..i + 1], 2, 0))
      ensures OrdAltFor(tc.defn[i], tc.line, a)
    {
      ghost var before := Cache();
      a := OrdAltM(tc.line, tc.defn[i]);
      GrownNext(start, before, Cache(), tc.defn, i, 2, 0);
    }


    /**
     * `deriveEnum`: `toEnum` and `fromEnum` are the tag conversions,
     * `enumFrom x` counts up to the last constructor and `enumFromThen x y`
     * towards the last constructor when `x <= y`, else towards the first. The
     * two variables are invented before the type is checked; a type that is
     * not an enumeration is an error.
     */
    method DeriveEnum(t: Tycon) returns (res: Result<seq<Bind>>)
      requires Valid() && |t.defn| >= 1
      modifies this
      ensures Valid() && cfunSfuns == old(cfunSfuns) && Cache() == old(Cache()).(next := old(nextVar) + 2)
      ensures res.Err? <==> !EnumType(TyconType(t))
      ensures res.Err? ==> res == Err(t.line, "Can only derive instances of Enum for enumeration types")
      ensures res.Ok? ==>
        var x, y := Inv(old(nextVar)), Inv(old(nextVar) + 1);
        var first, last := Con(t.defn[0]), Con(t.defn[|t.defn| - 1]);
        res.value == [MkBind("toEnum", MkVarAlts(t.line, TagToCon(t.name))),
                      MkBind("fromEnum", MkVarAlts(t.line, ConToTag(t.name))),
                      MkBind("enumFrom", [Alt([x], t.line, Ap2(VarEnumFromTo, x, last))]),
                      MkBind("enumFromThen", [Alt([x, y], t.line, Ap3(VarEnumFromThenTo, x, y, Cond(Ap2(VarLe, x, y), last, first)))])]
    {
      var l := t.line;
      var x := InventVar();
      var y := InventVar();
      var isEnum := IsEnumType(TyconType(t));
      if !isEnum {
        return Err(l, "Can only derive instances of Enum for enumeration types");
      }
      var lastCon := LastConstr(t.defn);
      var first, last := Con(t.defn[0]), Con(lastCon);
      res := Ok([MkBind("toEnum", MkVarAlts(l, TagToCon(t.name))),
                 MkBind("fromEnum", MkVarAlts(l, ConToTag(t.name))),
                 MkBind("enumFrom", [Alt([x], l, Ap2(VarEnumFromTo, x, last))]),
                 MkBind("enumFromThen", [Alt([x, y], l, Ap3(VarEnumFromThenTo, x, y, Cond(Ap2(VarLe, x, y), last, first)))])]);
    }

    /**
     * `deriveIx`: for an enumeration the bindings through constructor tags,
     * for a tuple or a type with a single constructor the product bindings
     * over `3n` cached variables; any other type is an error.
     */
    method DeriveIx(t: Type) returns (res: Result<seq<Bind>>)
      requires Valid()
      requires t.TyconType? ==> |t.tycon.defn| >= 1 && (t.tycon.what == DataType || t.tycon.what == NewType)
      requires t.TupleType? ==> t.arity >= 1
      modifies this
      ensures Valid() && cfunSfuns == old(cfunSfuns)
      ensures EnumType(t) ==> Cache() == old(Cache()).(next := old(nextVar) + 4)
      ensures t.TupleType? ==> Grown(old(Cache()), Cache(), 3 * t.arity)
      ensures t.TyconType? && !EnumType(t) && !HasSeveralConstrs(t.tycon) ==> Grown(old(Cache()), Cache(), 3 * t.tycon.defn[0].arity)
      ensures t.TyconType? && !EnumType(t) && HasSeveralConstrs(t.tycon) ==> Cache() == old(Cache())
      ensures EnumType(t) ==>
        res == Ok(Ix.MkIxBindsEnum(t.tycon, Inv(old(nextVar)), Inv(old(nextVar) + 1), Inv(old(nextVar) + 2), Inv(old(nextVar) + 3)))
      ensures t.TupleType? ==> |diVars| >= 3 * t.arity && res == Ok(Ix.MkIxBinds(0, TupleCon(t.arity), t.arity, diVars))
      ensures t.TyconType? && !EnumType(t) && !HasSeveralConstrs(t.tycon) ==>
        t.tycon.defn[0].arity >= 1 && |diVars| >= 3 * t.tycon.defn[0].arity &&
        res == Ok(Ix.MkIxBinds(t.tycon.line, Con(t.tycon.defn[0]), t.tycon.defn[0].arity, diVars))
      ensures t.TyconType? && !EnumType(t) && HasSeveralConstrs(t.tycon) ==>
        res == Err(t.tycon.line, "Can only derive instances of Ix for enumeration or product types")
    {
      var isEnum := IsEnumType(t);
      if isEnum {
        var binds := IxEnumM(t.tycon);
        res := Ok(binds);
      } else if t.TupleType? {
        var binds := IxProductM(0, TupleCon(t.arity), t.arity);
        res := Ok(binds);
      } else if !HasSeveralConstrs(t.tycon) {
        var c := t.tycon.defn[0];
        var binds := IxProductM(t.tycon.line, Con(c), c.arity);
        res := Ok(binds);
      } else {
        res := Err(t.tycon.line, "Can only derive instances of Ix for enumeration or product types");
      }
    }

    /** The `Ix` bindings of an enumeration, over four freshly invented variables. */
    method IxEnumM(t: Tycon) returns (binds: seq<Bind>)
      requires Valid()
      modifies this
      ensures Valid() && cfunSfuns == old(cfunSfuns) && Cache() == old(Cache()).(next := old(nextVar) + 4)
      ensures binds == Ix.MkIxBindsEnum(t, Inv(old(nextVar)), Inv(old(nextVar) + 1), Inv(old(nextVar) + 2), Inv(old(nextVar) + 3))
    {
      var b := InventVar();
      var c1 := InventVar();
      var c2 := InventVar();
      var ci := InventVar();
      CacheMonotone(diVars, old(nextVar), nextVar);
      binds := Ix.MkIxBindsEnum(t, b, c1, c2, ci);
    }

    /** The `Ix` bindings of a product `h x1 .. xn`, over the first `3n` cached variables. */
    method IxProductM(line: int, h: Cell, n: nat) returns (binds: seq<Bind>)
      requires Valid() && !h.Ap? && n >= 1
      modifies this
      ensures Valid() && cfunSfuns == old(cfunSfuns) && Grown(old(Cache()), Cache(), 3 * n)
      ensures |diVars| >= 3 * n && binds == Ix.MkIxBinds(line, h, n, diVars)
    {
      var vs := GetDiVars(3 * n);
      binds := Ix.MkIxBinds(line, h, n, vs);
    }

    /**
     * `mkAltShow(line, h, a)`: `showsPrec d (h x1 .. xa)` over the first
     * `a + 1` cached variables.
     */
    method MkAltShowM(line: int, h: Cell, a: nat) returns (alt: Alt)
      requires Valid()
      requires (h.TupleCon? && h.size == a >= 1) || (h.Con? && h.con.arity == a)
      modifies this
      ensures Valid() && cfunSfuns == old(cfunSfuns) && Grown(old(Cache()), Cache(), a + 1)
      ensures |diVars| >= a + 1 && alt == MkAltShow(line, h, a, diVars, cfunSfuns)
      ensures ShowAltFor(line, h, a, alt, cfunSfuns)
    {
      var vs := GetDiVars(a + 1);
      alt := MkAltShow(line, h, a, vs, cfunSfuns);
      MkAltShowFor(line, h, a, vs, cfunSfuns, nextVar);
    }

    /** `deriveShow`: a `showsPrec` equation per constructor in declaration order, or the tuple's single equation. */
    method DeriveShow(t: Type) returns (binds: seq<Bind>)
      requires Valid() && (t.TupleType? ==> t.arity >= 1)
      modifies this
      ensures Valid() && cfunSfuns == old(cfunSfuns)
      ensures t.TyconType? ==> Grown(old(Cache()), Cache(), CacheNeed(t.tycon.defn, 1, 1))
      ensures t.TupleType? ==> Grown(old(Cache()), Cache(), t.arity + 1)
      ensures |binds| == 1 && binds[0].name == "showsPrec"
      ensures t.TyconType? ==> |binds[0].alts| == |t.tycon.defn|
      ensures t.TyconType? ==> forall i :: 0 <= i < |t.tycon.defn| ==>
        ShowAltFor(t.tycon.line, Con(t.tycon.defn[i]), t.tycon.defn[i].arity, binds[0].alts[i], cfunSfuns)
      ensures t.TupleType? ==>
        (|binds[0].alts| == 1 && ShowAltFor(0, TupleCon(t.arity), t.arity, binds[0].alts[0], cfunSfuns))
    {
      if t.TyconType? {
        var alts := ShowConAlts(t.tycon);
        binds := [MkBind("showsPrec", alts)];
      } else {
        var alt := MkAltShowM(0, TupleCon(t.arity), t.arity);
        binds := [MkBind("showsPrec", [alt])];
      }
    }

    /** The loop of `deriveShow` over the constructors: one equation each, in declaration order. */
    method ShowConAlts(tc: Tycon) returns (alts: seq<Alt>)
      requires Valid()
      modifies this
      ensures Valid() && cfunSfuns == old(cfunSfuns) && |alts| == |tc.defn|
      ensures Grown(old(Cache()), Cache(), CacheNeed(tc.defn, 1, 1))
      ensures forall j :: 0 <= j < |tc.defn| ==> ShowAltFor(tc.line, Con(tc.defn[j]), tc.defn[j].arity, alts[j], cfunSfuns)
    {
      alts := [];
      for i := 0 to |tc.defn|
        invariant Valid() && cfunSfuns == old(cfunSfuns) && |alts| == i
        invariant Grown(old(Cache()), Cache(), CacheNeed(tc.defn[..i], 1, 1))
        invariant forall j :: 0 <= j < i ==> ShowAltFor(tc.line, Con(tc.defn[j]), tc.defn[j].arity, alts[j], cfunSfuns)
      {
        var a := ShowConStep(tc, i, old(Cache()));
        alts := alts + [a];
      }
      assert tc.defn[..|tc.defn|] == tc.defn;
    }

    /** One round of `deriveShow`'s loop: constructor `i`'s equation, the cache grown from `start` as far as the loop has asked. */
    method ShowConStep(tc: Tycon, i: nat, ghost start: CacheState) returns (a: Alt)
      requires Valid() && i < |tc.defn| && Grown(start, Cache(), CacheNeed(tc.defn[..i], 1, 1))
      modifies this
      ensures Valid() && cfunSfuns == old(cfunSfuns) && Grown(start, Cache(), CacheNeed(tc.defn[..i + 1], 1, 1))
      ensures ShowAltFor(tc.line, Con(tc.defn[i]), tc.defn[i].arity, a, cfunSfuns)
    {
      ghost var before := Cache();
      a := MkAltShowM(tc.line, Con(tc.defn[i]), tc.defn[i].arity);
      GrownNext(start, before, Cache(), tc.defn, i, 1, 1);
    }

    /**
     * `deriveRead`: `readsPrec d r` joins the constructors' readers with `++`
     * (the last one innermost), or applies the tuple reader to `r`. Every
     * variable comes from `inventVar`.
     */
    method DeriveRead(t: Type) returns (binds: seq<Bind>)
      requires Valid() && (t.TyconType? ==> |t.tycon.defn| >= 1)
      modifies this
      ensures Valid() && diVars == old(diVars) && cfunSfuns == old(cfunSfuns)
      ensures binds == DeriveReadBinds(false, t, cfunSfuns, old(nextVar)).binds
      ensures nextVar == DeriveReadBinds(false, t, cfunSfuns, old(nextVar)).next
    {
      var d := InventVar();
      var r := InventVar();
      var exp: Cell;
      var line := 0;
      if t.TyconType? {
        var exps := ReadConLoop(t.tycon.defn, d, r);
        exp := JoinReaders(exps);
        line := t.tycon.line;
      } else {
        var b := MkReadTuple(t.arity, nextVar);
        SepLoopNext(NoSels(t.arity), "(", LoopState(TupleCon(t.arity), Inv(nextVar), [], nextVar + 2));
        CacheMonotone(diVars, nextVar, b.next);
        nextVar := b.next;
        exp := Ap(b.exp, r);
      }
      binds := [MkBind("readsPrec", [Alt([d, r], line, exp)])];
    }

    /** One constructor's reader, its variables numbered from `nextVar` on. */
    method ReadConStep(c: Constr, d: Cell, r: Cell) returns (e: Cell)
      requires Valid()
      modifies this
      ensures Valid() && diVars == old(diVars) && cfunSfuns == old(cfunSfuns)
      ensures e == MkReadCon(c, d, r, cfunSfuns, old(nextVar)).exp
      ensures nextVar == MkReadCon(c, d, r, cfunSfuns, old(nextVar)).next
    {
      var b := MkReadCon(c, d, r, cfunSfuns, nextVar);
      CacheMonotone(diVars, nextVar, b.next);
      e := b.exp;
      nextVar := b.next;
    }

    /** The loop of `deriveRead` over the constructors: each reader numbers its variables after the previous one's. */
    method ReadConLoop(cs: seq<Constr>, d: Cell, r: Cell) returns (exps: seq<Cell>)
      requires Valid()
      modifies this
      ensures Valid() && diVars == old(diVars) && cfunSfuns == old(cfunSfuns)
      ensures exps == ReadConExps(false, cs, d, r, cfunSfuns, old(nextVar)).exps
      ensures nextVar == ReadConExps(false, cs, d, r, cfunSfuns, old(nextVar)).next
    {
      exps := [];
      for i := 0 to |cs|
        invariant Valid() && diVars == old(diVars) && cfunSfuns == old(cfunSfuns)
        invariant exps == ReadConExps(false, cs[..i], d, r, cfunSfuns, old(nextVar)).exps
        invariant nextVar == ReadConExps(false, cs[..i], d, r, cfunSfuns, old(nextVar)).next
      {
        ReadConExpsNext(cs, i, d, r, cfunSfuns, old(nextVar));
        var e := ReadConStep(cs[i], d, r);
        exps := exps + [e];
      }
      assert cs[..|cs|] == cs;
    }

  }
}
