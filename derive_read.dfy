/**
 * Derived `Read`: for each constructor a reader
 * `readParen (d > p) (\r -> [ (C t1 .. tn, s) | generators ]) r`
 * (`mkReadCon`) whose list comprehension lexes the constructor's tokens and
 * reads its fields in turn, threading the remaining input from one generator
 * to the next. The builders take the number of the next variable to invent
 * and return it updated, as `inventVar` would leave it.
 *
 * The meaning of a reader is given by `ReaderOf`: the parameter, the
 * generators as steps (a token and the variables it binds), the value built
 * and the input left over.
 */
module DeriveRead {
  import opened DeriveAst
  import opened DeriveShow

  function Lex(s: Cell): Cell { Ap(VarLex, s) }
  function ReadsPrec(k: int, s: Cell): Cell { Ap2(VarReadsPrec, IntLit(k), s) }
  function ReadField(f: string, s: Cell): Cell { Ap2(VarReadField, StrLit(f), s) }

  /** A generator `pat <- exp` of a list comprehension. */
  function Gen(pat: Cell, exp: Cell): Cell { FromQual(pat, exp) }

  /** A built expression and the number of the next variable to invent. */
  datatype Built = Built(exp: Cell, next: nat)

  /** The variables of a builder's loop: the value so far, the input variable to read from next, the generators. */
  datatype LoopState = LoopState(exp: Cell, prevS: Cell, quals: seq<Cell>, next: nat)

  /** The loop of `mkReadPrefix`: each field is read at precedence 10 into a fresh `t`, leaving a fresh `s`. */
  function PrefixLoop(n: nat, st: LoopState): LoopState
    decreases n
  {
    if n == 0 then st else PrefixLoop(n - 1, PrefixBody(st))
  }

  /** One turn of `PrefixLoop`. */
  function PrefixBody(st: LoopState): LoopState
  {
    LoopState(Ap(st.exp, Inv(st.next)), Inv(st.next + 1), st.quals + [PrefixGen(st.prevS, st.next)], st.next + 2)
  }

  /** The generator of one turn: a field read at precedence 10 from `prev` into `t` = `b`, leaving `b + 1`. */
  function PrefixGen(prev: Cell, b: nat): Cell
  {
    Gen(Tuple2(Inv(b), Inv(b + 1)), ReadsPrec(10, prev))
  }

  /** All the generators `PrefixLoop` adds, turn by turn. */
  function PrefixGens(n: nat, prev: Cell, b: nat): seq<Cell>
    decreases n
  {
    if n == 0 then [] else [PrefixGen(prev, b)] + PrefixGens(n - 1, Inv(b + 1), b + 2)
  }

  /** `mkReadPrefix`: lex the constructor name, then read each field at precedence 10. */
  function MkReadPrefix(con: Constr, next: nat): Built
  {
    var r := Inv(next);
    var s0 := Inv(next + 1);
    var st := PrefixLoop(con.arity, LoopState(Con(con), s0, [Gen(Tuple2(StrLit(con.name), s0), Lex(r))], next + 2));
    Built(Lambda([r], Comp(Tuple2(st.exp, st.prevS), st.quals)), st.next)
  }

  /** `mkReadInfix`: read the left operand, lex the operator name, read the right operand. */
  function MkReadInfix(con: Constr, next: nat): Built
  {
    var s := con.syntax;
    var r := Inv(next);
    var s0 := Inv(next + 1);
    var s1 := Inv(next + 2);
    var s2 := Inv(next + 3);
    var u := Inv(next + 4);
    var v := Inv(next + 5);
    var quals := [Gen(Tuple2(u, s0), ReadsPrec(LeftPrec(s), r)),
                  Gen(Tuple2(StrLit(con.name), s1), Lex(s0)),
                  Gen(Tuple2(v, s2), ReadsPrec(RightPrec(s), s1))];
    Built(Lambda([r], Comp(Tuple2(Ap2(Con(con), u, v), s2), quals)), next + 6)
  }

  /** How a field is read: a tuple component at precedence 0, a record field through its selector. */
  function FieldReader(f: Option<string>, s: Cell): Cell
  {
    if f.Some? then ReadField(f.value, s) else ReadsPrec(0, s)
  }

  /**
   * The loop shared by `mkReadTuple` and `mkReadRecord`: each field is preceded
   * by a separator token (the opening bracket first, then commas) and read into
   * a fresh `t`; fresh `si` and `sj` hold the input after the separator and
   * after the field.
   */
  function SepLoop(fields: seq<Option<string>>, sep: string, st: LoopState): LoopState
    decreases |fields|
  {
    if fields == [] then st else SepLoop(fields[1..], ",", SepBody(fields[0], sep, st))
  }

  /** One turn of `SepLoop`, for field `f` preceded by `sep`. */
  function SepBody(f: Option<string>, sep: string, st: LoopState): LoopState
  {
    LoopState(Ap(st.exp, Inv(st.next)), Inv(st.next + 2), st.quals + SepPair(f, sep, st.prevS, st.next), st.next + 3)
  }

  /**
   * The two generators of one turn: the separator read from `prev` into `b + 1`,
   * then the field read from `b + 1` into `t` = `b` with the rest in `b + 2`.
   */
  function SepPair(f: Option<string>, sep: string, prev: Cell, b: nat): seq<Cell>
  {
    [Gen(Tuple2(StrLit(sep), Inv(b + 1)), Lex(prev)), Gen(Tuple2(Inv(b), Inv(b + 2)), FieldReader(f, Inv(b + 1)))]
  }

  /** All the generators `SepLoop` adds, turn by turn. */
  function SepQuals(fields: seq<Option<string>>, sep: string, prev: Cell, b: nat): seq<Cell>
    decreases |fields|
  {
    if fields == [] then [] else SepPair(fields[0], sep, prev, b) + SepQuals(fields[1..], ",", Inv(b + 2), b + 3)
  }

  function NoSels(n: nat): (r: seq<Option<string>>)
    ensures |r| == n && forall i :: 0 <= i < n ==> r[i].None?
  {
    seq(n, i => None)
  }

  function SomeSels(fs: seq<string>): (r: seq<Option<string>>)
    ensures |r| == |fs| && forall i :: 0 <= i < |fs| ==> r[i] == Some(fs[i])
  {
    seq(|fs|, i requires 0 <= i < |fs| => Some(fs[i]))
  }

  /** `mkReadTuple`: "(", the components separated by ",", then ")". */
  function MkReadTuple(n: nat, next: nat): Built
  {
    var r := Inv(next);
    var s := Inv(next + 1);
    var st := SepLoop(NoSels(n), "(", LoopState(TupleCon(n), r, [], next + 2));
    var quals := st.quals + [Gen(Tuple2(StrLit(")"), s), Lex(st.prevS))];
    Built(Lambda([r], Comp(Tuple2(st.exp, s), quals)), st.next)
  }

  /** `mkReadRecord`: the constructor name, then "{", the fields separated by ",", then "}". */
  function MkReadRecord(con: Constr, fs: seq<string>, next: nat): Built
  {
    var r := Inv(next);
    var s0 := Inv(next + 1);
    var s := Inv(next + 2);
    var st := SepLoop(SomeSels(fs), "{", LoopState(Con(con), s0, [Gen(Tuple2(StrLit(con.name), s0), Lex(r))], next + 3));
    var quals := st.quals + [Gen(Tuple2(StrLit("}"), s), Lex(st.prevS))];
    Built(Lambda([r], Comp(Tuple2(st.exp, s), quals)), st.next)
  }

  lemma {:induction false} PrefixLoopNext(n: nat, st: LoopState)
    ensures PrefixLoop(n, st).next == st.next + 2 * n
    decreases n
  {
    if n > 0 {
      PrefixLoopNext(n - 1, PrefixBody(st));
    }
  }

  lemma {:induction false} SepLoopNext(fields: seq<Option<string>>, sep: string, st: LoopState)
    ensures SepLoop(fields, sep, st).next == st.next + 3 * |fields|
    decreases |fields|
  {
    if fields != [] {
      SepLoopNext(fields[1..], ",", SepBody(fields[0], sep, st));
    }
  }

  /** Each reader builder invents at least its parameter and one more variable. */
  lemma ReadersAdvance(con: Constr, sels: Option<seq<string>>, next: nat)
    ensures MkReadPrefix(con, next).next >= next + 2 && MkReadInfix(con, next).next >= next + 2
    ensures sels.Some? ==> MkReadRecord(con, sels.value, next).next >= next + 2
  {
    PrefixLoopNext(con.arity, LoopState(Con(con), Inv(next + 1), [Gen(Tuple2(StrLit(con.name), Inv(next + 1)), Lex(Inv(next)))], next + 2));
    if sels.Some? {
      SepLoopNext(SomeSels(sels.value), "{", LoopState(Con(con), Inv(next + 1), [Gen(Tuple2(StrLit(con.name), Inv(next + 1)), Lex(Inv(next)))], next + 3));
    }
  }

  /** The precedence above which `mkReadCon` demands parentheses: 9, or an infix constructor's own. */
  function ReadPrec(con: Constr, cfs: seq<CfunSfun>): int
  {
    if LookupSels(cfs, con).None? && IsInfix(con) then con.syntax.prec else 9
  }

  /**
   * `mkReadCon`: a record constructor is read by `mkReadRecord`, an infix one by
   * `mkReadInfix`, any other by `mkReadPrefix`; the reader is wrapped in
   * `readParen`, whose condition is `False` for a nullary constructor.
   */
  function MkReadCon(con: Constr, d: Cell, r: Cell, cfs: seq<CfunSfun>, next: nat): (b: Built)
    ensures b.next >= next + 2
  {
    var b := ConReader(con, LookupSels(cfs, con), next);
    Built(Ap3(VarReadParen, ReadCond(con, cfs, d), b.exp, r), b.next)
  }

  /** The reader `mkReadCon` chooses: by selectors for a record, by fixity for an infix constructor, else by prefix. */
  function ConReader(con: Constr, sels: Option<seq<string>>, next: nat): (b: Built)
    ensures b.next >= next + 2
  {
    ReadersAdvance(con, sels, next);
    if sels.Some? then MkReadRecord(con, sels.value, next)
    else if IsInfix(con) then MkReadInfix(con, next)
    else MkReadPrefix(con, next)
  }


  /** The condition `mkReadCon` passes to `readParen`: `False` for a nullary constructor, else `d > p`. */
  function ReadCond(con: Constr, cfs: seq<CfunSfun>, d: Cell): Cell
  {
    if con.arity == 0 then VarFalse else Ap2(VarGt, d, IntLit(ReadPrec(con, cfs)))
  }

  /**
   * The reader of an infix constructor whose name is alphanumeric, as derived
   * `Show` writes it: the name between backquotes, each a lexeme of its own.
   */
  function MkReadInfixQuoted(con: Constr, next: nat): Built
  {
    var s := con.syntax;
    var r := Inv(next);
    var u := Inv(next + 6);
    var v := Inv(next + 7);
    var quals := [Gen(Tuple2(u, Inv(next + 1)), ReadsPrec(LeftPrec(s), r)),
                  Gen(Tuple2(StrLit("`"), Inv(next + 2)), Lex(Inv(next + 1))),
                  Gen(Tuple2(StrLit(con.name), Inv(next + 3)), Lex(Inv(next + 2))),
                  Gen(Tuple2(StrLit("`"), Inv(next + 4)), Lex(Inv(next + 3))),
                  Gen(Tuple2(v, Inv(next + 5)), ReadsPrec(RightPrec(s), Inv(next + 4)))];
    Built(Lambda([r], Comp(Tuple2(Ap2(Con(con), u, v), Inv(next + 5)), quals)), next + 8)
  }

  /** The infix reader with the operator lexed as derived `Show` writes it. */
  function MkReadInfixFixed(con: Constr, next: nat): Built
  {
    if con.alphanumeric then MkReadInfixQuoted(con, next) else MkReadInfix(con, next)
  }

  /** A record is shown without parentheses, so its reader never demands them. */
  function ReadCondFixed(con: Constr, cfs: seq<CfunSfun>, d: Cell): Cell
  {
    if con.arity == 0 || LookupSels(cfs, con).Some? then VarFalse else Ap2(VarGt, d, IntLit(ReadPrec(con, cfs)))
  }

  /**
   * `mkReadCon` with the two corrections the agreement with derived `Show`
   * calls for: records are read without demanding parentheses, and an
   * alphanumeric infix constructor is read between backquotes.
   */
  function MkReadConFixed(con: Constr, d: Cell, r: Cell, cfs: seq<CfunSfun>, next: nat): (b: Built)
    ensures b.next >= next + 2
  {
    var b := ConReaderFixed(con, LookupSels(cfs, con), next);
    Built(Ap3(VarReadParen, ReadCondFixed(con, cfs, d), b.exp, r), b.next)
  }

  /** The reader the corrected `mkReadCon` chooses: as `ConReader`, with the backquoted infix reader. */
  function ConReaderFixed(con: Constr, sels: Option<seq<string>>, next: nat): (b: Built)
    ensures b.next >= next + 2
  {
    ReadersAdvance(con, sels, next);
    if sels.Some? then MkReadRecord(con, sels.value, next)
    else if IsInfix(con) then MkReadInfixFixed(con, next)
    else MkReadPrefix(con, next)
  }

  /** `mkReadCon` as the generator calls it, or its corrected form when `fixed`. */
  function MkReadConAs(fixed: bool, con: Constr, d: Cell, r: Cell, cfs: seq<CfunSfun>, next: nat): (b: Built)
    ensures b.next >= next + 2
  {
    if fixed then MkReadConFixed(con, d, r, cfs, next) else MkReadCon(con, d, r, cfs, next)
  }

  /** The readers of the constructors `cs` in order, each inventing its variables after the previous one's. */
  datatype Builts = Builts(exps: seq<Cell>, next: nat)

  function ReadConExps(fixed: bool, cs: seq<Constr>, d: Cell, r: Cell, cfs: seq<CfunSfun>, next: nat): (b: Builts)
    ensures |b.exps| == |cs|
    decreases |cs|
  {
    if cs == [] then Builts([], next)
    else
      var first := MkReadConAs(fixed, cs[0], d, r, cfs, next);
      var rest := ReadConExps(fixed, cs[1..], d, r, cfs, first.next);
      Builts([first.exp] + rest.exps, rest.next)
  }

  /**
   * The readers joined with `++`, the last constructor's innermost, as the
   * generator's loop over the reversed list of readers leaves them.
   */
  function AppendFold(es: seq<Cell>, acc: Cell): Cell
    decreases |es|
  {
    if es == [] then acc else AppendFold(es[..|es| - 1], Ap2(VarAppend, es[|es| - 1], acc))
  }

  function AppendChain(es: seq<Cell>): Cell
    requires |es| >= 1
  {
    AppendFold(es[..|es| - 1], es[|es| - 1])
  }

  /** The result of `deriveRead` and the number of the next variable to invent. */
  datatype Derived = Derived(binds: seq<Bind>, next: nat)

  /**
   * `deriveRead`: `readsPrec d r` is the readers of all constructors joined
   * with `++`, or for a tuple type the tuple reader applied to `r`. The
   * generator builds each reader with `mkReadCon` as written (`fixed` false);
   * with `fixed` it uses the corrected readers.
   */
  function DeriveReadBinds(fixed: bool, t: Type, cfs: seq<CfunSfun>, next: nat): Derived
    requires t.TyconType? ==> |t.tycon.defn| >= 1
  {
    var d := Inv(next);
    var r := Inv(next + 1);
    if t.TyconType? then
      var es := ReadConExps(fixed, t.tycon.defn, d, r, cfs, next + 2);
      Derived([MkBind("readsPrec", [Alt([d, r], t.tycon.line, AppendChain(es.exps))])], es.next)
    else
      var b := MkReadTuple(t.arity, next + 2);
      Derived([MkBind("readsPrec", [Alt([d, r], 0, Ap(b.exp, r))])], b.next)
  }

  // ------------------------------------------------------------ meaning

  /** What one generator consumes: a literal lexeme, a value at a precedence, or a labelled field. */
  datatype Token = Lit(s: string) | Sub(prec: int) | Sel(sel: string)

  /** A generator `(bound, output) <- reader input`. */
  datatype Step = Step(tok: Token, bound: Cell, input: Cell, output: Cell)

  function StepOf(q: Cell): Option<Step>
  {
    if q.FromQual? && q.genPat.Ap? && q.genPat.fun.Ap? && q.genPat.fun.fun == TupleCon(2) && q.genExp.Ap? then
      var bound := q.genPat.fun.arg;
      var out := q.genPat.arg;
      var g := q.genExp;
      if g.fun == VarLex && bound.StrLit? then Some(Step(Lit(bound.s), bound, g.arg, out))
      else if g.fun.Ap? && g.fun.fun == VarReadsPrec && g.fun.arg.IntLit? then Some(Step(Sub(g.fun.arg.i), bound, g.arg, out))
      else if g.fun.Ap? && g.fun.fun == VarReadField && g.fun.arg.StrLit? then Some(Step(Sel(g.fun.arg.s), bound, g.arg, out))
      else None
    else None
  }

  /** A reader `\param -> [ (value, rest) | steps ]`. */
  datatype Reader = Reader(param: Cell, steps: seq<Step>, value: Cell, rest: Cell)

  predicate IsReader(e: Cell)
  {
    e.Lambda? && |e.params| == 1 && e.body.Comp? && e.body.head.Ap? && e.body.head.fun.Ap? &&
    e.body.head.fun.fun == TupleCon(2) &&
    forall i :: 0 <= i < |e.body.quals| ==> StepOf(e.body.quals[i]).Some?
  }

  function ReaderOf(e: Cell): (rd: Reader)
    requires IsReader(e)
    ensures |rd.steps| == |e.body.quals|
    ensures forall i :: 0 <= i < |rd.steps| ==> StepOf(e.body.quals[i]) == Some(rd.steps[i])
    ensures rd.param == e.params[0] && rd.value == e.body.head.fun.arg && rd.rest == e.body.head.arg
  {
    var qs := e.body.quals;
    Reader(e.params[0], seq(|qs|, i requires 0 <= i < |qs| && IsReader(e) => StepOf(qs[i]).value),
           e.body.head.fun.arg, e.body.head.arg)
  }

  function Tokens(steps: seq<Step>): (r: seq<Token>)
    ensures |r| == |steps| && forall i :: 0 <= i < |steps| ==> r[i] == steps[i].tok
  {
    seq(|steps|, i requires 0 <= i < |steps| => steps[i].tok)
  }

  /** A step that binds a value (as opposed to matching a literal lexeme). */
  predicate BindsValue(st: Step) { !st.tok.Lit? }

  /** The values bound by the steps, in order. */
  function Values(steps: seq<Step>): seq<Cell>
    decreases |steps|
  {
    if steps == [] then []
    else (if BindsValue(steps[0]) then [steps[0].bound] else []) + Values(steps[1..])
  }

  /** Each step reads from what the previous one left; the first reads the parameter, the last leaves the rest. */
  predicate Chained(rd: Reader)
  {
    |rd.steps| >= 1 && rd.steps[0].input == rd.param &&
    (forall i :: 1 <= i < |rd.steps| ==> rd.steps[i].input == rd.steps[i - 1].output) &&
    rd.rest == rd.steps[|rd.steps| - 1].output
  }

  predicate InRange(c: Cell, lo: nat, hi: nat) { c.Inv? && lo <= c.id < hi }

  /**
   * Every variable the reader binds is invented, numbered from `lo` up to `hi`,
   * and no two of them are the same variable.
   */
  predicate Fresh(rd: Reader, lo: nat, hi: nat)
  {
    FreshOutputs(rd, lo, hi) && FreshBounds(rd, lo, hi)
  }

  /** The parameter and the input variables the steps leave are fresh and all different. */
  predicate FreshOutputs(rd: Reader, lo: nat, hi: nat)
  {
    var ss := rd.steps;
    InRange(rd.param, lo, hi) &&
    (forall i :: 0 <= i < |ss| ==> InRange(ss[i].output, lo, hi) && ss[i].output != rd.param) &&
    (forall i, j :: 0 <= i < j < |ss| ==> ss[i].output != ss[j].output)
  }

  /** The value variables are fresh, all different, and different from the input variables. */
  predicate FreshBounds(rd: Reader, lo: nat, hi: nat)
  {
    var ss := rd.steps;
    (forall i :: 0 <= i < |ss| && BindsValue(ss[i]) ==> InRange(ss[i].bound, lo, hi) && ss[i].bound != rd.param) &&
    (forall i, j :: 0 <= i < j < |ss| && BindsValue(ss[i]) && BindsValue(ss[j]) ==> ss[i].bound != ss[j].bound) &&
    (forall i, j :: 0 <= i < |ss| && 0 <= j < |ss| && BindsValue(ss[j]) ==> ss[i].output != ss[j].bound)
  }

  /**
   * `e` reads the tokens `toks` in order, threading the input through, builds
   * `head` applied to the values it read, and binds only fresh variables
   * numbered from `lo` up to `hi`.
   */
  predicate ReadsAs(e: Cell, head: Cell, toks: seq<Token>, lo: nat, hi: nat)
  {
    IsReader(e) &&
    var rd := ReaderOf(e);
    Tokens(rd.steps) == toks && Chained(rd) && Fresh(rd, lo, hi) &&
    Head(rd.value) == head && Args(rd.value) == Values(rd.steps)
  }

  // The tokens each kind of constructor is read from.

  function Repeat<T>(x: T, n: nat): (r: seq<T>)
    ensures |r| == n && forall i :: 0 <= i < n ==> r[i] == x
  {
    seq(n, i => x)
  }

  function PrefixTokens(c: Constr): seq<Token>
  {
    [Lit(c.name)] + Repeat(Sub(10), c.arity)
  }

  function InfixTokens(c: Constr): seq<Token>
  {
    [Sub(LeftPrec(c.syntax)), Lit(c.name), Sub(RightPrec(c.syntax))]
  }

  function QuotedInfixTokens(c: Constr): seq<Token>
  {
    [Sub(LeftPrec(c.syntax)), Lit("`"), Lit(c.name), Lit("`"), Sub(RightPrec(c.syntax))]
  }

  function FieldToken(f: Option<string>): Token
  {
    if f.Some? then Sel(f.value) else Sub(0)
  }

  /** Each field preceded by a separator: `sep` before the first, "," before the others. */
  function SepTokens(sep: string, fields: seq<Option<string>>): (r: seq<Token>)
    ensures |r| == 2 * |fields|
    decreases |fields|
  {
    if fields == [] then [] else [Lit(sep), FieldToken(fields[0])] + SepTokens(",", fields[1..])
  }

  function TupleTokens(n: nat): seq<Token>
  {
    SepTokens("(", NoSels(n)) + [Lit(")")]
  }

  function RecordTokens(c: Constr, fs: seq<string>): seq<Token>
  {
    [Lit(c.name)] + SepTokens("{", SomeSels(fs)) + [Lit("}")]
  }

  // ------------------------------------------------------------ proofs

  /** The invented variables numbered `base`, `base + stride`, ..., `n` of them. */
  function InvEvery(base: nat, stride: nat, n: nat): (r: seq<Cell>)
    ensures |r| == n && forall i :: 0 <= i < n ==> r[i] == Inv(base + stride * i)
  {
    seq(n, i requires 0 <= i < n => Inv(base + stride * i))
  }

  lemma StepOfLex(lit: string, out: Cell, input: Cell)
    ensures StepOf(Gen(Tuple2(StrLit(lit), out), Lex(input))) == Some(Step(Lit(lit), StrLit(lit), input, out))
  {
  }

  lemma StepOfReadsPrec(k: int, b: Cell, out: Cell, input: Cell)
    ensures StepOf(Gen(Tuple2(b, out), ReadsPrec(k, input))) == Some(Step(Sub(k), b, input, out))
  {
  }

  lemma StepOfField(f: Option<string>, b: Cell, out: Cell, input: Cell)
    ensures StepOf(Gen(Tuple2(b, out), FieldReader(f, input))) == Some(Step(FieldToken(f), b, input, out))
  {
  }

  /** A lambda whose generators are the given steps is a reader with those steps. */
  lemma ReaderFrom(param: Cell, v: Cell, rest: Cell, qs: seq<Cell>, steps: seq<Step>)
    requires |qs| == |steps| && forall k :: 0 <= k < |qs| ==> StepOf(qs[k]) == Some(steps[k])
    ensures IsReader(Lambda([param], Comp(Tuple2(v, rest), qs)))
    ensures ReaderOf(Lambda([param], Comp(Tuple2(v, rest), qs))) == Reader(param, steps, v, rest)
  {
    var e := Lambda([param], Comp(Tuple2(v, rest), qs));
    assert IsReader(e);
    assert ReaderOf(e).steps == steps;
  }

  /** The `j`-th generator `PrefixLoop` adds: field j read at precedence 10 into a fresh `t`, leaving a fresh `s`. */
  function PrefixQual(j: nat, prev0: Cell, b: nat): Cell
  {
    PrefixGen(if j == 0 then prev0 else Inv(b + 2 * j - 1), b + 2 * j)
  }

  /** The generators `PrefixLoop` adds are `PrefixGens`. */
  lemma {:induction false} PrefixLoopQuals(n: nat, st: LoopState)
    ensures PrefixLoop(n, st).quals == st.quals + PrefixGens(n, st.prevS, st.next)
    decreases n
  {
    if n > 0 {
      var b := st.next;
      var g := [PrefixGen(st.prevS, b)];
      PrefixLoopQuals(n - 1, PrefixBody(st));
      assert (st.quals + g) + PrefixGens(n - 1, Inv(b + 1), b + 2) == st.quals + (g + PrefixGens(n - 1, Inv(b + 1), b + 2));
    }
  }

  lemma {:induction false} PrefixGensLength(n: nat, prev: Cell, b: nat)
    ensures |PrefixGens(n, prev, b)| == n
    decreases n
  {
    if n > 0 {
      PrefixGensLength(n - 1, Inv(b + 1), b + 2);
    }
  }

  /** The `j`-th of `PrefixGens` is `PrefixQual(j, ...)`. */
  lemma {:induction false} PrefixGensAt(n: nat, prev: Cell, b: nat, j: nat)
    requires j < n
    ensures |PrefixGens(n, prev, b)| == n && PrefixGens(n, prev, b)[j] == PrefixQual(j, prev, b)
    decreases n
  {
    PrefixGensLength(n, prev, b);
    var rest := PrefixGens(n - 1, Inv(b + 1), b + 2);
    if j == 0 {
      assert ([PrefixGen(prev, b)] + rest)[0] == PrefixGen(prev, b);
    } else {
      PrefixGensAt(n - 1, Inv(b + 1), b + 2, j - 1);
      assert ([PrefixGen(prev, b)] + rest)[j] == rest[j - 1];
    }
  }

  /** The input variable `PrefixLoop` leaves for the next reader. */
  lemma {:induction false} PrefixLoopPrev(n: nat, st: LoopState)
    ensures PrefixLoop(n, st).prevS == (if n == 0 then st.prevS else Inv(st.next + 2 * n - 1))
    decreases n
  {
    if n > 0 {
      PrefixLoopPrev(n - 1, PrefixBody(st));
    }
  }

  /** The value `PrefixLoop` builds: the fields' variables applied in order. */
  lemma {:induction false} PrefixLoopValue(n: nat, st: LoopState)
    ensures Head(PrefixLoop(n, st).exp) == Head(st.exp)
    ensures Args(PrefixLoop(n, st).exp) == Args(st.exp) + InvEvery(st.next, 2, n)
    decreases n
  {
    if n > 0 {
      var b := st.next;
      PrefixLoopValue(n - 1, PrefixBody(st));
      assert InvEvery(b, 2, n) == [Inv(b)] + InvEvery(b + 2, 2, n - 1);
    }
  }

  /** The steps of a prefix constructor's reader, as a function of the step number. */
  predicate PrefixShape(rd: Reader, con: Constr, next: nat)
  {
    rd.param == Inv(next) && rd.steps == PrefixSteps(con, next) &&
    rd.rest == Inv(next + 1 + 2 * con.arity) &&
    Head(rd.value) == Con(con) && Args(rd.value) == InvEvery(next + 2, 2, con.arity)
  }

  /** The generators and value of a prefix constructor's reader. */
  lemma PrefixQuals(con: Constr, next: nat) returns (qs: seq<Cell>, v: Cell)
    ensures MkReadPrefix(con, next).exp == Lambda([Inv(next)], Comp(Tuple2(v, Inv(next + 1 + 2 * con.arity)), qs))
    ensures MkReadPrefix(con, next).next == next + 2 + 2 * con.arity
    ensures |qs| == 1 + con.arity && qs[0] == Gen(Tuple2(StrLit(con.name), Inv(next + 1)), Lex(Inv(next)))
    ensures forall k :: 1 <= k <= con.arity ==> qs[k] == PrefixQual(k - 1, Inv(next + 1), next + 2)
    ensures Head(v) == Con(con) && Args(v) == InvEvery(next + 2, 2, con.arity)
  {
    var n, first := con.arity, Gen(Tuple2(StrLit(con.name), Inv(next + 1)), Lex(Inv(next)));
    var st0 := LoopState(Con(con), Inv(next + 1), [first], next + 2);
    PrefixLoopNext(n, st0);
    PrefixLoopPrev(n, st0);
    PrefixLoopValue(n, st0);
    PrefixLoopQuals(n, st0);
    qs := PrefixQualList(first, n, Inv(next + 1), next + 2);
    v := PrefixLoop(n, st0).exp;
    assert Args(st0.exp) == [];
  }

  /** The qualifiers of a prefix constructor's reader: the name's, then one per field. */
  lemma PrefixQualList(first: Cell, n: nat, r: Cell, start: nat) returns (qs: seq<Cell>)
    ensures qs == [first] + PrefixGens(n, r, start)
    ensures |qs| == 1 + n && qs[0] == first
    ensures forall k :: 1 <= k <= n ==> qs[k] == PrefixQual(k - 1, r, start)
  {
    var gens := PrefixGens(n, r, start);
    PrefixGensLength(n, r, start);
    qs := [first] + gens;
    forall k | 1 <= k <= n ensures qs[k] == PrefixQual(k - 1, r, start) {
      PrefixGensAt(n, r, start, k - 1);
      assert qs[k] == gens[k - 1];
    }
  }

  /** The `k`-th step of a prefix constructor's reader. */
  function PrefixStep(con: Constr, next: nat, k: nat): Step
  {
    if k == 0 then Step(Lit(con.name), StrLit(con.name), Inv(next), Inv(next + 1))
    else Step(Sub(10), Inv(next + 2 * k), Inv(next + 2 * k - 1), Inv(next + 2 * k + 1))
  }

  lemma PrefixStepOf(con: Constr, next: nat, k: nat)
    requires 1 <= k
    ensures StepOf(PrefixQual(k - 1, Inv(next + 1), next + 2)) == Some(PrefixStep(con, next, k))
  {
    StepOfReadsPrec(10, Inv(next + 2 * k), Inv(next + 2 * k + 1), Inv(next + 2 * k - 1));
  }

  /** The steps of a prefix constructor's reader: its name, then each field. */
  function PrefixSteps(con: Constr, next: nat): (r: seq<Step>)
    ensures |r| == 1 + con.arity && forall k :: 0 <= k <= con.arity ==> r[k] == PrefixStep(con, next, k)
  {
    seq(1 + con.arity, k requires 0 <= k <= con.arity => PrefixStep(con, next, k))
  }

  lemma PrefixReader(con: Constr, next: nat) returns (rd: Reader)
    ensures IsReader(MkReadPrefix(con, next).exp) && rd == ReaderOf(MkReadPrefix(con, next).exp)
    ensures MkReadPrefix(con, next).next == next + 2 + 2 * con.arity
    ensures PrefixShape(rd, con, next)
  {
    var n := con.arity;
    var qs, v := PrefixQuals(con, next);
    PrefixQualSteps(con, next, qs);
    ReaderFrom(Inv(next), v, Inv(next + 1 + 2 * n), qs, PrefixSteps(con, next));
    rd := Reader(Inv(next), PrefixSteps(con, next), v, Inv(next + 1 + 2 * n));
  }

  /** Each generator of a prefix constructor's reader is a step of `PrefixSteps`. */
  lemma PrefixQualSteps(con: Constr, next: nat, qs: seq<Cell>)
    requires |qs| == 1 + con.arity && qs[0] == Gen(Tuple2(StrLit(con.name), Inv(next + 1)), Lex(Inv(next)))
    requires forall k :: 1 <= k <= con.arity ==> qs[k] == PrefixQual(k - 1, Inv(next + 1), next + 2)
    ensures forall k :: 0 <= k < |qs| ==> StepOf(qs[k]) == Some(PrefixSteps(con, next)[k])
  {
    var steps := PrefixSteps(con, next);
    forall k | 0 <= k < |qs| ensures StepOf(qs[k]) == Some(steps[k]) {
      if k == 0 {
        StepOfLex(con.name, Inv(next + 1), Inv(next));
      } else {
        PrefixStepOf(con, next, k);
      }
    }
  }


  lemma PrefixFresh(rd: Reader, con: Constr, next: nat)
    requires PrefixShape(rd, con, next)
    ensures Chained(rd) && Fresh(rd, next, next + 2 + 2 * con.arity)
  {
    PrefixChained(rd, con, next);
    PrefixOutputsFresh(rd, con, next);
    PrefixBoundsFresh(rd, con, next);
  }

  lemma PrefixChained(rd: Reader, con: Constr, next: nat)
    requires PrefixShape(rd, con, next)
    ensures Chained(rd)
  {
    var ss := rd.steps;
    forall k | 1 <= k < |ss| ensures ss[k].input == ss[k - 1].output {
      assert ss[k] == PrefixStep(con, next, k) && ss[k - 1] == PrefixStep(con, next, k - 1);
    }
    assert ss[0] == PrefixStep(con, next, 0);
    assert ss[con.arity] == PrefixStep(con, next, con.arity);
  }

  lemma PrefixOutputsFresh(rd: Reader, con: Constr, next: nat)
    requires PrefixShape(rd, con, next)
    ensures FreshOutputs(rd, next, next + 2 + 2 * con.arity)
  {
    var ss := rd.steps;
    forall k | 0 <= k < |ss| ensures ss[k].output == Inv(next + 1 + 2 * k) {
      assert ss[k] == PrefixStep(con, next, k);
    }
  }

  lemma PrefixBoundsFresh(rd: Reader, con: Constr, next: nat)
    requires PrefixShape(rd, con, next)
    ensures FreshBounds(rd, next, next + 2 + 2 * con.arity)
  {
    PrefixStepIds(rd, con, next);
  }

  /** The variables of each step of a prefix reader: outputs odd offsets, bounds even ones. */
  lemma PrefixStepIds(rd: Reader, con: Constr, next: nat)
    requires PrefixShape(rd, con, next)
    ensures forall k :: 0 <= k < |rd.steps| ==> rd.steps[k].output == Inv(next + 1 + 2 * k)
    ensures forall k :: 0 <= k < |rd.steps| && BindsValue(rd.steps[k]) ==> k > 0 && rd.steps[k].bound == Inv(next + 2 * k)
  {
    var ss := rd.steps;
    forall k | 0 <= k < |ss|
      ensures ss[k].output == Inv(next + 1 + 2 * k)
      ensures BindsValue(ss[k]) ==> k > 0 && ss[k].bound == Inv(next + 2 * k)
    {
      assert ss[k] == PrefixStep(con, next, k);
    }
  }


  lemma PrefixValues(rd: Reader, con: Constr, next: nat)
    requires PrefixShape(rd, con, next)
    ensures Tokens(rd.steps) == PrefixTokens(con)
    ensures Args(rd.value) == Values(rd.steps)
  {
    PrefixTokensOf(rd, con, next);
    PrefixStepsValues(con, next);
  }

  /** Every step after the name binds a value: the variables `next + 2`, `next + 4`, ... */
  lemma PrefixStepsValues(con: Constr, next: nat)
    ensures Values(PrefixSteps(con, next)) == InvEvery(next + 2, 2, con.arity)
  {
    var ss := PrefixSteps(con, next);
    assert Values(ss) == Values(ss[1..]);
    PrefixFieldsBind(con, next);
    ValuesAllBind(ss[1..]);
    PrefixFieldBounds(con, next);
  }

  lemma PrefixFieldsBind(con: Constr, next: nat)
    ensures forall k :: 0 <= k < |PrefixSteps(con, next)[1..]| ==> BindsValue(PrefixSteps(con, next)[1..][k])
  {
    var ss := PrefixSteps(con, next);
    var tail := ss[1..];
    forall k | 0 <= k < |tail| ensures BindsValue(tail[k]) {
      assert tail[k] == ss[k + 1];
    }
  }

  lemma PrefixFieldBounds(con: Constr, next: nat)
    requires |Values(PrefixSteps(con, next)[1..])| == con.arity
    requires forall i :: 0 <= i < con.arity ==> Values(PrefixSteps(con, next)[1..])[i] == PrefixSteps(con, next)[1..][i].bound
    ensures Values(PrefixSteps(con, next)[1..]) == InvEvery(next + 2, 2, con.arity)
  {
    var tail := PrefixSteps(con, next)[1..];
    var vs, ws := Values(tail), InvEvery(next + 2, 2, con.arity);
    forall i | 0 <= i < con.arity ensures vs[i] == ws[i] {
      assert tail[i] == PrefixStep(con, next, i + 1);
    }
  }

  lemma PrefixTokensOf(rd: Reader, con: Constr, next: nat)
    requires PrefixShape(rd, con, next)
    ensures Tokens(rd.steps) == PrefixTokens(con)
  {
    var ts, us := Tokens(rd.steps), PrefixTokens(con);
    forall k | 0 <= k < |ts| ensures ts[k] == us[k] {
    }
  }

  lemma {:induction false} ValuesAppend(a: seq<Step>, b: seq<Step>)
    ensures Values(a + b) == Values(a) + Values(b)
    decreases |a|
  {
    if a == [] {
      assert a + b == b;
    } else {
      var h := if BindsValue(a[0]) then [a[0].bound] else [];
      assert (a + b)[0] == a[0];
      assert (a + b)[1..] == a[1..] + b;
      ValuesAppend(a[1..], b);
      assert Values(a + b) == h + (Values(a[1..]) + Values(b));
      assert Values(a) == h + Values(a[1..]);
    }
  }


  /** When every step binds a value, the values are the bound variables in order. */
  lemma {:induction false} ValuesAllBind(ss: seq<Step>)
    requires forall i :: 0 <= i < |ss| ==> BindsValue(ss[i])
    ensures |Values(ss)| == |ss| && forall i :: 0 <= i < |ss| ==> Values(ss)[i] == ss[i].bound
    decreases |ss|
  {
    if ss != [] {
      var tail := ss[1..];
      ValuesAllBind(tail);
      forall i | 1 <= i < |ss| ensures Values(ss)[i] == ss[i].bound {
        assert Values(ss)[i] == Values(tail)[i - 1];
        assert tail[i - 1] == ss[i];
      }
    }
  }

  /** The reader of a prefix constructor reads its name, then each field at precedence 10. */
  lemma ReadPrefixMeaning(con: Constr, next: nat)
    ensures ReadsAs(MkReadPrefix(con, next).exp, Con(con), PrefixTokens(con), next, MkReadPrefix(con, next).next)
  {
    var rd := PrefixReader(con, next);
    PrefixFresh(rd, con, next);
    PrefixValues(rd, con, next);
  }

  // The tuple and record loop, described by the position of each generator it adds.

  function SepName(i: nat, sep: string): string { if i == 0 then sep else "," }

  /** The state variable the separator before field `i` reads from. */
  function SepInput(i: nat, prev0: Cell, b: nat): Cell { if i == 0 then prev0 else Inv(b + 3 * i - 1) }

  /** The `k`-th generator `SepLoop` adds: the separator before field k/2, or field k/2 itself. */
  function SepQual(k: nat, fields: seq<Option<string>>, sep: string, prev0: Cell, b: nat): Cell
    requires k < 2 * |fields|
  {
    var i := k / 2;
    if k % 2 == 0 then Gen(Tuple2(StrLit(SepName(i, sep)), Inv(b + 3 * i + 1)), Lex(SepInput(i, prev0, b)))
    else Gen(Tuple2(Inv(b + 3 * i), Inv(b + 3 * i + 2)), FieldReader(fields[i], Inv(b + 3 * i + 1)))
  }

  lemma SepQualShift(j: nat, fields: seq<Option<string>>, sep: string, prev0: Cell, b: nat)
    requires j + 2 < 2 * |fields|
    ensures SepQual(j + 2, fields, sep, prev0, b) == SepQual(j, fields[1..], ",", Inv(b + 2), b + 3)
  {
    assert (j + 2) / 2 == j / 2 + 1 && (j + 2) % 2 == j % 2;
    assert fields[1..][j / 2] == fields[j / 2 + 1];
  }

  /** The generators `SepLoop` adds are `SepQuals`. */
  lemma {:induction false} SepLoopQuals(fields: seq<Option<string>>, sep: string, st: LoopState)
    ensures SepLoop(fields, sep, st).quals == st.quals + SepQuals(fields, sep, st.prevS, st.next)
    decreases |fields|
  {
    if fields != [] {
      var b := st.next;
      var pair := SepPair(fields[0], sep, st.prevS, b);
      SepLoopQuals(fields[1..], ",", SepBody(fields[0], sep, st));
      assert (st.quals + pair) + SepQuals(fields[1..], ",", Inv(b + 2), b + 3)
          == st.quals + (pair + SepQuals(fields[1..], ",", Inv(b + 2), b + 3));
    }
  }

  lemma {:induction false} SepQualsLength(fields: seq<Option<string>>, sep: string, prev: Cell, b: nat)
    ensures |SepQuals(fields, sep, prev, b)| == 2 * |fields|
    decreases |fields|
  {
    if fields != [] {
      SepQualsLength(fields[1..], ",", Inv(b + 2), b + 3);
    }
  }

  /** The `k`-th of `SepQuals` is `SepQual(k, ...)`. */
  lemma {:induction false} SepQualsAt(fields: seq<Option<string>>, sep: string, prev: Cell, b: nat, k: nat)
    requires k < 2 * |fields|
    ensures |SepQuals(fields, sep, prev, b)| == 2 * |fields|
    ensures SepQuals(fields, sep, prev, b)[k] == SepQual(k, fields, sep, prev, b)
    decreases |fields|
  {
    SepQualsLength(fields, sep, prev, b);
    if k < 2 {
      SepQualsFront(fields, sep, prev, b, k);
    } else {
      SepQualsBack(fields, sep, prev, b, k);
      SepQualsAt(fields[1..], ",", Inv(b + 2), b + 3, k - 2);
      SepQualShift(k - 2, fields, sep, prev, b);
    }
  }

  lemma SepQualsFront(fields: seq<Option<string>>, sep: string, prev: Cell, b: nat, k: nat)
    requires |fields| >= 1 && k < 2
    ensures |SepQuals(fields, sep, prev, b)| >= 2
    ensures SepQuals(fields, sep, prev, b)[k] == SepQual(k, fields, sep, prev, b)
  {
    var pair := SepPair(fields[0], sep, prev, b);
    var rest := SepQuals(fields[1..], ",", Inv(b + 2), b + 3);
    assert SepQuals(fields, sep, prev, b) == pair + rest;
    assert 1 / 2 == 0 && 1 % 2 == 1;
  }

  lemma SepQualsBack(fields: seq<Option<string>>, sep: string, prev: Cell, b: nat, k: nat)
    requires 2 <= k < 2 * |fields|
    ensures |SepQuals(fields, sep, prev, b)| == 2 * |fields|
    ensures |SepQuals(fields[1..], ",", Inv(b + 2), b + 3)| == 2 * |fields| - 2
    ensures SepQuals(fields, sep, prev, b)[k] == SepQuals(fields[1..], ",", Inv(b + 2), b + 3)[k - 2]
  {
    SepQualsLength(fields, sep, prev, b);
    SepQualsLength(fields[1..], ",", Inv(b + 2), b + 3);
    var pair := SepPair(fields[0], sep, prev, b);
    var rest := SepQuals(fields[1..], ",", Inv(b + 2), b + 3);
    assert SepQuals(fields, sep, prev, b) == pair + rest;
  }

  /** The input variable `SepLoop` leaves for the closing bracket. */
  lemma {:induction false} SepLoopPrev(fields: seq<Option<string>>, sep: string, st: LoopState)
    ensures SepLoop(fields, sep, st).prevS == (if fields == [] then st.prevS else Inv(st.next + 3 * |fields| - 1))
    decreases |fields|
  {
    if fields != [] {
      SepLoopPrev(fields[1..], ",", SepBody(fields[0], sep, st));
    }
  }

  /** Placed between `pre` and `post`, the `k`-th generator of `SepQuals` is `SepQual(k, ...)`. */
  lemma SepQualsAround(pre: seq<Cell>, fields: seq<Option<string>>, sep: string, prev: Cell, b: nat, post: seq<Cell>)
    ensures |SepQuals(fields, sep, prev, b)| == 2 * |fields|
    ensures forall k :: |pre| <= k < |pre| + 2 * |fields| ==>
      (pre + SepQuals(fields, sep, prev, b) + post)[k] == SepQual(k - |pre|, fields, sep, prev, b)
  {
    SepQualsLength(fields, sep, prev, b);
    var gens := SepQuals(fields, sep, prev, b);
    forall k | |pre| <= k < |pre| + 2 * |fields|
      ensures (pre + gens + post)[k] == SepQual(k - |pre|, fields, sep, prev, b)
    {
      SepQualsAt(fields, sep, prev, b, k - |pre|);
      assert (pre + gens + post)[k] == gens[k - |pre|];
    }
  }

  /** The value `SepLoop` builds: the fields' variables applied in order. */
  lemma {:induction false} SepLoopValue(fields: seq<Option<string>>, sep: string, st: LoopState)
    ensures Head(SepLoop(fields, sep, st).exp) == Head(st.exp)
    ensures Args(SepLoop(fields, sep, st).exp) == Args(st.exp) + InvEvery(st.next, 3, |fields|)
    decreases |fields|
  {
    if fields != [] {
      var b := st.next;
      SepLoopValue(fields[1..], ",", SepBody(fields[0], sep, st));
      assert InvEvery(b, 3, |fields|) == [Inv(b)] + InvEvery(b + 3, 3, |fields| - 1);
    }
  }

  /** The step of the `k`-th generator `SepLoop` adds. */
  function SepStep(k: nat, fields: seq<Option<string>>, sep: string, prev0: Cell, b: nat): Step
    requires k < 2 * |fields|
  {
    var i := k / 2;
    if k % 2 == 0 then Step(Lit(SepName(i, sep)), StrLit(SepName(i, sep)), SepInput(i, prev0, b), Inv(b + 3 * i + 1))
    else Step(FieldToken(fields[i]), Inv(b + 3 * i), Inv(b + 3 * i + 1), Inv(b + 3 * i + 2))
  }

  lemma SepStepOf(k: nat, fields: seq<Option<string>>, sep: string, prev0: Cell, b: nat)
    requires k < 2 * |fields|
    ensures StepOf(SepQual(k, fields, sep, prev0, b)) == Some(SepStep(k, fields, sep, prev0, b))
  {
    var i := k / 2;
    if k % 2 == 0 {
      var name, out, input := SepName(i, sep), Inv(b + 3 * i + 1), SepInput(i, prev0, b);
      assert SepQual(k, fields, sep, prev0, b) == Gen(Tuple2(StrLit(name), out), Lex(input));
      StepOfLex(name, out, input);
    } else {
      var v, out, input := Inv(b + 3 * i), Inv(b + 3 * i + 2), Inv(b + 3 * i + 1);
      assert SepQual(k, fields, sep, prev0, b) == Gen(Tuple2(v, out), FieldReader(fields[i], input));
      StepOfField(fields[i], v, out, input);
    }
  }

  lemma {:induction false} SepTokensAt(sep: string, fields: seq<Option<string>>)
    ensures forall k :: 0 <= k < 2 * |fields| ==>
      SepTokens(sep, fields)[k] == (if k % 2 == 0 then Lit(SepName(k / 2, sep)) else FieldToken(fields[k / 2]))
    decreases |fields|
  {
    if fields != [] {
      SepTokensAt(",", fields[1..]);
      var ts := SepTokens(sep, fields);
      forall k | 2 <= k < 2 * |fields|
        ensures ts[k] == (if k % 2 == 0 then Lit(SepName(k / 2, sep)) else FieldToken(fields[k / 2]))
      {
        var j := k - 2;
        assert ts[k] == SepTokens(",", fields[1..])[j];
        assert j / 2 + 1 == k / 2 && j % 2 == k % 2;
        assert fields[1..][j / 2] == fields[k / 2];
      }
    }
  }

  /** The variables bound by every second step, starting from the second. */
  function OddBounds(ss: seq<Step>): seq<Cell>
    decreases |ss|
  {
    if |ss| < 2 then [] else [ss[1].bound] + OddBounds(ss[2..])
  }

  lemma {:induction false} OddBoundsAt(ss: seq<Step>)
    requires |ss| % 2 == 0
    ensures |OddBounds(ss)| == |ss| / 2
    ensures forall i :: 0 <= i < |ss| / 2 ==> OddBounds(ss)[i] == ss[2 * i + 1].bound
    decreases |ss|
  {
    if ss != [] {
      var rest := ss[2..];
      OddBoundsAt(rest);
      forall i | 1 <= i < |ss| / 2 ensures OddBounds(ss)[i] == ss[2 * i + 1].bound {
        assert OddBounds(ss)[i] == OddBounds(rest)[i - 1];
        assert rest[2 * (i - 1) + 1] == ss[2 * i + 1];
      }
    }
  }

  /** When the steps alternate between a literal and a value, the values are every second bound variable. */
  lemma {:induction false} ValuesAlternate(ss: seq<Step>)
    requires |ss| % 2 == 0
    requires forall k :: 0 <= k < |ss| ==> (BindsValue(ss[k]) <==> k % 2 == 1)
    ensures Values(ss) == OddBounds(ss)
    decreases |ss|
  {
    if ss != [] {
      var rest := ss[2..];
      forall k | 0 <= k < |rest| ensures BindsValue(rest[k]) <==> k % 2 == 1 {
        assert rest[k] == ss[k + 2];
      }
      ValuesAlternate(rest);
      assert ss[1..][1..] == rest;
      assert !BindsValue(ss[0]) && BindsValue(ss[1..][0]);
    }
  }

  /** Where each variable of the loop's `k`-th step comes from, and which steps bind values. */
  lemma SepStepFacts(k: nat, fields: seq<Option<string>>, sep: string, prev0: Cell, b: nat)
    requires k < 2 * |fields|
    ensures SepStep(k, fields, sep, prev0, b).output == Inv(b + 3 * (k / 2) + 1 + k % 2)
    ensures BindsValue(SepStep(k, fields, sep, prev0, b)) <==> k % 2 == 1
    ensures k % 2 == 1 ==> SepStep(k, fields, sep, prev0, b).bound == Inv(b + 3 * (k / 2))
    ensures k == 0 ==> SepStep(k, fields, sep, prev0, b).input == prev0
    ensures k > 0 ==> SepStep(k, fields, sep, prev0, b).input == SepStep(k - 1, fields, sep, prev0, b).output
    ensures SepStep(k, fields, sep, prev0, b).tok ==
            (if k % 2 == 0 then Lit(SepName(k / 2, sep)) else FieldToken(fields[k / 2]))
  {
    if k > 0 {
      SepStepLink(k, fields, sep, prev0, b);
    }
  }

  /** Each step of the loop after the first starts where the previous one stopped. */
  lemma SepStepLink(k: nat, fields: seq<Option<string>>, sep: string, prev0: Cell, b: nat)
    requires 0 < k < 2 * |fields|
    ensures SepStep(k, fields, sep, prev0, b).input == SepStep(k - 1, fields, sep, prev0, b).output
  {
    var i := k / 2;
    if k % 2 == 0 {
      assert (k - 1) / 2 == i - 1 && (k - 1) % 2 == 1;
    } else {
      assert (k - 1) / 2 == i && (k - 1) % 2 == 0;
    }
  }

  /** The tokens and values of the loop's steps: every second step binds the next field's variable. */
  lemma SepValues(ss: seq<Step>, fields: seq<Option<string>>, sep: string, prev0: Cell, b: nat)
    requires |ss| == 2 * |fields|
    requires forall k :: 0 <= k < |ss| ==> ss[k] == SepStep(k, fields, sep, prev0, b)
    ensures Values(ss) == InvEvery(b, 3, |fields|)
    ensures Tokens(ss) == SepTokens(sep, fields)
  {
    SepTokensOf(ss, fields, sep, prev0, b);
    assert forall k :: 0 <= k < |ss| ==> (BindsValue(ss[k]) <==> k % 2 == 1) by {
      forall k | 0 <= k < |ss| ensures BindsValue(ss[k]) <==> k % 2 == 1 {
        SepStepFacts(k, fields, sep, prev0, b);
      }
    }
    ValuesAlternate(ss);
    SepOddBounds(ss, fields, sep, prev0, b);
  }

  /** The loop's every second step binds the variables `b`, `b + 3`, ... */
  lemma SepOddBounds(ss: seq<Step>, fields: seq<Option<string>>, sep: string, prev0: Cell, b: nat)
    requires |ss| == 2 * |fields|
    requires forall k :: 0 <= k < |ss| ==> ss[k] == SepStep(k, fields, sep, prev0, b)
    ensures OddBounds(ss) == InvEvery(b, 3, |fields|)
  {
    OddBoundsAt(ss);
    var vs, ws := OddBounds(ss), InvEvery(b, 3, |fields|);
    forall i | 0 <= i < |fields| ensures vs[i] == ws[i] {
      var k := 2 * i + 1;
      assert vs[i] == ss[k].bound;
      SepBoundAt(k, fields, sep, prev0, b);
    }
  }

  lemma SepBoundAt(k: nat, fields: seq<Option<string>>, sep: string, prev0: Cell, b: nat)
    requires k < 2 * |fields| && k % 2 == 1
    ensures SepStep(k, fields, sep, prev0, b).bound == Inv(b + 3 * ((k - 1) / 2))
  {
    SepStepFacts(k, fields, sep, prev0, b);
  }

  lemma SepTokensOf(ss: seq<Step>, fields: seq<Option<string>>, sep: string, prev0: Cell, b: nat)
    requires |ss| == 2 * |fields|
    requires forall k :: 0 <= k < |ss| ==> ss[k] == SepStep(k, fields, sep, prev0, b)
    ensures Tokens(ss) == SepTokens(sep, fields)
  {
    SepTokensAt(sep, fields);
    forall k | 0 <= k < |ss| ensures ss[k].tok == SepTokens(sep, fields)[k] {
      SepStepFacts(k, fields, sep, prev0, b);
    }
  }

  /** The loop's variable numbers are all different: 3q+1 and 3q+2 for outputs, 3q for values. */
  lemma SepIdsDistinct(k: nat, j: nat)
    ensures k != j ==> 3 * (k / 2) + 1 + k % 2 != 3 * (j / 2) + 1 + j % 2
    ensures j % 2 == 1 ==> 3 * (k / 2) + 1 + k % 2 != 3 * (j / 2)
    ensures k != j && k % 2 == 1 && j % 2 == 1 ==> k / 2 != j / 2
  {
  }

  /** The `k`-th step of an n-tuple's reader: the loop's steps, then ")". */
  function TupleStep(n: nat, next: nat, k: nat): Step
    requires k <= 2 * n
  {
    if k == 2 * n then Step(Lit(")"), StrLit(")"), if n == 0 then Inv(next) else Inv(next + 1 + 3 * n), Inv(next + 1))
    else SepStep(k, NoSels(n), "(", Inv(next), next + 2)
  }

  function TupleSteps(n: nat, next: nat): (r: seq<Step>)
    ensures |r| == 2 * n + 1 && forall k :: 0 <= k <= 2 * n ==> r[k] == TupleStep(n, next, k)
  {
    seq(2 * n + 1, k requires 0 <= k <= 2 * n => TupleStep(n, next, k))
  }

  /** The shape of a tuple reader: its steps, its rest and its value. */
  predicate TupleShape(rd: Reader, n: nat, next: nat)
  {
    rd.param == Inv(next) && rd.steps == TupleSteps(n, next) && rd.rest == Inv(next + 1) &&
    Head(rd.value) == TupleCon(n) && Args(rd.value) == InvEvery(next + 2, 3, n)
  }

  /** The generators of a tuple reader, as a function of their position. */
  /** The generators of a tuple reader: the loop's, then the closing bracket. */
  function TupleGens(n: nat, next: nat): seq<Cell>
  {
    SepQuals(NoSels(n), "(", Inv(next), next + 2) +
    [Gen(Tuple2(StrLit(")"), Inv(next + 1)), Lex(if n == 0 then Inv(next) else Inv(next + 1 + 3 * n)))]
  }

  /** The tuple reader `mkReadTuple` builds, with `TupleGens` as its generators. */
  lemma TupleQuals(n: nat, next: nat) returns (v: Cell)
    ensures MkReadTuple(n, next).exp == Lambda([Inv(next)], Comp(Tuple2(v, Inv(next + 1)), TupleGens(n, next)))
    ensures MkReadTuple(n, next).next == next + 2 + 3 * n
    ensures Head(v) == TupleCon(n) && Args(v) == InvEvery(next + 2, 3, n)
  {
    var fields, st0 := NoSels(n), LoopState(TupleCon(n), Inv(next), [], next + 2);
    SepLoopNext(fields, "(", st0);
    SepLoopPrev(fields, "(", st0);
    SepLoopValue(fields, "(", st0);
    SepLoopQuals(fields, "(", st0);
    v := SepLoop(fields, "(", st0).exp;
    assert [] + SepQuals(fields, "(", Inv(next), next + 2) == SepQuals(fields, "(", Inv(next), next + 2);
    assert Args(st0.exp) == [];
  }


  /** Each generator of a tuple reader is a step of `TupleSteps`. */
  lemma TupleQualSteps(n: nat, next: nat)
    ensures |TupleGens(n, next)| == 2 * n + 1
    ensures forall k :: 0 <= k < 2 * n + 1 ==> StepOf(TupleGens(n, next)[k]) == Some(TupleSteps(n, next)[k])
  {
    var qs, steps := TupleGens(n, next), TupleSteps(n, next);
    SepQualsLength(NoSels(n), "(", Inv(next), next + 2);
    SepQualsAround([], NoSels(n), "(", Inv(next), next + 2, [qs[2 * n]]);
    assert [] + SepQuals(NoSels(n), "(", Inv(next), next + 2) + [qs[2 * n]] == qs;
    forall k | 0 <= k < |qs| ensures StepOf(qs[k]) == Some(steps[k]) {
      if k == 2 * n {
        StepOfLex(")", Inv(next + 1), if n == 0 then Inv(next) else Inv(next + 1 + 3 * n));
      } else {
        SepStepOf(k, NoSels(n), "(", Inv(next), next + 2);
      }
    }
  }


  lemma TupleReader(n: nat, next: nat) returns (rd: Reader)
    ensures IsReader(MkReadTuple(n, next).exp) && rd == ReaderOf(MkReadTuple(n, next).exp)
    ensures MkReadTuple(n, next).next == next + 2 + 3 * n
    ensures TupleShape(rd, n, next)
  {
    var v := TupleQuals(n, next);
    TupleQualSteps(n, next);
    ReaderFrom(Inv(next), v, Inv(next + 1), TupleGens(n, next), TupleSteps(n, next));
    rd := Reader(Inv(next), TupleSteps(n, next), v, Inv(next + 1));
  }

  /** The variables of a tuple reader's `k`-th step. */
  lemma TupleStepFacts(n: nat, next: nat, k: nat)
    requires k <= 2 * n
    ensures TupleStep(n, next, k).output == Inv(if k == 2 * n then next + 1 else next + 3 + 3 * (k / 2) + k % 2)
    ensures BindsValue(TupleStep(n, next, k)) <==> k < 2 * n && k % 2 == 1
    ensures BindsValue(TupleStep(n, next, k)) ==> TupleStep(n, next, k).bound == Inv(next + 2 + 3 * (k / 2))
  {
    if k < 2 * n {
      SepStepFacts(k, NoSels(n), "(", Inv(next), next + 2);
    }
  }

  /** Each step of a tuple reader reads what the previous one left. */
  lemma TupleStepLink(n: nat, next: nat, k: nat)
    requires k <= 2 * n
    ensures k == 0 ==> TupleStep(n, next, k).input == Inv(next)
    ensures k > 0 ==> TupleStep(n, next, k).input == TupleStep(n, next, k - 1).output
  {
    if k < 2 * n {
      SepStepFacts(k, NoSels(n), "(", Inv(next), next + 2);
    } else if n > 0 {
      SepStepFacts(2 * n - 1, NoSels(n), "(", Inv(next), next + 2);
      assert (2 * n - 1) / 2 == n - 1;
    }
  }


  lemma TupleFresh(rd: Reader, n: nat, next: nat)
    requires TupleShape(rd, n, next)
    ensures Chained(rd) && Fresh(rd, next, next + 2 + 3 * n)
  {
    TupleChained(rd, n, next);
    TupleOutputsFresh(rd, n, next);
    TupleBoundsFresh(rd, n, next);
  }

  lemma TupleChained(rd: Reader, n: nat, next: nat)
    requires TupleShape(rd, n, next)
    ensures Chained(rd)
  {
    var ss := rd.steps;
    forall k | 1 <= k < |ss| ensures ss[k].input == ss[k - 1].output {
      TupleStepLink(n, next, k);
    }
    TupleStepLink(n, next, 0);
    TupleStepFacts(n, next, 2 * n);
  }

  lemma TupleOutputsFresh(rd: Reader, n: nat, next: nat)
    requires TupleShape(rd, n, next)
    ensures FreshOutputs(rd, next, next + 2 + 3 * n)
  {
    var ss := rd.steps;
    forall k | 0 <= k < |ss|
      ensures ss[k].output == Inv(if k == 2 * n then next + 1 else next + 3 + 3 * (k / 2) + k % 2)
    {
      TupleStepFacts(n, next, k);
    }
    forall k, j | 0 <= k < j < |ss| ensures ss[k].output != ss[j].output {
      SepIdsDistinct(k, j);
    }
  }

  lemma TupleBoundsFresh(rd: Reader, n: nat, next: nat)
    requires TupleShape(rd, n, next)
    ensures FreshBounds(rd, next, next + 2 + 3 * n)
  {
    var ss := rd.steps;
    forall k | 0 <= k < |ss|
      ensures ss[k].output == Inv(if k == 2 * n then next + 1 else next + 3 + 3 * (k / 2) + k % 2)
      ensures BindsValue(ss[k]) <==> k < 2 * n && k % 2 == 1
      ensures BindsValue(ss[k]) ==> ss[k].bound == Inv(next + 2 + 3 * (k / 2))
    {
      TupleStepFacts(n, next, k);
    }
    forall k, j | 0 <= k < |ss| && 0 <= j < |ss|
      ensures BindsValue(ss[j]) ==> ss[k].output != ss[j].bound
      ensures k != j && BindsValue(ss[k]) && BindsValue(ss[j]) ==> ss[k].bound != ss[j].bound
    {
      SepIdsDistinct(k, j);
    }
  }

  lemma TupleValues(rd: Reader, n: nat, next: nat)
    requires TupleShape(rd, n, next)
    ensures Tokens(rd.steps) == TupleTokens(n)
    ensures Args(rd.value) == Values(rd.steps)
  {
    TupleStepsValues(n, next);
  }

  /** The loop part of a tuple reader's steps is the loop's steps. */
  lemma TupleLoopSteps(n: nat, next: nat, loop: seq<Step>)
    requires loop == TupleSteps(n, next)[..2 * n]
    ensures forall k :: 0 <= k < |loop| ==> loop[k] == SepStep(k, NoSels(n), "(", Inv(next), next + 2)
  {
    forall k | 0 <= k < |loop| ensures loop[k] == SepStep(k, NoSels(n), "(", Inv(next), next + 2) {
      assert loop[k] == TupleStep(n, next, k);
    }
  }

  lemma TupleStepsValues(n: nat, next: nat)
    ensures Tokens(TupleSteps(n, next)) == TupleTokens(n)
    ensures Values(TupleSteps(n, next)) == InvEvery(next + 2, 3, n)
  {
    var ss := TupleSteps(n, next);
    var loop := ss[..2 * n];
    TupleLoopSteps(n, next, loop);
    SepValues(loop, NoSels(n), "(", Inv(next), next + 2);
    assert ss == loop + [ss[2 * n]];
    ValuesAppend(loop, [ss[2 * n]]);
    assert Values([ss[2 * n]]) == [] by {
      assert [ss[2 * n]][1..] == [];
    }
    assert Tokens(ss) == Tokens(loop) + [Lit(")")];
  }

  /** The reader of an n-tuple reads "(", the components at precedence 0 separated by ",", and ")". */
  lemma ReadTupleMeaning(n: nat, next: nat)
    ensures ReadsAs(MkReadTuple(n, next).exp, TupleCon(n), TupleTokens(n), next, MkReadTuple(n, next).next)
  {
    var rd := TupleReader(n, next);
    TupleFresh(rd, n, next);
    TupleValues(rd, n, next);
  }

  /** The `k`-th step of a record reader: the constructor name, the loop's steps, then "}". */
  function RecordStep(con: Constr, fs: seq<string>, next: nat, k: nat): Step
    requires k <= 2 * |fs| + 1
  {
    if k == 0 then Step(Lit(con.name), StrLit(con.name), Inv(next), Inv(next + 1))
    else if k == 2 * |fs| + 1 then
      Step(Lit("}"), StrLit("}"), if fs == [] then Inv(next + 1) else Inv(next + 2 + 3 * |fs|), Inv(next + 2))
    else SepStep(k - 1, SomeSels(fs), "{", Inv(next + 1), next + 3)
  }

  function RecordSteps(con: Constr, fs: seq<string>, next: nat): (r: seq<Step>)
    ensures |r| == 2 * |fs| + 2 && forall k :: 0 <= k <= 2 * |fs| + 1 ==> r[k] == RecordStep(con, fs, next, k)
  {
    seq(2 * |fs| + 2, k requires 0 <= k <= 2 * |fs| + 1 => RecordStep(con, fs, next, k))
  }

  /** The shape of a record reader: its steps, its rest and its value. */
  predicate RecordShape(rd: Reader, con: Constr, fs: seq<string>, next: nat)
  {
    rd.param == Inv(next) && rd.steps == RecordSteps(con, fs, next) && rd.rest == Inv(next + 2) &&
    Head(rd.value) == Con(con) && Args(rd.value) == InvEvery(next + 3, 3, |fs|)
  }

  /** The generators of a record reader: the constructor name, the loop's generators, then "}". */
  function RecordGens(con: Constr, fs: seq<string>, next: nat): seq<Cell>
  {
    [Gen(Tuple2(StrLit(con.name), Inv(next + 1)), Lex(Inv(next)))] + SepQuals(SomeSels(fs), "{", Inv(next + 1), next + 3) +
    [Gen(Tuple2(StrLit("}"), Inv(next + 2)), Lex(if fs == [] then Inv(next + 1) else Inv(next + 2 + 3 * |fs|)))]
  }

  /** The record reader `mkReadRecord` builds, with `RecordGens` as its generators. */
  lemma RecordQuals(con: Constr, fs: seq<string>, next: nat) returns (v: Cell)
    ensures MkReadRecord(con, fs, next).exp == Lambda([Inv(next)], Comp(Tuple2(v, Inv(next + 2)), RecordGens(con, fs, next)))
    ensures MkReadRecord(con, fs, next).next == next + 3 + 3 * |fs|
    ensures Head(v) == Con(con) && Args(v) == InvEvery(next + 3, 3, |fs|)
  {
    var fields, first := SomeSels(fs), Gen(Tuple2(StrLit(con.name), Inv(next + 1)), Lex(Inv(next)));
    var st0 := LoopState(Con(con), Inv(next + 1), [first], next + 3);
    SepLoopNext(fields, "{", st0);
    SepLoopPrev(fields, "{", st0);
    SepLoopValue(fields, "{", st0);
    SepLoopQuals(fields, "{", st0);
    v := SepLoop(fields, "{", st0).exp;
    assert Args(st0.exp) == [];
  }

  /** Each generator of a record reader is a step of `RecordSteps`. */
  lemma RecordQualSteps(con: Constr, fs: seq<string>, next: nat)
    ensures |RecordGens(con, fs, next)| == 2 * |fs| + 2
    ensures forall k :: 0 <= k < 2 * |fs| + 2 ==> StepOf(RecordGens(con, fs, next)[k]) == Some(RecordSteps(con, fs, next)[k])
  {
    var qs, steps := RecordGens(con, fs, next), RecordSteps(con, fs, next);
    SepQualsLength(SomeSels(fs), "{", Inv(next + 1), next + 3);
    SepQualsAround([qs[0]], SomeSels(fs), "{", Inv(next + 1), next + 3, [qs[2 * |fs| + 1]]);
    forall k | 0 <= k < |qs| ensures StepOf(qs[k]) == Some(steps[k]) {
      if k == 0 {
        StepOfLex(con.name, Inv(next + 1), Inv(next));
      } else if k == 2 * |fs| + 1 {
        StepOfLex("}", Inv(next + 2), if fs == [] then Inv(next + 1) else Inv(next + 2 + 3 * |fs|));
      } else {
        SepStepOf(k - 1, SomeSels(fs), "{", Inv(next + 1), next + 3);
      }
    }
  }

  lemma RecordReader(con: Constr, fs: seq<string>, next: nat) returns (rd: Reader)
    ensures IsReader(MkReadRecord(con, fs, next).exp) && rd == ReaderOf(MkReadRecord(con, fs, next).exp)
    ensures MkReadRecord(con, fs, next).next == next + 3 + 3 * |fs|
    ensures RecordShape(rd, con, fs, next)
  {
    var v := RecordQuals(con, fs, next);
    RecordQualSteps(con, fs, next);
    ReaderFrom(Inv(next), v, Inv(next + 2), RecordGens(con, fs, next), RecordSteps(con, fs, next));
    rd := Reader(Inv(next), RecordSteps(con, fs, next), v, Inv(next + 2));
  }


  /** The variables of a record reader's `k`-th step. */
  lemma RecordStepFacts(con: Constr, fs: seq<string>, next: nat, k: nat)
    requires k <= 2 * |fs| + 1
    ensures RecordStep(con, fs, next, k).output ==
      Inv(if k == 0 then next + 1 else if k == 2 * |fs| + 1 then next + 2 else next + 4 + 3 * ((k - 1) / 2) + (k - 1) % 2)
    ensures BindsValue(RecordStep(con, fs, next, k)) <==> 1 <= k <= 2 * |fs| && (k - 1) % 2 == 1
    ensures BindsValue(RecordStep(con, fs, next, k)) ==> RecordStep(con, fs, next, k).bound == Inv(next + 3 + 3 * ((k - 1) / 2))
  {
    if 1 <= k <= 2 * |fs| {
      SepStepFacts(k - 1, SomeSels(fs), "{", Inv(next + 1), next + 3);
    }
  }

  /** Each step of a record reader reads what the previous one left. */
  lemma RecordStepLink(con: Constr, fs: seq<string>, next: nat, k: nat)
    requires k <= 2 * |fs| + 1
    ensures k == 0 ==> RecordStep(con, fs, next, k).input == Inv(next)
    ensures k > 0 ==> RecordStep(con, fs, next, k).input == RecordStep(con, fs, next, k - 1).output
  {
    var n := |fs|;
    if 1 <= k <= 2 * n {
      SepStepFacts(k - 1, SomeSels(fs), "{", Inv(next + 1), next + 3);
    } else if k == 2 * n + 1 && n > 0 {
      SepStepFacts(2 * n - 1, SomeSels(fs), "{", Inv(next + 1), next + 3);
      assert (2 * n - 1) / 2 == n - 1;
    }
  }


  lemma RecordFresh(rd: Reader, con: Constr, fs: seq<string>, next: nat)
    requires RecordShape(rd, con, fs, next)
    ensures Chained(rd) && Fresh(rd, next, next + 3 + 3 * |fs|)
  {
    RecordChained(rd, con, fs, next);
    RecordOutputsFresh(rd, con, fs, next);
    RecordBoundsFresh(rd, con, fs, next);
  }

  lemma RecordChained(rd: Reader, con: Constr, fs: seq<string>, next: nat)
    requires RecordShape(rd, con, fs, next)
    ensures Chained(rd)
  {
    var ss := rd.steps;
    forall k | 1 <= k < |ss| ensures ss[k].input == ss[k - 1].output {
      RecordStepLink(con, fs, next, k);
    }
    RecordStepLink(con, fs, next, 0);
    RecordStepFacts(con, fs, next, 2 * |fs| + 1);
  }

  lemma RecordOutputsFresh(rd: Reader, con: Constr, fs: seq<string>, next: nat)
    requires RecordShape(rd, con, fs, next)
    ensures FreshOutputs(rd, next, next + 3 + 3 * |fs|)
  {
    var ss := rd.steps;
    var n := |fs|;
    forall k | 0 <= k < |ss|
      ensures ss[k].output ==
        Inv(if k == 0 then next + 1 else if k == 2 * n + 1 then next + 2 else next + 4 + 3 * ((k - 1) / 2) + (k - 1) % 2)
    {
      RecordStepFacts(con, fs, next, k);
    }
    forall k, j | 1 <= k < j < |ss| ensures ss[k].output != ss[j].output {
      SepIdsDistinct(k - 1, j - 1);
    }
  }

  lemma RecordBoundsFresh(rd: Reader, con: Constr, fs: seq<string>, next: nat)
    requires RecordShape(rd, con, fs, next)
    ensures FreshBounds(rd, next, next + 3 + 3 * |fs|)
  {
    RecordStepIds(rd, con, fs, next);
    RecordIdsApart(rd, con, fs, next);
  }

  /** No input variable of a record reader is a value variable, and value variables differ. */
  lemma RecordIdsApart(rd: Reader, con: Constr, fs: seq<string>, next: nat)
    requires RecordShape(rd, con, fs, next)
    ensures forall k, j :: 0 <= k < |rd.steps| && 0 <= j < |rd.steps| && BindsValue(rd.steps[j]) ==>
      rd.steps[k].output != rd.steps[j].bound
    ensures forall k, j :: 0 <= k < j < |rd.steps| && BindsValue(rd.steps[k]) && BindsValue(rd.steps[j]) ==>
      rd.steps[k].bound != rd.steps[j].bound
  {
    RecordStepIds(rd, con, fs, next);
    RecordLayoutApart(rd.steps, |fs|, next);
  }

  /** Steps numbered as a record reader's are: no step outputs a bound value, and no two bind the same one. */
  lemma RecordLayoutApart(ss: seq<Step>, n: nat, next: nat)
    requires forall k :: 0 <= k < |ss| ==>
      ss[k].output == Inv(if k == 0 then next + 1 else if k == 2 * n + 1 then next + 2 else next + 4 + 3 * ((k - 1) / 2) + (k - 1) % 2)
    requires forall k :: 0 <= k < |ss| ==> (BindsValue(ss[k]) <==> 1 <= k <= 2 * n && (k - 1) % 2 == 1)
    requires forall k :: 0 <= k < |ss| && BindsValue(ss[k]) ==> ss[k].bound == Inv(next + 3 + 3 * ((k - 1) / 2))
    ensures forall k, j :: 0 <= k < |ss| && 0 <= j < |ss| && BindsValue(ss[j]) ==> ss[k].output != ss[j].bound
    ensures forall k, j :: 0 <= k < j < |ss| && BindsValue(ss[k]) && BindsValue(ss[j]) ==> ss[k].bound != ss[j].bound
  {
    forall k, j | 1 <= k < |ss| && 1 <= j < |ss|
      ensures BindsValue(ss[j]) ==> ss[k].output != ss[j].bound
      ensures k != j && BindsValue(ss[k]) && BindsValue(ss[j]) ==> ss[k].bound != ss[j].bound
    {
      SepIdsDistinct(k - 1, j - 1);
    }
  }


  /** The variables of each step of a record reader. */
  lemma RecordStepIds(rd: Reader, con: Constr, fs: seq<string>, next: nat)
    requires RecordShape(rd, con, fs, next)
    ensures forall k :: 0 <= k < |rd.steps| ==>
      rd.steps[k].output == Inv(if k == 0 then next + 1 else if k == 2 * |fs| + 1 then next + 2 else next + 4 + 3 * ((k - 1) / 2) + (k - 1) % 2)
    ensures forall k :: 0 <= k < |rd.steps| ==> (BindsValue(rd.steps[k]) <==> 1 <= k <= 2 * |fs| && (k - 1) % 2 == 1)
    ensures forall k :: 0 <= k < |rd.steps| && BindsValue(rd.steps[k]) ==> rd.steps[k].bound == Inv(next + 3 + 3 * ((k - 1) / 2))
  {
    var ss := rd.steps;
    forall k | 0 <= k < |ss|
      ensures ss[k].output ==
        Inv(if k == 0 then next + 1 else if k == 2 * |fs| + 1 then next + 2 else next + 4 + 3 * ((k - 1) / 2) + (k - 1) % 2)
      ensures BindsValue(ss[k]) <==> 1 <= k <= 2 * |fs| && (k - 1) % 2 == 1
      ensures BindsValue(ss[k]) ==> ss[k].bound == Inv(next + 3 + 3 * ((k - 1) / 2))
    {
      RecordStepFacts(con, fs, next, k);
    }
  }


  lemma RecordValues(rd: Reader, con: Constr, fs: seq<string>, next: nat)
    requires RecordShape(rd, con, fs, next)
    ensures Tokens(rd.steps) == RecordTokens(con, fs)
    ensures Args(rd.value) == Values(rd.steps)
  {
    RecordStepsValues(con, fs, next);
  }

  /** The middle of a record reader's steps is the loop's steps. */
  lemma RecordLoopSteps(con: Constr, fs: seq<string>, next: nat, mid: seq<Step>)
    requires mid == RecordSteps(con, fs, next)[1..2 * |fs| + 1]
    ensures forall k :: 0 <= k < |mid| ==> mid[k] == SepStep(k, SomeSels(fs), "{", Inv(next + 1), next + 3)
  {
    forall k | 0 <= k < |mid| ensures mid[k] == SepStep(k, SomeSels(fs), "{", Inv(next + 1), next + 3) {
      assert mid[k] == RecordStep(con, fs, next, k + 1);
    }
  }

  lemma RecordStepsValues(con: Constr, fs: seq<string>, next: nat)
    ensures Tokens(RecordSteps(con, fs, next)) == RecordTokens(con, fs)
    ensures Values(RecordSteps(con, fs, next)) == InvEvery(next + 3, 3, |fs|)
  {
    var ss := RecordSteps(con, fs, next);
    var mid := ss[1..2 * |fs| + 1];
    RecordLoopSteps(con, fs, next, mid);
    SepValues(mid, SomeSels(fs), "{", Inv(next + 1), next + 3);
    RecordTokensAround(ss, con.name, mid);
    RecordValuesAround(ss, mid);
  }

  /** The tokens of a literal, the steps `mid`, and a literal. */
  lemma RecordTokensAround(ss: seq<Step>, name: string, mid: seq<Step>)
    requires |ss| == |mid| + 2 && mid == ss[1..|mid| + 1]
    requires ss[0].tok == Lit(name) && ss[|mid| + 1].tok == Lit("}")
    ensures Tokens(ss) == [Lit(name)] + Tokens(mid) + [Lit("}")]
  {
    var ts, us := Tokens(ss), [Lit(name)] + Tokens(mid) + [Lit("}")];
    forall k | 0 <= k < |ss| ensures ts[k] == us[k] {
      if 1 <= k <= |mid| {
        assert mid[k - 1] == ss[k];
      }
    }
  }

  /** A literal, the steps `mid`, and a literal bind the values `mid` binds. */
  lemma RecordValuesAround(ss: seq<Step>, mid: seq<Step>)
    requires |ss| == |mid| + 2 && mid == ss[1..|mid| + 1]
    requires !BindsValue(ss[0]) && !BindsValue(ss[|mid| + 1])
    ensures Values(ss) == Values(mid)
  {
    var last := ss[|mid| + 1];
    assert Values(ss) == Values(ss[1..]);
    assert ss[1..] == mid + [last];
    ValuesAppend(mid, [last]);
    assert Values([last]) == [] by {
      assert [last][1..] == [];
    }
  }


  /** The reader of a record constructor reads its name, "{", the labelled fields separated by ",", and "}". */
  lemma ReadRecordMeaning(con: Constr, fs: seq<string>, next: nat)
    ensures ReadsAs(MkReadRecord(con, fs, next).exp, Con(con), RecordTokens(con, fs), next, MkReadRecord(con, fs, next).next)
  {
    var rd := RecordReader(con, fs, next);
    RecordFresh(rd, con, fs, next);
    RecordValues(rd, con, fs, next);
  }

  /** The steps of the infix reader: the left operand, the operator, the right operand. */
  function InfixStepList(con: Constr, next: nat): seq<Step>
  {
    [Step(Sub(LeftPrec(con.syntax)), Inv(next + 4), Inv(next), Inv(next + 1)),
     Step(Lit(con.name), StrLit(con.name), Inv(next + 1), Inv(next + 2)),
     Step(Sub(RightPrec(con.syntax)), Inv(next + 5), Inv(next + 2), Inv(next + 3))]
  }

  lemma InfixQualSteps(con: Constr, next: nat)
    ensures var qs := MkReadInfix(con, next).exp.body.quals;
      |qs| == 3 && forall k :: 0 <= k < 3 ==> StepOf(qs[k]) == Some(InfixStepList(con, next)[k])
  {
    StepOfReadsPrec(LeftPrec(con.syntax), Inv(next + 4), Inv(next + 1), Inv(next));
    StepOfLex(con.name, Inv(next + 2), Inv(next + 1));
    StepOfReadsPrec(RightPrec(con.syntax), Inv(next + 5), Inv(next + 3), Inv(next + 2));
  }

  /** A constructor applied to two operands. */
  lemma ApplyTwo(h: Cell, x: Cell, y: Cell)
    requires !h.Ap?
    ensures Head(Ap2(h, x, y)) == h && Args(Ap2(h, x, y)) == [x, y]
  {
    assert Args(h) == [] && Head(h) == h;
    assert Args(Ap(h, x)) == [x] && Head(Ap(h, x)) == h;
  }

  lemma InfixReader(con: Constr, next: nat) returns (rd: Reader)
    ensures IsReader(MkReadInfix(con, next).exp) && rd == ReaderOf(MkReadInfix(con, next).exp)
    ensures rd == Reader(Inv(next), InfixStepList(con, next), Ap2(Con(con), Inv(next + 4), Inv(next + 5)), Inv(next + 3))
  {
    var e := MkReadInfix(con, next).exp;
    InfixQualSteps(con, next);
    var value := Ap2(Con(con), Inv(next + 4), Inv(next + 5));
    assert e == Lambda([Inv(next)], Comp(Tuple2(value, Inv(next + 3)), e.body.quals));
    ReaderFrom(Inv(next), value, Inv(next + 3), e.body.quals, InfixStepList(con, next));
    rd := ReaderOf(e);
  }

  lemma InfixFresh(rd: Reader, con: Constr, next: nat)
    requires rd.param == Inv(next) && rd.rest == Inv(next + 3) && rd.steps == InfixStepList(con, next)
    ensures Chained(rd) && Fresh(rd, next, next + 6)
  {
    var ss := rd.steps;
    forall k | 0 <= k < 3
      ensures ss[k].output == Inv(next + 1 + k)
      ensures BindsValue(ss[k]) <==> k != 1
      ensures BindsValue(ss[k]) ==> ss[k].bound == Inv(next + 4 + k / 2)
    {
    }
  }

  lemma InfixValues(ss: seq<Step>)
    requires |ss| == 3 && BindsValue(ss[0]) && !BindsValue(ss[1]) && BindsValue(ss[2])
    ensures Values(ss) == [ss[0].bound, ss[2].bound]
  {
    assert ss[1..][1..] == ss[2..] && ss[2..][1..] == [];
    assert Values(ss[2..]) == [ss[2].bound];
    assert Values(ss[1..]) == Values(ss[2..]);
  }

  /** The reader of an infix constructor reads the left operand, the operator and the right operand. */
  lemma ReadInfixMeaning(con: Constr, next: nat)
    ensures ReadsAs(MkReadInfix(con, next).exp, Con(con), InfixTokens(con), next, MkReadInfix(con, next).next)
  {
    var rd := InfixReader(con, next);
    ApplyTwo(Con(con), Inv(next + 4), Inv(next + 5));
    InfixStepsRead(con, next);
    InfixFresh(rd, con, next);
  }

  /** The infix reader's steps read its tokens and bind its two operands. */
  lemma InfixStepsRead(con: Constr, next: nat)
    ensures Tokens(InfixStepList(con, next)) == InfixTokens(con)
    ensures Values(InfixStepList(con, next)) == [Inv(next + 4), Inv(next + 5)]
  {
    InfixValues(InfixStepList(con, next));
  }


  /** The steps of the backquoted infix reader. */
  function QuotedInfixStepList(con: Constr, next: nat): seq<Step>
  {
    [Step(Sub(LeftPrec(con.syntax)), Inv(next + 6), Inv(next), Inv(next + 1)),
     Step(Lit("`"), StrLit("`"), Inv(next + 1), Inv(next + 2)),
     Step(Lit(con.name), StrLit(con.name), Inv(next + 2), Inv(next + 3)),
     Step(Lit("`"), StrLit("`"), Inv(next + 3), Inv(next + 4)),
     Step(Sub(RightPrec(con.syntax)), Inv(next + 7), Inv(next + 4), Inv(next + 5))]
  }

  lemma QuotedInfixQualSteps(con: Constr, next: nat)
    ensures var qs := MkReadInfixQuoted(con, next).exp.body.quals;
      |qs| == 5 && forall k :: 0 <= k < 5 ==> StepOf(qs[k]) == Some(QuotedInfixStepList(con, next)[k])
  {
    StepOfReadsPrec(LeftPrec(con.syntax), Inv(next + 6), Inv(next + 1), Inv(next));
    StepOfLex("`", Inv(next + 2), Inv(next + 1));
    StepOfLex(con.name, Inv(next + 3), Inv(next + 2));
    StepOfLex("`", Inv(next + 4), Inv(next + 3));
    StepOfReadsPrec(RightPrec(con.syntax), Inv(next + 7), Inv(next + 5), Inv(next + 4));
  }

  lemma QuotedInfixReader(con: Constr, next: nat) returns (rd: Reader)
    ensures IsReader(MkReadInfixQuoted(con, next).exp) && rd == ReaderOf(MkReadInfixQuoted(con, next).exp)
    ensures rd == Reader(Inv(next), QuotedInfixStepList(con, next), Ap2(Con(con), Inv(next + 6), Inv(next + 7)), Inv(next + 5))
  {
    var e := MkReadInfixQuoted(con, next).exp;
    QuotedInfixQualSteps(con, next);
    var value := Ap2(Con(con), Inv(next + 6), Inv(next + 7));
    assert e == Lambda([Inv(next)], Comp(Tuple2(value, Inv(next + 5)), e.body.quals));
    ReaderFrom(Inv(next), value, Inv(next + 5), e.body.quals, QuotedInfixStepList(con, next));
    rd := ReaderOf(e);
  }

  lemma QuotedInfixFresh(rd: Reader, con: Constr, next: nat)
    requires rd.param == Inv(next) && rd.rest == Inv(next + 5) && rd.steps == QuotedInfixStepList(con, next)
    ensures Chained(rd) && Fresh(rd, next, next + 8)
  {
    QuotedInfixStepFacts(con, next);
    assert Chained(rd);
    assert FreshOutputs(rd, next, next + 8);
    assert FreshBounds(rd, next, next + 8);
  }

  lemma QuotedInfixStepFacts(con: Constr, next: nat)
    ensures var ss := QuotedInfixStepList(con, next);
      forall k :: 0 <= k < 5 ==>
        ss[k].input == Inv(next + k) && ss[k].output == Inv(next + 1 + k) &&
        (BindsValue(ss[k]) <==> k == 0 || k == 4) &&
        (BindsValue(ss[k]) ==> ss[k].bound == Inv(next + 6 + k / 4))
  {
  }


  lemma QuotedInfixValues(ss: seq<Step>)
    requires |ss| == 5 && BindsValue(ss[0]) && BindsValue(ss[4])
    requires !BindsValue(ss[1]) && !BindsValue(ss[2]) && !BindsValue(ss[3])
    ensures Values(ss) == [ss[0].bound, ss[4].bound]
  {
    assert ss[1..][1..] == ss[2..] && ss[2..][1..] == ss[3..] && ss[3..][1..] == ss[4..] && ss[4..][1..] == [];
    assert Values(ss[4..]) == [ss[4].bound];
    assert Values(ss[1..]) == Values(ss[2..]) == Values(ss[3..]) == Values(ss[4..]);
  }

  /** The backquoted infix reader reads the left operand, "`", the name, "`" and the right operand. */
  lemma ReadInfixQuotedMeaning(con: Constr, next: nat)
    ensures ReadsAs(MkReadInfixQuoted(con, next).exp, Con(con), QuotedInfixTokens(con), next, MkReadInfixQuoted(con, next).next)
  {
    var rd := QuotedInfixReader(con, next);
    ApplyTwo(Con(con), Inv(next + 6), Inv(next + 7));
    QuotedInfixStepsRead(con, next);
    QuotedInfixFresh(rd, con, next);
  }

  /** The backquoted infix reader's steps read its tokens and bind its two operands. */
  lemma QuotedInfixStepsRead(con: Constr, next: nat)
    ensures Tokens(QuotedInfixStepList(con, next)) == QuotedInfixTokens(con)
    ensures Values(QuotedInfixStepList(con, next)) == [Inv(next + 6), Inv(next + 7)]
  {
    QuotedInfixValues(QuotedInfixStepList(con, next));
  }


  // ------------------------------------------------------------ whole readers

  /** The tokens `mkReadCon`'s reader expects for a constructor. */
  function ConTokens(con: Constr, sels: Option<seq<string>>): seq<Token>
  {
    if sels.Some? then RecordTokens(con, sels.value)
    else if IsInfix(con) then InfixTokens(con)
    else PrefixTokens(con)
  }

  /** `readParen cond` demands parentheses when `d` has the value `dv`. */
  predicate DemandsParens(cond: Cell, d: Cell, dv: int)
  {
    cond.Ap? && cond.fun.Ap? && cond.fun.fun == VarGt && cond.fun.arg == d && cond.arg.IntLit? && dv > cond.arg.i
  }

  /**
   * `mkReadCon` wraps a reader of the constructor's tokens in `readParen`;
   * parentheses are demanded exactly above the constructor's precedence, and
   * never for a nullary constructor.
   */
  lemma ReadConMeaning(con: Constr, d: Cell, r: Cell, cfs: seq<CfunSfun>, next: nat) returns (cond: Cell, body: Cell)
    ensures MkReadCon(con, d, r, cfs, next).exp == Ap3(VarReadParen, cond, body, r)
    ensures ReadsAs(body, Con(con), ConTokens(con, LookupSels(cfs, con)), next, MkReadCon(con, d, r, cfs, next).next)
    ensures forall dv :: DemandsParens(cond, d, dv) <==> con.arity > 0 && dv > ReadPrec(con, cfs)
  {
    cond := ReadCond(con, cfs, d);
    body := ConReader(con, LookupSels(cfs, con), next).exp;
    ConReaderMeaning(con, LookupSels(cfs, con), next);
    ReadCondParens(con, cfs, d);
  }

  /** The chosen reader reads the constructor's tokens. */
  lemma ConReaderMeaning(con: Constr, sels: Option<seq<string>>, next: nat)
    ensures var b := ConReader(con, sels, next); ReadsAs(b.exp, Con(con), ConTokens(con, sels), next, b.next)
  {
    if sels.Some? {
      ReadRecordMeaning(con, sels.value, next);
    } else if IsInfix(con) {
      ReadInfixMeaning(con, next);
    } else {
      ReadPrefixMeaning(con, next);
    }
  }

  lemma ReadCondParens(con: Constr, cfs: seq<CfunSfun>, d: Cell)
    ensures forall dv :: DemandsParens(ReadCond(con, cfs, d), d, dv) <==> con.arity > 0 && dv > ReadPrec(con, cfs)
  {
  }


  /** The tokens the corrected reader expects: as `ConTokens`, with an alphanumeric operator backquoted. */
  function ConTokensFixed(con: Constr, sels: Option<seq<string>>): seq<Token>
  {
    if sels.Some? then RecordTokens(con, sels.value)
    else if IsInfix(con) && con.alphanumeric then QuotedInfixTokens(con)
    else if IsInfix(con) then InfixTokens(con)
    else PrefixTokens(con)
  }

  /**
   * The corrected reader of a constructor reads its tokens; parentheses are
   * demanded exactly above its precedence, never for a nullary or a record
   * constructor.
   */
  lemma ReadConFixedMeaning(con: Constr, d: Cell, r: Cell, cfs: seq<CfunSfun>, next: nat) returns (cond: Cell, body: Cell)
    ensures MkReadConFixed(con, d, r, cfs, next).exp == Ap3(VarReadParen, cond, body, r)
    ensures cond == ReadCondFixed(con, cfs, d)
    ensures ReadsAs(body, Con(con), ConTokensFixed(con, LookupSels(cfs, con)), next, MkReadConFixed(con, d, r, cfs, next).next)
    ensures forall dv :: DemandsParens(cond, d, dv) <==>
      con.arity > 0 && LookupSels(cfs, con).None? && dv > ReadPrec(con, cfs)
  {
    cond := ReadCondFixed(con, cfs, d);
    body := ConReaderFixed(con, LookupSels(cfs, con), next).exp;
    ConReaderFixedMeaning(con, LookupSels(cfs, con), next);
    ReadCondFixedParens(con, cfs, d);
  }

  /** The corrected choice of reader reads the tokens derived `Show` prints. */
  lemma ConReaderFixedMeaning(con: Constr, sels: Option<seq<string>>, next: nat)
    ensures var b := ConReaderFixed(con, sels, next); ReadsAs(b.exp, Con(con), ConTokensFixed(con, sels), next, b.next)
  {
    if sels.Some? {
      ReadRecordMeaning(con, sels.value, next);
    } else if IsInfix(con) && con.alphanumeric {
      ReadInfixQuotedMeaning(con, next);
    } else if IsInfix(con) {
      ReadInfixMeaning(con, next);
    } else {
      ReadPrefixMeaning(con, next);
    }
  }


  lemma ReadCondFixedParens(con: Constr, cfs: seq<CfunSfun>, d: Cell)
    ensures forall dv :: DemandsParens(ReadCondFixed(con, cfs, d), d, dv) <==>
      con.arity > 0 && LookupSels(cfs, con).None? && dv > ReadPrec(con, cfs)
  {
  }

  /** Where each constructor's reader starts numbering its variables. */
  function ReadStarts(fixed: bool, cs: seq<Constr>, d: Cell, r: Cell, cfs: seq<CfunSfun>, next: nat): (st: seq<nat>)
    ensures |st| == |cs| + 1 && st[0] == next
    decreases |cs|
  {
    if cs == [] then [next]
    else [next] + ReadStarts(fixed, cs[1..], d, r, cfs, MkReadConAs(fixed, cs[0], d, r, cfs, next).next)
  }

  /**
   * The readers of the constructors come in declaration order, each numbering
   * its variables from where the previous one stopped, so no two constructors'
   * readers share a variable.
   */
  lemma {:induction false} ReadConExpsMeaning(fixed: bool, cs: seq<Constr>, d: Cell, r: Cell, cfs: seq<CfunSfun>, next: nat)
    returns (st: seq<nat>)
    ensures st == ReadStarts(fixed, cs, d, r, cfs, next)
    ensures st[|cs|] == ReadConExps(fixed, cs, d, r, cfs, next).next
    ensures forall i :: 0 <= i < |cs| ==> ReadConExps(fixed, cs, d, r, cfs, next).exps[i] == MkReadConAs(fixed, cs[i], d, r, cfs, st[i]).exp
    ensures forall i :: 0 <= i < |cs| ==> st[i + 1] == MkReadConAs(fixed, cs[i], d, r, cfs, st[i]).next
    decreases |cs|
  {
    st := ReadStarts(fixed, cs, d, r, cfs, next);
    if cs != [] {
      var first := MkReadConAs(fixed, cs[0], d, r, cfs, next);
      var st' := ReadConExpsMeaning(fixed, cs[1..], d, r, cfs, first.next);
      var es := ReadConExps(fixed, cs, d, r, cfs, next);
      var es' := ReadConExps(fixed, cs[1..], d, r, cfs, first.next);
      assert st == [next] + st';
      assert es.exps == [first.exp] + es'.exps;
      assert st[1] == first.next;
      forall i | 1 <= i < |cs|
        ensures es.exps[i] == MkReadConAs(fixed, cs[i], d, r, cfs, st[i]).exp
        ensures st[i + 1] == MkReadConAs(fixed, cs[i], d, r, cfs, st[i]).next
      {
        assert cs[1..][i - 1] == cs[i];
        assert st[i] == st'[i - 1] && st[i + 1] == st'[i];
        assert es.exps[i] == es'.exps[i - 1];
      }
    }
  }

  /** The alternatives of a right-nested `++` chain. */
  function Alternatives(e: Cell): (r: seq<Cell>)
    ensures |r| >= 1
  {
    if e.Ap? && e.fun.Ap? && e.fun.fun == VarAppend then [e.fun.arg] + Alternatives(e.arg) else [e]
  }

  predicate IsAppend(e: Cell) { e.Ap? && e.fun.Ap? && e.fun.fun == VarAppend }

  lemma {:induction false} AppendFoldAlternatives(es: seq<Cell>, acc: Cell)
    requires forall i :: 0 <= i < |es| ==> !IsAppend(es[i])
    ensures Alternatives(AppendFold(es, acc)) == es + Alternatives(acc)
    decreases |es|
  {
    if es != [] {
      var n := |es|;
      AppendFoldAlternatives(es[..n - 1], Ap2(VarAppend, es[n - 1], acc));
      assert es[..n - 1] + ([es[n - 1]] + Alternatives(acc)) == es + Alternatives(acc);
    }
  }

  /** Joining the readers with `++` keeps each of them, in order, as one alternative. */
  lemma AppendChainAlternatives(es: seq<Cell>)
    requires |es| >= 1
    requires forall i :: 0 <= i < |es| ==> !IsAppend(es[i])
    ensures Alternatives(AppendChain(es)) == es
  {
    var n := |es|;
    AppendFoldAlternatives(es[..n - 1], es[n - 1]);
    assert es[..n - 1] + [es[n - 1]] == es;
  }

  /**
   * `deriveRead` for a declared type: one `readsPrec d r` equation whose
   * right-hand side offers, in declaration order, each constructor's reader
   * (as written, or corrected when `fixed`), numbered after `d` and `r` and
   * apart from one another.
   */
  lemma DeriveReadMeaning(fixed: bool, t: Type, cfs: seq<CfunSfun>, next: nat) returns (st: seq<nat>)
    requires t.TyconType? && |t.tycon.defn| >= 1
    ensures st == ReadStarts(fixed, t.tycon.defn, Inv(next), Inv(next + 1), cfs, next + 2)
    ensures |DeriveReadBinds(fixed, t, cfs, next).binds| == 1
    ensures DeriveReadBinds(fixed, t, cfs, next).binds[0] ==
      Bind("readsPrec", [Alt([Inv(next), Inv(next + 1)], t.tycon.line, DeriveReadBinds(fixed, t, cfs, next).binds[0].alts[0].rhs)])
    ensures st[|t.tycon.defn|] == DeriveReadBinds(fixed, t, cfs, next).next
    ensures var alts := Alternatives(DeriveReadBinds(fixed, t, cfs, next).binds[0].alts[0].rhs);
      |alts| == |t.tycon.defn| &&
      forall i :: 0 <= i < |t.tycon.defn| ==> alts[i] == MkReadConAs(fixed, t.tycon.defn[i], Inv(next), Inv(next + 1), cfs, st[i]).exp
    ensures forall i :: 0 <= i < |t.tycon.defn| ==>
      st[i + 1] == MkReadConAs(fixed, t.tycon.defn[i], Inv(next), Inv(next + 1), cfs, st[i]).next
    ensures forall i :: 0 <= i < |t.tycon.defn| ==> st[i] + 2 <= st[i + 1]
  {
    var cs := t.tycon.defn;
    var d := Inv(next);
    var r := Inv(next + 1);
    var es := ReadConExps(fixed, cs, d, r, cfs, next + 2);
    st := ReadConExpsMeaning(fixed, cs, d, r, cfs, next + 2);
    ReadersNotAppend(fixed, es.exps, cs, d, r, cfs, st);
    AppendChainAlternatives(es.exps);
    ReadStartsAdvance(fixed, cs, d, r, cfs, st);
  }

  /** The alternatives of the generated `readsPrec d r` for a declared type. */
  function ReadAlternatives(fixed: bool, t: Type, cfs: seq<CfunSfun>, next: nat): seq<Cell>
    requires t.TyconType? && |t.tycon.defn| >= 1
  {
    Alternatives(DeriveReadBinds(fixed, t, cfs, next).binds[0].alts[0].rhs)
  }

  /**
   * The `i`-th alternative of the generated `readsPrec d r` is the `i`-th
   * constructor's reader as `mkReadCon` writes it: it reads that constructor's
   * tokens over its own variables, and demands parentheses exactly when the
   * constructor has fields and `d` exceeds its precedence (9 for records).
   */
  lemma DeriveReadAltMeaning(t: Type, cfs: seq<CfunSfun>, next: nat, i: nat) returns (st: seq<nat>, cond: Cell, body: Cell)
    requires t.TyconType? && i < |t.tycon.defn|
    ensures |st| == |t.tycon.defn| + 1 && st[0] == next + 2 && st[|t.tycon.defn|] == DeriveReadBinds(false, t, cfs, next).next
    ensures |ReadAlternatives(false, t, cfs, next)| == |t.tycon.defn|
    ensures ReadAlternatives(false, t, cfs, next)[i] == Ap3(VarReadParen, cond, body, Inv(next + 1))
    ensures ReadsAs(body, Con(t.tycon.defn[i]), ConTokens(t.tycon.defn[i], LookupSels(cfs, t.tycon.defn[i])), st[i], st[i + 1])
    ensures var c := t.tycon.defn[i];
      forall dv :: DemandsParens(cond, Inv(next), dv) <==> c.arity > 0 && dv > ReadPrec(c, cfs)
  {
    st := DeriveReadMeaning(false, t, cfs, next);
    var c := t.tycon.defn[i];
    var b := MkReadCon(c, Inv(next), Inv(next + 1), cfs, st[i]);
    assert MkReadConAs(false, c, Inv(next), Inv(next + 1), cfs, st[i]) == b;
    assert st[i + 1] == b.next;
    cond, body := ReadConMeaning(c, Inv(next), Inv(next + 1), cfs, st[i]);
  }


  /**
   * With the corrected readers, the `i`-th alternative reads the tokens
   * derived `Show` prints for the `i`-th constructor, and never demands
   * parentheses around a record.
   */
  lemma DeriveReadFixedAltMeaning(t: Type, cfs: seq<CfunSfun>, next: nat, i: nat) returns (st: seq<nat>, cond: Cell, body: Cell)
    requires t.TyconType? && i < |t.tycon.defn|
    ensures |st| == |t.tycon.defn| + 1 && st[0] == next + 2 && st[|t.tycon.defn|] == DeriveReadBinds(true, t, cfs, next).next
    ensures |ReadAlternatives(true, t, cfs, next)| == |t.tycon.defn|
    ensures ReadAlternatives(true, t, cfs, next)[i] == Ap3(VarReadParen, cond, body, Inv(next + 1))
    ensures ReadsAs(body, Con(t.tycon.defn[i]), ConTokensFixed(t.tycon.defn[i], LookupSels(cfs, t.tycon.defn[i])), st[i], st[i + 1])
    ensures var c := t.tycon.defn[i];
      forall dv :: DemandsParens(cond, Inv(next), dv) <==> c.arity > 0 && LookupSels(cfs, c).None? && dv > ReadPrec(c, cfs)
  {
    st := DeriveReadMeaning(true, t, cfs, next);
    var c := t.tycon.defn[i];
    var b := MkReadConFixed(c, Inv(next), Inv(next + 1), cfs, st[i]);
    assert MkReadConAs(true, c, Inv(next), Inv(next + 1), cfs, st[i]) == b;
    assert st[i + 1] == b.next;
    cond, body := ReadConFixedMeaning(c, Inv(next), Inv(next + 1), cfs, st[i]);
  }


  /** No constructor's reader is itself a `++`, so the chain keeps them apart. */
  lemma ReadersNotAppend(fixed: bool, es: seq<Cell>, cs: seq<Constr>, d: Cell, r: Cell, cfs: seq<CfunSfun>, st: seq<nat>)
    requires |es| == |cs| && |st| == |cs| + 1
    requires forall i :: 0 <= i < |cs| ==> es[i] == MkReadConAs(fixed, cs[i], d, r, cfs, st[i]).exp
    ensures forall i :: 0 <= i < |es| ==> !IsAppend(es[i])
  {
    forall i | 0 <= i < |es| ensures !IsAppend(es[i]) {
      ReaderNotAppend(fixed, cs[i], d, r, cfs, st[i]);
    }
  }

  lemma ReaderNotAppend(fixed: bool, con: Constr, d: Cell, r: Cell, cfs: seq<CfunSfun>, next: nat)
    ensures !IsAppend(MkReadConAs(fixed, con, d, r, cfs, next).exp)
  {
    assert MkReadConAs(fixed, con, d, r, cfs, next).exp.fun.fun.fun == VarReadParen;
  }

  /** Each constructor's reader invents at least two variables. */
  lemma ReadStartsAdvance(fixed: bool, cs: seq<Constr>, d: Cell, r: Cell, cfs: seq<CfunSfun>, st: seq<nat>)
    requires |st| == |cs| + 1
    requires forall i :: 0 <= i < |cs| ==> st[i + 1] == MkReadConAs(fixed, cs[i], d, r, cfs, st[i]).next
    ensures forall i :: 0 <= i < |cs| ==> st[i] + 2 <= st[i + 1]
  {
  }


  /** `deriveRead` for a tuple type: the tuple reader applied to `r`. */
  lemma DeriveReadTupleMeaning(fixed: bool, n: nat, cfs: seq<CfunSfun>, next: nat)
    ensures var res := DeriveReadBinds(fixed, TupleType(n), cfs, next);
      |res.binds| == 1 && |res.binds[0].alts| == 1 &&
      res.binds[0].alts[0].pats == [Inv(next), Inv(next + 1)] &&
      var rhs := res.binds[0].alts[0].rhs;
      rhs.Ap? && rhs.arg == Inv(next + 1) &&
      ReadsAs(rhs.fun, TupleCon(n), TupleTokens(n), next + 2, res.next)
  {
    ReadTupleMeaning(n, next + 2);
  }
}
