/**
 * The abstract syntax the derived-instance generator builds: expression and
 * pattern cells, equations (alternatives), bindings, and the description of
 * the type whose instance is derived. A data constructor cell carries the
 * constructor's name table entry (name, arity, declared fixity and whether its
 * name is alphanumeric), as the interpreter's name table does.
 */
module DeriveAst {

  datatype Assoc = Applic | LeftAss | RightAss | NonAss

  /** A fixity declaration: associativity and precedence. */
  datatype Syntax = Syntax(assoc: Assoc, prec: int)

  /**
   * A data constructor: `syntax` is its declared fixity (`syntaxOf`), and
   * `alphanumeric` says its default syntax is applicative, i.e. it is written
   * between backquotes when used infix.
   */
  datatype Constr = Constr(name: string, arity: nat, syntax: Syntax, alphanumeric: bool)

  datatype What = DataType | NewType | Synonym | RestrictSyn

  datatype Tycon = Tycon(name: string, line: int, what: What, defn: seq<Constr>)

  /** The type an instance is derived for: a type constructor or a tuple type. */
  datatype Type = TyconType(tycon: Tycon) | TupleType(arity: nat)

  datatype Cell =
    | Var(name: string)             // a Prelude variable
    | Con(con: Constr)              // a data constructor
    | TupleCon(size: nat)           // the tuple constructor of a given size
    | Inv(id: nat)                  // an invented variable
    | ConToTag(tyconName: string)   // the constructor-to-tag function of a type
    | TagToCon(tyconName: string)   // the tag-to-constructor function of a type
    | Ap(fun: Cell, arg: Cell)
    | IntLit(i: int)
    | StrLit(s: string)
    | CharLit(c: char)
    | Wildcard
    | Cond(test: Cell, thenBranch: Cell, elseBranch: Cell)
    | AsPat(asVar: Cell, pat: Cell)
    | Comp(head: Cell, quals: seq<Cell>)
    | FromQual(genPat: Cell, genExp: Cell)
    | Lambda(params: seq<Cell>, body: Cell)

  /** One equation: argument patterns, source line, right-hand side. */
  datatype Alt = Alt(pats: seq<Cell>, line: int, rhs: Cell)

  /** A binding of a member name to its equations. */
  datatype Bind = Bind(name: string, alts: seq<Alt>)

  datatype Option<T> = None | Some(value: T)

  datatype Result<T> = Ok(value: T) | Err(line: int, msg: string)

  // The Prelude names the generator refers to.
  const VarTrue := Var("True")
  const VarFalse := Var("False")
  const VarCompAux := Var("primCompAux")
  const VarCompare := Var("compare")
  const VarEQ := Var("EQ")
  const VarRangeSize := Var("rangeSize")
  const VarInRange := Var("inRange")
  const VarRange := Var("range")
  const VarIndex := Var("index")
  const VarMult := Var("*")
  const VarPlus := Var("+")
  const VarMap := Var("map")
  const VarMinus := Var("-")
  const VarError := Var("error")
  const VarEnumFromTo := Var("enumFromTo")
  const VarEnumFromThenTo := Var("enumFromThenTo")
  const VarMinBound := Var("minBound")
  const VarMaxBound := Var("maxBound")
  const VarShowField := Var("primShowField")
  const VarShowParen := Var("showParen")
  const VarCompose := Var(".")
  const VarShowsPrec := Var("showsPrec")
  const VarLe := Var("<=")
  const VarReadField := Var("primReadField")
  const VarReadParen := Var("readParen")
  const VarLex := Var("lex")
  const VarReadsPrec := Var("readsPrec")
  const VarGt := Var(">")
  const VarAppend := Var("++")
  const VarAnd := Var("&&")
  const VarEq := Var("==")

  /** The list constructor `:`, an infixr 5 symbol. */
  const ConsConstr := Constr(":", 2, Syntax(RightAss, 5), false)

  function Ap2(f: Cell, a: Cell, b: Cell): Cell { Ap(Ap(f, a), b) }

  function Ap3(f: Cell, a: Cell, b: Cell, c: Cell): Cell { Ap(Ap(Ap(f, a), b), c) }

  function Tuple2(a: Cell, b: Cell): Cell { Ap2(TupleCon(2), a, b) }

  /** `h x1 ... xn`, built left to right as the generator's loops do. */
  function ApplyTo(h: Cell, xs: seq<Cell>): Cell
    decreases |xs|
  {
    if xs == [] then h else Ap(ApplyTo(h, xs[..|xs| - 1]), xs[|xs| - 1])
  }

  /** The arguments along an application spine, leftmost first. */
  function Args(c: Cell): seq<Cell>
  {
    if c.Ap? then Args(c.fun) + [c.arg] else []
  }

  /** The head of an application spine (`getHead`). */
  function Head(c: Cell): (r: Cell)
    ensures !r.Ap?
  {
    if c.Ap? then Head(c.fun) else c
  }

  /** Taking an application apart gives back its head and its arguments. */
  lemma {:induction false} ApplyToSpine(h: Cell, xs: seq<Cell>)
    requires !h.Ap?
    ensures Args(ApplyTo(h, xs)) == xs && Head(ApplyTo(h, xs)) == h
    decreases |xs|
  {
    if xs != [] {
      ApplyToSpine(h, xs[..|xs| - 1]);
      assert xs[..|xs| - 1] + [xs[|xs| - 1]] == xs;
    }
  }

  /** Rebuilding from the head and the arguments gives back the application. */
  lemma {:induction false} SpineApplyTo(c: Cell)
    ensures ApplyTo(Head(c), Args(c)) == c
  {
    if c.Ap? {
      SpineApplyTo(c.fun);
      var xs := Args(c);
      assert xs[..|xs| - 1] == Args(c.fun);
    }
  }

  /** The number of arguments along a spine. */
  function SpineLength(c: Cell): nat
  {
    if c.Ap? then 1 + SpineLength(c.fun) else 0
  }

  lemma {:induction false} SpineLengthArgs(c: Cell)
    ensures SpineLength(c) == |Args(c)|
  {
    if c.Ap? {
      SpineLengthArgs(c.fun);
    }
  }

  /** Pairwise distinct elements. */
  predicate Distinct<T(==)>(xs: seq<T>)
  {
    forall i, j :: 0 <= i < j < |xs| ==> xs[i] != xs[j]
  }

  /** The invented variables numbered `lo` up to, not including, `hi`. */
  function InvRange(lo: nat, hi: nat): (r: seq<Cell>)
    requires lo <= hi
    ensures |r| == hi - lo
    ensures forall i :: 0 <= i < |r| ==> r[i] == Inv(lo + i)
    decreases hi - lo
  {
    if lo == hi then [] else [Inv(lo)] + InvRange(lo + 1, hi)
  }

  /** `mkBind`: a binding of a member to a list of equations. */
  function MkBind(name: string, alts: seq<Alt>): Bind { Bind(name, alts) }

  /** `mkVarAlts`: the single equation with no arguments binding a name to `r`. */
  function MkVarAlts(line: int, r: Cell): seq<Alt> { [Alt([], line, r)] }

  /**
   * `cfunOf(hd(defn)) != 0`: constructors are numbered from 1 when the type has
   * several of them, and the sole constructor of a type gets 0.
   */
  predicate HasSeveralConstrs(t: Tycon) { |t.defn| > 1 }
}
