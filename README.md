# Derived instances, closure updates and block descriptors

This project models three pieces of the Glasgow Haskell system's interpreter and runtime.

- **`ghc/interpreter/derive.c`** is the generator of derived class instances. For a
  `data`/`newtype` declaration or a tuple type, it builds the bindings of `==`, `compare`,
  the `Enum`, `Ix` and `Bounded` methods, `showsPrec` and `readsPrec` as interpreter
  syntax trees.
  - The syntax tree is the datatype `DeriveAst.Cell`. Each builder is a function that walks
    the pattern spine the way the C loops do.
  - Each builder is paired with a reference definition or an evaluator, and lemmas prove
    that what it builds means what the derived instance must mean.
  - The generator's mutable state is the class `Derive.Deriver`:
    - the cache of invented pattern variables (`diVars`, `diNum`);
    - the fresh-name counter behind `inventVar`;
    - the table of record constructors' selectors (`cfunSfuns`).
  - The entry points `deriveEq` … `deriveBounded` are methods of that class, proved against
    the builders.
  - `DeriveText` compares what derived `Show` prints with what derived `Read` parses, token by
    token. A record field counts as one token, its label; the precedence of the field's value is
    not compared (see Left out). Proving this exposed two disagreements between the two;
    see Findings. The generator itself builds the readers as written; the corrected readers
    are `DeriveRead.DeriveReadBinds` with `fixed` set.
- **`ghc/includes/Updates.h`** holds the update macros of the STG machine. They overwrite an
  evaluated closure with an indirection, wake the threads blocked on its black hole, push
  update frames linked through `Su`, and turn a CAF into a static indirection to a fresh black
  hole.
  - Each macro is a method of the class `Updates.Rts`, which holds the heap, the stack and
    the ticky flags. Pure functions describe the effect of each macro.
  - Lemmas prove what is overwritten and what is kept. They also prove that the frame chain
    stays well formed and last-in, first-out.
- **`ghc/rts/BlockAlloc.h`**: `Bdescr`, which maps an address to its block's descriptor. It
  is written with the same masks, shift and OR as the source, over naturals with bitwise
  operators. Lemmas reduce it to division and remainder, and prove the following:
  - the descriptor lies in the same megablock as the address;
  - it is aligned;
  - it is injective on blocks;
  - it never lies above the address;
  - the block index can be read back from it.

Files:
- `derive_ast.dfy`: the syntax tree.
- `derive_eq_ord.dfy`: `==` and `compare`.
- `derive_ix.dfy`: `Ix`.
- `derive_show.dfy`: `showsPrec`.
- `derive_read.dfy`: `readsPrec`.
- `derive_text.dfy`: showing then reading.
- `derive.dfy`: the generator's state and entry points.
- `updates.dfy`: the update macros.
- `block_alloc.dfy`: `Bdescr`.

## Model

| member | source | states |
|---|---|---|
| Derive.Deriver.constructor | ghc/interpreter/derive.c:946-1006 | installing the generator falls through to the reset: the variable cache and the selector table start empty |
| Derive.Deriver.Reset | ghc/interpreter/derive.c:1000-1006 | `RESET` empties the variable cache (`diVars`, `diNum`) and the selector table, and keeps the fresh-name counter |
| Derive.Deriver.InventVar | ghc/interpreter/derive.c:652-653 | `inventVar` returns a variable numbered above every earlier one and advances the counter; nothing else changes |
| Derive.Deriver.GetDiVars | ghc/interpreter/derive.c:98-104 | the cache grows to `max(diNum, n)` variables; the new ones are fresh, consed newest first onto the old list; a call with `n <= diNum` changes nothing; all cached variables stay distinct |
| Derive.Deriver.GrowCache | ghc/interpreter/derive.c:100-101 | one round of `getDiVars`' loop: a fresh variable is consed onto the cache, `diNum` and the counter go up by one, and the cache stays distinct |
| Derive.GrownCompose | ghc/interpreter/derive.c:98-104 | growing the cache to `k1` and then to `k2` is the same as growing it once to `max(k1, k2)`: the invented variables of both rounds form one contiguous run, newest first |
| Derive.Deriver.MakeDPats2 | ghc/interpreter/derive.c:119-138 | two patterns with head `h`, each applied to `n` cached variables; the second cache slice comes first; no variable is shared between them; the cache grows to `max(diNum, 2n)` variables, the new ones invented fresh and consed in front of the old list, with the counter advanced by as many |
| Derive.IsEnumType | ghc/interpreter/derive.c:142-154 | true exactly for a `data`/`newtype` whose constructors are all nullary |
| Derive.Deriver.DeriveEq | ghc/interpreter/derive.c:179-198 | one `==` equation per constructor, in declaration order, over fresh distinct patterns; then `_ == _ = False` when there are several constructors; a tuple gets a single equation on line 0. The cache grows to `max(diNum, 2 * (largest arity))` variables, the new ones invented fresh and consed in front of the old list, with the counter advanced by as many (`2n` for an `n`-tuple) |
| Derive.Deriver.EqConAlts | ghc/interpreter/derive.c:184-188 | the loop over the constructors: exactly one `==` equation per constructor, in declaration order, each over two patterns of that constructor with its arity and no shared variable; the cache grows to `max(diNum, 2 * (largest arity))` variables, the new ones invented fresh and consed in front of the old list, with the counter advanced by as many |
| Derive.Deriver.EqConStep | ghc/interpreter/derive.c:185-187 | one round of that loop: the `i`-th constructor's equation, and the cache grown from its state before the loop to `2 *` the largest arity among constructors `0..i` |
| Derive.Deriver.EqAltM | ghc/interpreter/derive.c:185-186 | `mkAltEq(line, makeDPats2(c, arity))` for one constructor: an `==` equation over two patterns of `c` with its arity and no shared variable; the cache grows to `max(diNum, 2 * arity)` variables, the new ones invented fresh and consed in front of the old list, with the counter advanced by as many |
| Derive.EqAltsMeaning | ghc/interpreter/derive.c:179-214 | each constructor equation of derived `==` holds iff every pair of corresponding fields is equal; the catch-all never holds |
| Derive.Deriver.DeriveOrd | ghc/interpreter/derive.c:221-260 | enumeration: one `compare` equation comparing constructor tags over the next two invented variables, or `EQ` for a single constructor, with the cache unchanged and the counter up by 2; otherwise one equation per constructor, the cache grown to `2 *` the largest arity, then, when there are several constructors, the tag comparison over the next two invented variables; tuple: one equation, the cache grown to `2n` |
| Derive.Deriver.OrdConAlts | ghc/interpreter/derive.c:239-243 | the loop over the constructors: exactly one `compare` equation per constructor, in declaration order, each over two patterns of that constructor with its arity and no shared variable; the cache grows to `max(diNum, 2 * (largest arity))` variables, the new ones invented fresh and consed in front of the old list, with the counter advanced by as many |
| Derive.Deriver.OrdConStep | ghc/interpreter/derive.c:240-242 | one round of that loop: the `i`-th constructor's equation, and the cache grown from its state before the loop to `2 *` the largest arity among constructors `0..i` |
| Derive.Deriver.OrdTycon | ghc/interpreter/derive.c:224-255 | the `data`/`newtype` part of `deriveOrd`: the enumeration equation when every constructor is nullary, otherwise the per-constructor equations and the tag comparison, with the cache and counter as for `DeriveOrd` |
| Derive.Deriver.OrdEnumAlt | ghc/interpreter/derive.c:224-236 | the enumeration case: two variables are invented; the equation compares their tags when there are several constructors and is `EQ` otherwise; the cache is unchanged and the counter goes up by 2 |
| Derive.Deriver.OrdTyconAlts | ghc/interpreter/derive.c:237-255 | the non-enumeration case: one equation per constructor, then, when there are several constructors, the tag comparison over the last two invented variables; the cache grows as in the loop and the tag comparison adds 2 to the counter |
| Derive.Deriver.OrdTagAltM | ghc/interpreter/derive.c:244-252 | the closing equation: `compare u w` by tags over the next two invented variables; the cache is unchanged and the counter goes up by 2 |
| Derive.Deriver.OrdAltM | ghc/interpreter/derive.c:240-241 | `mkAltOrd(line, makeDPats2(c, arity))` for one constructor: a `compare` equation over two patterns of `c` with its arity and no shared variable; the cache grows to `max(diNum, 2 * arity)` variables, the new ones invented fresh and consed in front of the old list, with the counter advanced by as many |
| Derive.OrdAltsMeaning | ghc/interpreter/derive.c:221-277 | each constructor equation of derived `compare` compares the fields lexicographically; the last equation compares `conToTag` of both arguments |
| Derive.Deriver.DeriveEnum | ghc/interpreter/derive.c:285-310 | two variables are invented before the check, so the counter goes up by 2 and the cache is unchanged; a type that is not an enumeration gives the `Enum` error on the declaration's line; otherwise the result is `toEnum`/`fromEnum` via tags, `enumFrom x` up to the last constructor, and `enumFromThen x y` towards the last constructor if `x <= y`, else towards the first |
| Derive.Deriver.DeriveIx | ghc/interpreter/derive.c:320-338 | enumeration: the tag bindings over four fresh variables, the cache unchanged and the counter up by 4; tuple, or a type with a sole constructor: the product bindings over `3n` cached variables, the cache grown to `max(diNum, 3n)` with fresh variables in front; several constructors with fields: the `Ix` error, with nothing changed |
| Derive.Deriver.IxEnumM | ghc/interpreter/derive.c:348-356 | `mkIxBindsEnum`: the tag bindings over the next four invented variables `b`, `c1`, `c2`, `ci`, in that order; the cache is unchanged and the counter goes up by 4 |
| Derive.Deriver.IxProductM | ghc/interpreter/derive.c:366-371 | `mkIxBinds`: the product bindings are built over the cache, which grows to `max(diNum, 3n)` variables, the new ones invented fresh and consed in front of the old list, with the counter advanced by as many |
| Derive.LastConstr | ghc/interpreter/derive.c:900-903 | the walk down the constructor list ends at the last constructor |
| Derive.DeriveBounded | ghc/interpreter/derive.c:897-919 | enumeration: `minBound`/`maxBound` are the first/last constructor; tuple or sole constructor: the product bounds; several constructors with fields: the `Bounded` error |
| Derive.MkBndBindsMeaning | ghc/interpreter/derive.c:921-934 | `minBound` (`maxBound`) of a product is its constructor applied to `n` copies of `minBound` (`maxBound`), on the given line |
| Derive.MkBndBinds | ghc/interpreter/derive.c:921-934 | the `minBound` and `maxBound` bindings of a product built by the loop; their meaning is `MkBndBindsMeaning` |
| Derive.Deriver.MkAltShowM | ghc/interpreter/derive.c:480-492 | `showsPrec d (h x1 .. xa)` over the first `a + 1` cached variables, all distinct; its right-hand side is `showsPrecRhs` of that pattern; the cache grows to `max(diNum, a + 1)` variables, the new ones invented fresh and consed in front of the old list, with the counter advanced by as many |
| Derive.Deriver.DeriveShow | ghc/interpreter/derive.c:464-478 | one `showsPrec` equation per constructor in declaration order, each of that constructor's arity, or the tuple's single equation on line 0. The cache grows to `max(diNum, 1 + (largest arity))` variables, the new ones invented fresh and consed in front of the old list, with the counter advanced by as many (`n + 1` for an `n`-tuple) |
| Derive.Deriver.ShowConAlts | ghc/interpreter/derive.c:469-472 | the loop over the constructors: one `showsPrec` equation per constructor, in declaration order, each of that constructor's arity; the cache grows to `max(diNum, 1 + (largest arity))` variables, the new ones invented fresh and consed in front of the old list, with the counter advanced by as many |
| Derive.Deriver.ShowConStep | ghc/interpreter/derive.c:470-471 | one round of that loop: the `i`-th constructor's equation, and the cache grown from its state before the loop to `1 +` the largest arity among constructors `0..i` |
| Derive.Deriver.DeriveRead | ghc/interpreter/derive.c:648-675 | `readsPrec d r` joins the constructors' readers with `++`, the last one innermost, threading the counter; a tuple's reader is applied to `r`. Each reader is `mkReadCon`'s as written, so the result and the final counter equal `DeriveRead.DeriveReadBinds` with `fixed` false, whose alternatives `DeriveReadMeaning` and `DeriveReadAltMeaning` describe |
| Derive.Deriver.ReadConLoop | ghc/interpreter/derive.c:660-662 | one `mkReadCon` reader per constructor, in declaration order, each numbering its variables after the previous one, leaving the counter where the last stopped; the variable cache and selector table are unchanged |
| Derive.Deriver.ReadConStep | ghc/interpreter/derive.c:661 | one `mkReadCon(c, d, r)` call: the as-written reader, with the counter left where that reader stops; the cache and selector table are unchanged |
| Derive.JoinReaders | ghc/interpreter/derive.c:663-667 | joining the readers from the last one back gives `r1 ++ (r2 ++ (... ++ rn))`, the last reader innermost |
| DeriveEqOrd.DPats2 | ghc/interpreter/derive.c:119-138 | the pattern built from the second slice of `n` cache variables comes first, the one from the first slice second; both have head `h` |
| DeriveEqOrd.MkAltEq | ghc/interpreter/derive.c:200-214 | the `==` equation `mkAltEq` builds from two patterns; `MkAltEqIsSpec` and `MkAltEqMeaning` state what its right-hand side is and when it holds |
| DeriveEqOrd.MkAltEqIsSpec | ghc/interpreter/derive.c:200-214 | the `mkAltEq` loop builds exactly the reference conjunction of field tests, in field order (`True` for no fields) |
| DeriveEqOrd.MkAltEqMeaning | ghc/interpreter/derive.c:200-214 | the equation's right-hand side holds iff every pair of corresponding fields is equal |
| DeriveEqOrd.MkAltOrd | ghc/interpreter/derive.c:262-277 | the `compare` equation `mkAltOrd` builds from two patterns; `MkAltOrdIsSpec` and `MkAltOrdMeaning` state what its right-hand side is and what it evaluates to |
| DeriveEqOrd.MkAltOrdIsSpec | ghc/interpreter/derive.c:262-277 | the `mkAltOrd` loop builds exactly the reference chain of `primCompAux` comparisons, in field order (`EQ` for no fields) |
| DeriveEqOrd.MkAltOrdMeaning | ghc/interpreter/derive.c:262-277 | the equation's right-hand side evaluates to the lexicographic comparison of the fields |
| DeriveEqOrd.Lex | ghc/interpreter/derive.c:262-277 | lexicographic order: `EQ` iff all fields compare `EQ`; otherwise the result of the first field that differs |
| DeriveEqOrd.EqCatchAll | ghc/interpreter/derive.c:188-191 | `_ == _ = False`: two wildcards and a right-hand side that never holds |
| DeriveEqOrd.CompareByTag | ghc/interpreter/derive.c:244-253 | `compare u w` evaluates to the comparison of the constructor tags of `u` and `w` |
| DeriveIx.ProdRangeShape | ghc/interpreter/derive.c:392-411 | `range` of a product is a comprehension with one generator `ik <- range (lk, uk)` per field, in field order |
| DeriveIx.ProdRange | ghc/interpreter/derive.c:392-411 | the `range` binding of a product built by the loop; its shape is `ProdRangeShape` |
| DeriveIx.ProdIndexMeaning | ghc/interpreter/derive.c:413-434 | `index` of a product is the mixed-radix number with the fields' indices as digits and their range sizes as bases, the last field least significant |
| DeriveIx.MixedBound | ghc/interpreter/derive.c:413-434 | with every field in range, the product index lies in `[0, product of range sizes)` |
| DeriveIx.MixedInjective | ghc/interpreter/derive.c:413-434 | distinct in-range index tuples get distinct product indices |
| DeriveIx.ProdIndex | ghc/interpreter/derive.c:413-434 | the `index` binding of a product built by the loop; its value is `ProdIndexMeaning` |
| DeriveIx.ProdInRangeMeaning | ghc/interpreter/derive.c:436-452 | `inRange` of a product holds iff every field is in its own range |
| DeriveIx.ProdInRange | ghc/interpreter/derive.c:436-452 | the `inRange` binding of a product built by the loop; when it holds is `ProdInRangeMeaning` |
| DeriveIx.MkIxBinds | ghc/interpreter/derive.c:366-390 | the `range`, `index` and `inRange` bindings of a product over the `3n` cache variables `ls`, `us`, `is` |
| DeriveIx.EnumIxMeaning | ghc/interpreter/derive.c:348-364 | for an enumeration, `inRange` compares tags; `index` is guarded by `inRange` and gives the tag distance from the lower bound, within the range |
| DeriveIx.MkIxBindsEnum | ghc/interpreter/derive.c:348-364 | the `range`, `index` and `inRange` bindings of an enumeration by tags; their meaning is `EnumIxMeaning` |
| DeriveShow.LookupSels | ghc/interpreter/derive.c:527-529 | a constructor's selectors are found iff it has an entry in the table; the first entry wins |
| DeriveShow.LeftPrec | ghc/interpreter/derive.c:573 | the left operand's precedence is the constructor's own `p` iff it is left-associative, and `p + 1` otherwise; the reader uses the same value (derive.c:763) |
| DeriveShow.RightPrec | ghc/interpreter/derive.c:574 | the right operand's precedence is the constructor's own `p` iff it is right-associative, and `p + 1` otherwise; the reader uses the same value (derive.c:764) |
| DeriveShow.MkAltShow | ghc/interpreter/derive.c:480-492 | the equation's patterns are `d = vs[0]` and `h` applied to `vs[1..a+1]` |
| DeriveShow.TupleMeaning | ghc/interpreter/derive.c:510-525 | a tuple is printed as `(`, its components at precedence 0 separated by `,`, then `)`, with no parentheses around it |
| DeriveShow.RecordMeaning | ghc/interpreter/derive.c:527-556 | a record is printed as its name, `{`, `label=value` fields separated by `,`, then `}`, with no parentheses around it |
| DeriveShow.InfixMeaning | ghc/interpreter/derive.c:562-586 | a binary constructor with a fixity is printed as left operand, name (backquoted if alphanumeric), right operand at `lp`/`rp`; parenthesised from precedence `p + 1` |
| DeriveShow.PrefixMeaning | ghc/interpreter/derive.c:587-602 | a prefix constructor is printed as its name and its fields at precedence 10 separated by spaces; parenthesised from precedence 10 |
| DeriveShow.ShowsPrecRhs | ghc/interpreter/derive.c:505-605 | `showsPrecRhs`, the right-hand side chosen by the constructor's kind; what it prints is `ShowsPrecRhsMeaning` |
| DeriveShow.ShowsPrecRhsMeaning | ghc/interpreter/derive.c:505-605 | `showsPrecRhs` prints exactly the reference rendering of the constructor chosen by kind (tuple, record, nullary, infix, prefix) |
| DeriveRead.ReadPrefixMeaning | ghc/interpreter/derive.c:722-744 | the prefix reader lexes the name, then reads each field at precedence 10, threading the input; it builds the constructor applied to the values read and binds only fresh variables |
| DeriveRead.MkReadPrefix | ghc/interpreter/derive.c:722-744 | the prefix reader built by the loop; what it reads is `ReadPrefixMeaning` |
| DeriveRead.ReadInfixMeaning | ghc/interpreter/derive.c:758-780 | the infix reader reads the left operand at `lp`, lexes the name, and reads the right operand at `rp`; it builds the constructor applied to both |
| DeriveRead.MkReadInfix | ghc/interpreter/derive.c:758-780 | the infix reader as written; what it reads is `ReadInfixMeaning` |
| DeriveRead.ReadTupleMeaning | ghc/interpreter/derive.c:791-820 | the tuple reader lexes `(`, then the components at precedence 0 separated by `,`, then `)` |
| DeriveRead.MkReadTuple | ghc/interpreter/derive.c:791-820 | the tuple reader built by the loop; what it reads is `ReadTupleMeaning` |
| DeriveRead.ReadRecordMeaning | ghc/interpreter/derive.c:843-875 | the record reader lexes the name and `{`, then each field by its label separated by `,`, then `}` |
| DeriveRead.MkReadRecord | ghc/interpreter/derive.c:843-875 | the record reader built by the loop; what it reads is `ReadRecordMeaning` |
| DeriveRead.ReadConMeaning | ghc/interpreter/derive.c:683-706 | as written: `readParen (d > p) body r` with the reader chosen by kind; parentheses are demanded iff arity > 0 and `d > p`, with `p = 9` for records and prefix constructors |
| DeriveRead.MkReadCon | ghc/interpreter/derive.c:683-706 | `mkReadCon` as written advances the fresh-name counter by at least 2; what it reads is `ReadConMeaning` |
| DeriveRead.ReadInfixQuotedMeaning | ghc/interpreter/derive.c:758-780 | corrected reader for an alphanumeric infix constructor: left operand, a backquote, the name, a backquote, right operand |
| DeriveRead.ReadConFixedMeaning | ghc/interpreter/derive.c:683-706 | corrected reader: the body reads the tokens `showsPrec` prints; parentheses are demanded iff arity > 0, the constructor is not a record, and `d > p` |
| DeriveRead.ReadConExpsMeaning | ghc/interpreter/derive.c:660-662 | the constructors' readers (as written, or corrected when `fixed`) in declaration order, each starting its fresh variables where the previous one stopped |
| DeriveRead.AppendChainAlternatives | ghc/interpreter/derive.c:663-667 | the `++` chain built by the reverse-concatenate loop lists the readers in declaration order |
| DeriveRead.DeriveReadMeaning | ghc/interpreter/derive.c:648-675 | `readsPrec d r` is one equation whose alternatives are the constructors' readers in order: `mkReadCon`'s as written, or the corrected ones when `fixed`. Their fresh variables are disjoint, and each reader advances the counter by at least 2 |
| DeriveRead.DeriveReadAltMeaning | ghc/interpreter/derive.c:648-675 | as written, the `i`-th alternative is `readParen cond body r`: `body` reads the `i`-th constructor's `mkReadCon` tokens (the bare name for an infix one) over its own variables, and `cond` demands parentheses iff the constructor has fields and `d` exceeds its precedence, 9 for a record |
| DeriveRead.DeriveReadFixedAltMeaning | ghc/interpreter/derive.c:648-675 | with the corrected readers, the `i`-th alternative reads the tokens `showsPrec` prints for the `i`-th constructor, and demands parentheses iff the constructor has fields, is not a record, and `d` exceeds its precedence |
| DeriveRead.DeriveReadTupleMeaning | ghc/interpreter/derive.c:666-667 | for a tuple, `readsPrec d r` applies the tuple reader to `r` |
| DeriveRead.DeriveReadBinds | ghc/interpreter/derive.c:648-675 | the `readsPrec` binding with the counter it leaves, as written or corrected; its meaning is `DeriveReadMeaning`, `DeriveReadAltMeaning`, `DeriveReadFixedAltMeaning` and `DeriveReadTupleMeaning` |
| DeriveText.ShowReadTokensFixed | ghc/interpreter/derive.c:505-605 | for every constructor, the tokens `showsPrec` prints are the tokens the corrected reader reads, a record field being its label only |
| DeriveText.ShowReadParensFixed | ghc/interpreter/derive.c:683-706 | for every precedence, the corrected reader demands parentheses iff `showsPrec` prints them |
| DeriveText.ShowReadTokensAsWritten | ghc/interpreter/derive.c:758-780 | the reader as written reads what is printed iff the constructor is not an alphanumeric infix one |
| DeriveText.ShowReadParensAsWritten | ghc/interpreter/derive.c:693-705 | the reader as written demands parentheses only where they are printed iff the constructor is not a record with fields |
| DeriveText.RecordFieldNotReadBack | ghc/interpreter/derive.c:693-695 | a record constructor at precedence 10 is printed without parentheses but the reader as written demands them |
| DeriveText.BackquotedInfixNotReadBack | ghc/interpreter/derive.c:775 | ``1 `Plus` 2`` is printed with backquotes but the reader as written lexes the bare name |
| DeriveText.ShowThenRead | ghc/interpreter/derive.c:480-605 | for every pattern `showsPrec` is derived for, the corrected reader reads exactly the printed tokens (a record field as its label) and demands parentheses exactly when they are printed |
| Updates.IndInfoToUse | ghc/includes/Updates.h:16-21 | the indirection is `IND_PERM` iff ticky is on and update entries are counted, else `IND` |
| Updates.Awaken | ghc/includes/Updates.h:58-64 | the blocking queue is woken iff the closure is a black hole whose queue is not `END_TSO_QUEUE` |
| Updates.Overwrite | ghc/includes/Updates.h:37-38 | `SET_INFO` and a write of payload word 0; the rest of the payload is kept |
| Updates.UpdIndHeap | ghc/includes/Updates.h:34-38 | the heap after `UPD_IND`; what it overwrites and keeps is `UpdIndEffect` |
| Updates.UpdIndEffect | ghc/includes/Updates.h:34-38 | `UPD_IND` leaves an indirection of the selected kind to the new value, keeps the rest of the payload, and touches no other closure |
| Updates.WakeBeforeOverwrite | ghc/includes/Updates.h:34-38 | the overwritten closure wakes nobody, so waking must come first: a black hole's nonempty queue is woken only from the old closure |
| Updates.CafEffect | ghc/includes/Updates.h:117-124 | the CAF becomes a static indirection to the black hole; the black hole gets an empty queue and keeps its info; nothing else changes |
| Updates.CafHeap | ghc/includes/Updates.h:117-124 | the heap after `UPD_CAF`; what it overwrites and keeps is `CafEffect` |
| Updates.PushedFrame | ghc/includes/Updates.h:79-89 | the frame's three words are the update-frame info, the link and the updatee; every other stack word is kept |
| Updates.PushKeepsChain | ghc/includes/Updates.h:79-89 | after a push the frame chain starts at the new frame and continues with the old chain; the first updatee is the target |
| Updates.PushTwiceLifo | ghc/includes/Updates.h:79-89 | two pushes come back most recent first |
| Updates.ChainOk | ghc/includes/Updates.h:79-89 | the `Su` chain: starting at `Su`, each frame lies on the stack, holds the update-frame info and links to the next frame above it; the last link is the stack top. `PushKeepsChain` shows a push keeps the chain well formed |
| Updates.Rts.constructor | ghc/includes/Updates.h:79-89 | an empty stack with `Sp` and `Su` at its top and no frames |
| Updates.Rts.AwakenBQ | ghc/includes/Updates.h:58-64 | the event log grows by the wake-up `Awaken` prescribes |
| Updates.Rts.UpdInd | ghc/includes/Updates.h:34-38 | wakes the old closure's queue, then leaves the heap as `UpdIndEffect` describes |
| Updates.Rts.UpdInPlace1 | ghc/includes/Updates.h:46-50 | wakes the old closure's queue, then sets the info table and payload word 0 of that closure only |
| Updates.Rts.PushUpdFrame | ghc/includes/Updates.h:79-89 | writes the frame one frame size below `Sp + off`, links it to the old `Su` and makes it `Su`; the updatee chain gains the target at its front |
| Updates.Rts.UpdCaf | ghc/includes/Updates.h:117-124 | rewrites the CAF and the black hole as `CafEffect` describes and registers the CAF |
| BlockAlloc.Bdescr | ghc/rts/BlockAlloc.h:27-33 | `Bdescr`, written with the source's masks, shift and OR; what it computes is `BdescrDecomposition` and the lemmas below |
| BlockAlloc.BdescrDecomposition | ghc/rts/BlockAlloc.h:27-33 | `Bdescr(p)` is the megablock base plus the block index times the descriptor size; the index is below the number of blocks per megablock |
| BlockAlloc.SameBlockSameDescriptor | ghc/rts/BlockAlloc.h:27-33 | addresses in the same block have the same descriptor |
| BlockAlloc.DescriptorInSameMegablock | ghc/rts/BlockAlloc.h:27-33 | the descriptor lies in the address's megablock, inside the leading descriptor region |
| BlockAlloc.DescriptorAligned | ghc/rts/BlockAlloc.h:27-33 | the descriptor's low `BDESCR_SHIFT` bits are zero |
| BlockAlloc.DescriptorInjective | ghc/rts/BlockAlloc.h:27-33 | within a megablock, two addresses share a descriptor iff they are in the same block |
| BlockAlloc.BdescrAtMost | ghc/rts/BlockAlloc.h:27-33 | the descriptor never lies above the address, so the word arithmetic cannot wrap |
| BlockAlloc.BlockIndexFromDescriptor | ghc/rts/BlockAlloc.h:27-33 | the block index can be recovered from the descriptor address |

## Left out

- The allocator's other entry points are prototypes only: `initBlockAllocator`, `allocGroup`, `allocBlock`, `freeGroup`, `freeChain` and `checkFreeListSanity` (BlockAlloc.h:13-38). Their bodies are not part of this model.
- Block addresses are naturals, not 64-bit words; `BlockAlloc.BdescrAtMost` shows no wrap-around can occur.
- Ticky counters (`TICK_UPDATED_SET_UPDATED`, `TICK_UPDF_PUSHED`) have no effect on the modelled state.
- Updates.PushedFrame and Updates.Rts.PushUpdFrame: model the build without `PROFILING`. With profiling, `PUSH_STD_CCCS` (Updates.h:72, used at :87) stores the cost-centre stack in the frame as well, so the frame is larger than `FrameSize` (3 words).
- Updates.IndInfoToUse: Updates.h:19 lacks its line-continuation backslash, so the ticky definition of `Ind_info_TO_USE` ends with an unbalanced parenthesis and line 20 is a stray `)`. The model follows the evident intent: `IND_PERM` when update entries are counted, else `IND`.
- `awaken_blocked_queue` and `newCAF` are foreign calls. They are recorded in a ghost event log (`Updates.Event`) instead of being run.
- Updates.ChainOk: the `Su` chain is modelled as update frames only, ending at the stack's top. In the runtime, `Su` also links seq, catch and stop frames, which this model does not have.
- The update-related prototypes at the end of Updates.h (`Upd_frame_entry`, `PAP_entry`, `stg_update_PAP` and others) are declarations only.
- `deriveControl`'s `INSTALL` interns Prelude names (`mkQVar`), and `MARK` marks roots for the garbage collector. The model uses fixed Prelude names (`DeriveAst.Var*`) and has no collector.
- `implementConToTag` and `implementTagToCon` are defined outside derive.c. Their generated functions appear as `ConToTag(t.name)` and `TagToCon(t.name)`.
- `syntaxOf`/`defaultSyntax` are not part of this model. A constructor's fixity and whether its name is alphanumeric are fields of `DeriveAst.Constr`.
- `ERRMSG … EEND` aborts by a long jump. It is modelled as an `Err(line, message)` result.
- The `DERIVE_*` compile-time switches are all taken as on.
- `hasCfun`/`cfunOf` walk a list whose constructor numbers are decided elsewhere. The model keeps the constructors as a sequence, and "`cfunOf(hd(defn)) != 0`" is "more than one constructor".
- The `cons` then `rev` accumulation of equations is modelled as appending in order.
- `primShowField` and `primReadField` are Prelude functions and not part of this model. A field is printed and read by its label only, and the `=` they handle is not modelled.
- DeriveText.ShowThenRead and DeriveText.ShowReadTokensFixed: a record field is the single token `Sel(label)` on both sides, so agreement holds only up to the field value's precedence. That precedence is decided by `primShowField` and `primReadField`. The comments at derive.c:535-536 and derive.c:838-841 describe showing the value with `shows` (precedence 0) and reading it with `readsPrec 10`. If the Prelude does that, `C{x=Just 1}` would not read back.
- `lex` is not part of this model. The readers are described by the tokens they ask `lex` for.
- DeriveText.ShowThenRead, DeriveText.ShowReadTokensFixed and DeriveText.ShowReadTokensAsWritten: require a record constructor to have at least one field. An empty record `C {}` prints as `C{}`, while `mkReadRecord` with no fields lexes `C` and then `}`. Whether `cfunSfuns` ever holds a constructor without selectors is decided by the static analysis, which is not part of this model.
- Derive.Deriver.DeriveIx: requires a type constructor to come from `data` or `newtype`. For any other kind with a single nullary constructor, the source's product branch builds `mkIxBinds` with no fields. `prodIndex` then takes `hd` of an empty list of index terms (derive.c:428), and `prodInRange` takes `arg` of the bare constructor (derive.c:442).
- Derive.Deriver.DeriveShow and Derive.Deriver.DeriveIx: require a tuple to have at least one component, because the source takes `arg` of the bare tuple constructor otherwise.

## Findings

| source | as written | input that shows it | evidently intended | confidence | as-written member | corrected member |
|---|---|---|---|---|---|---|
| ghc/interpreter/derive.c:693-705 | a record constructor is read with `readParen (d > 9)`, while `showsPrec` prints records without parentheses at every precedence | `data T = C {x :: Int} \| P T`: `show (P (C{x=1}))` is `P C{x=1}`, which the derived reader rejects | records are read without demanding parentheses (`readParen False`) | not executed | DeriveText.RecordFieldNotReadBack | DeriveText.ShowReadParensFixed |
| ghc/interpreter/derive.c:775 | an infix constructor with an alphanumeric name is read by lexing the bare name, while `showsPrec` prints it between backquotes | ``infixl 6 `Plus`; data T = Int `Plus` Int``: ``show (1 `Plus` 2)`` is ``1 `Plus` 2``, which the derived reader rejects | the reader lexes a backquote, the name, then a backquote | not executed | DeriveText.BackquotedInfixNotReadBack | DeriveText.ShowReadTokensFixed |
