/**
 * The closure-update protocol of the STG machine's runtime: overwriting an
 * evaluated thunk with an indirection (or in place with a one-argument info
 * table), waking the threads that blocked on it while it was a black hole,
 * pushing update frames on the stack and linking them through `Su`, and
 * turning a constant applicative form (CAF) into a static indirection to a
 * fresh black hole.
 *
 * The heap is a map from references to closures; a closure is an info table
 * and a payload of words. A black hole keeps its blocking queue, and an
 * indirection its indirectee, in payload word 0. The stack is an array of
 * words indexed upwards; `Su` is the index of the most recent update frame,
 * or the stack's length when there is none. `awaken_blocked_queue` and
 * `newCAF` are recorded in a ghost event log instead of being run.
 */
module Updates {

  type Ref = nat

  /** The info tables the update macros test for or install. */
  datatype InfoTable =
    | BlackHole
    | Ind
    | IndPerm
    | IndStatic
    | UpdFrame
    | Other(name: string)

  /** A heap or stack word. */
  datatype Word =
    | Ptr(target: Ref)
    | EndTsoQueue
    | InfoPtr(info: InfoTable)
    | StackPtr(index: int)
    | Lit(value: int)

  datatype Closure = Closure(info: InfoTable, payload: seq<Word>)

  /** The calls into the scheduler and the storage manager that the macros make. */
  datatype Event = Awakened(queue: Word) | CafRegistered(caf: Ref)

  /** Words in an update frame: the info pointer, `link` and `updatee`. */
  const FrameSize: nat := 3

  /** A black hole or an indirection has payload word 0 to hold its queue or indirectee. */
  predicate WellFormed(c: Closure)
  {
    c.info in {BlackHole, Ind, IndPerm, IndStatic} ==> |c.payload| >= 1
  }

  predicate HeapOk(heap: map<Ref, Closure>)
  {
    forall r :: r in heap ==> WellFormed(heap[r])
  }

  /** `Ind_info_TO_USE`: permanent indirections only when ticky counts update entries. */
  function IndInfoToUse(tickyTicky: bool, doUpdEntryCounts: bool): (r: InfoTable)
    ensures r == Ind || r == IndPerm
    ensures r == IndPerm <==> tickyTicky && doUpdEntryCounts
  {
    if !tickyTicky then Ind
    else if doUpdEntryCounts then IndPerm else Ind
  }

  /**
   * `AWAKEN_BQ`: the wake-up the macro performs on closure `c`, as a list of at
   * most one event.
   */
  function Awaken(c: Closure): (r: seq<Event>)
    requires WellFormed(c)
    ensures |r| <= 1
    ensures r != [] <==> c.info == BlackHole && c.payload[0] != EndTsoQueue
    ensures r != [] ==> r[0] == Awakened(c.payload[0])
  {
    if c.info == BlackHole then
      var bq := c.payload[0];
      if bq != EndTsoQueue then [Awakened(bq)] else []
    else []
  }

  /** `SET_INFO` followed by a write of payload word 0. */
  function Overwrite(c: Closure, info: InfoTable, w: Word): (r: Closure)
    requires |c.payload| >= 1
    ensures r.info == info
    ensures |r.payload| == |c.payload| && r.payload[0] == w
    ensures forall i :: 1 <= i < |r.payload| ==> r.payload[i] == c.payload[i]
    ensures WellFormed(r)
  {
    Closure(info, [w] + c.payload[1..])
  }

  /** The heap after `UPD_IND(c, h)` installs the indirection `info`. */
  function UpdIndHeap(heap: map<Ref, Closure>, c: Ref, info: InfoTable, h: Ref): map<Ref, Closure>
    requires c in heap && |heap[c].payload| >= 1
  {
    heap[c := Overwrite(heap[c], info, Ptr(h))]
  }

  /** The heap after `UPD_CAF(caf, bh)`: the two writes in the order the macro makes them. */
  function CafHeap(heap: map<Ref, Closure>, caf: Ref, bh: Ref): map<Ref, Closure>
    requires caf in heap && |heap[caf].payload| >= 1
    requires bh in heap && |heap[bh].payload| >= 1
  {
    var h1 := heap[caf := Overwrite(heap[caf], IndStatic, Ptr(bh))];
    h1[bh := Overwrite(h1[bh], h1[bh].info, EndTsoQueue)]
  }

  /**
   * `UPD_IND` leaves an indirection to `h` in `c`, of the kind `Ind_info_TO_USE`
   * selects, keeps the rest of the payload, and touches no other closure.
   */
  lemma UpdIndEffect(heap: map<Ref, Closure>, c: Ref, h: Ref, tickyTicky: bool, doUpdEntryCounts: bool)
    requires HeapOk(heap) && c in heap && |heap[c].payload| >= 1
    ensures var heap' := UpdIndHeap(heap, c, IndInfoToUse(tickyTicky, doUpdEntryCounts), h);
      && HeapOk(heap')
      && heap'.Keys == heap.Keys
      && (heap'[c].info == IndPerm <==> tickyTicky && doUpdEntryCounts)
      && (heap'[c].info == Ind <==> !(tickyTicky && doUpdEntryCounts))
      && heap'[c].payload[0] == Ptr(h)
      && heap'[c].payload[1..] == heap[c].payload[1..]
      && forall r :: r in heap && r != c ==> heap'[r] == heap[r]
  {
    var heap' := UpdIndHeap(heap, c, IndInfoToUse(tickyTicky, doUpdEntryCounts), h);
    assert heap'[c].payload[1..] == heap[c].payload[1..];
  }

  /**
   * The wake-up must come before the info pointer is overwritten: the closure
   * the update leaves behind wakes nobody, so a black hole's queue would be lost
   * if the order were reversed, and a second update of the same closure cannot
   * wake the queue again.
   */
  lemma WakeBeforeOverwrite(c: Closure, info: InfoTable, w: Word)
    requires WellFormed(c) && |c.payload| >= 1 && info != BlackHole
    ensures Awaken(Overwrite(c, info, w)) == []
    ensures c.info == BlackHole && c.payload[0] != EndTsoQueue ==>
      Awaken(c) == [Awakened(c.payload[0])] != Awaken(Overwrite(c, info, w))
  {
  }

  /**
   * `UPD_CAF(caf, bh)` with a black hole distinct from the CAF: the CAF becomes
   * a static indirection to `bh`, `bh` keeps its info table and gets the empty
   * blocking queue, and no other closure changes.
   */
  lemma CafEffect(heap: map<Ref, Closure>, caf: Ref, bh: Ref)
    requires HeapOk(heap) && caf != bh
    requires caf in heap && |heap[caf].payload| >= 1
    requires bh in heap && |heap[bh].payload| >= 1
    ensures var heap' := CafHeap(heap, caf, bh);
      && HeapOk(heap')
      && heap'.Keys == heap.Keys
      && heap'[caf].info == IndStatic && heap'[caf].payload[0] == Ptr(bh)
      && heap'[bh].info == heap[bh].info && heap'[bh].payload[0] == EndTsoQueue
      && Awaken(heap'[bh]) == []
      && forall r :: r in heap && r != caf && r != bh ==> heap'[r] == heap[r]
  {
  }

  /**
   * The update-frame chain starting at `su`: `fs` lists the frames from the
   * most recent one down, each frame's `link` word holds the index of the next
   * one (or the stack's length after the last), and frames lie above one another
   * without overlapping.
   */
  predicate ChainOk(s: seq<Word>, su: int, fs: seq<int>)
    decreases |fs|
  {
    if fs == [] then su == |s|
    else
      var f := fs[0];
      && su == f && 0 <= f && f + FrameSize <= |s|
      && s[f] == InfoPtr(UpdFrame)
      && s[f + 1].StackPtr?
      && f + FrameSize <= s[f + 1].index
      && ChainOk(s, s[f + 1].index, fs[1..])
  }

  /** The `updatee` fields along the chain, most recent frame first. */
  function Updatees(s: seq<Word>, su: int, fs: seq<int>): (r: seq<Word>)
    requires ChainOk(s, su, fs)
    decreases |fs|
    ensures |r| == |fs|
  {
    if fs == [] then [] else [s[fs[0] + 2]] + Updatees(s, s[fs[0] + 1].index, fs[1..])
  }

  /** The stack after `PUSH_UPD_FRAME` writes a frame at index `f` whose link is `link`. */
  function PushedFrame(s: seq<Word>, f: int, link: int, target: Ref): (r: seq<Word>)
    requires 0 <= f && f + FrameSize <= |s|
    ensures |r| == |s|
    ensures r[f] == InfoPtr(UpdFrame) && r[f + 1] == StackPtr(link) && r[f + 2] == Ptr(target)
    ensures forall i :: 0 <= i < |s| && (i < f || f + FrameSize <= i) ==> r[i] == s[i]
  {
    s[f := InfoPtr(UpdFrame)][f + 1 := StackPtr(link)][f + 2 := Ptr(target)]
  }

  /** Writes below index `lo` leave a chain that starts at or above `lo` as it was. */
  lemma {:induction false} ChainUnaffected(s: seq<Word>, s': seq<Word>, su: int, fs: seq<int>, lo: int)
    requires ChainOk(s, su, fs) && 0 <= lo <= su
    requires |s'| == |s|
    requires forall i :: lo <= i < |s| ==> s'[i] == s[i]
    ensures ChainOk(s', su, fs)
    ensures Updatees(s', su, fs) == Updatees(s, su, fs)
    decreases |fs|
  {
    if fs != [] {
      ChainUnaffected(s, s', s[fs[0] + 1].index, fs[1..], lo);
    }
  }

  /**
   * Pushing a frame below the current chain yields a chain that starts at the
   * new frame, continues with the old one, and whose first updatee is the target.
   */
  lemma PushKeepsChain(s: seq<Word>, su: int, fs: seq<int>, f: int, target: Ref)
    requires ChainOk(s, su, fs)
    requires 0 <= f && f + FrameSize <= su
    ensures ChainOk(PushedFrame(s, f, su, target), f, [f] + fs)
    ensures Updatees(PushedFrame(s, f, su, target), f, [f] + fs) == [Ptr(target)] + Updatees(s, su, fs)
  {
    var s' := PushedFrame(s, f, su, target);
    ChainUnaffected(s, s', su, fs, f + FrameSize);
    assert ([f] + fs)[1..] == fs;
  }

  /** Two pushes come back most recent first: the chain is last in, first out. */
  lemma PushTwiceLifo(s: seq<Word>, su: int, fs: seq<int>, f1: int, t1: Ref, f2: int, t2: Ref)
    requires ChainOk(s, su, fs)
    requires 0 <= f1 && f1 + FrameSize <= su
    requires 0 <= f2 && f2 + FrameSize <= f1
    ensures var s2 := PushedFrame(PushedFrame(s, f1, su, t1), f2, f1, t2);
      && ChainOk(s2, f2, [f2, f1] + fs)
      && Updatees(s2, f2, [f2, f1] + fs) == [Ptr(t2), Ptr(t1)] + Updatees(s, su, fs)
  {
    var s1 := PushedFrame(s, f1, su, t1);
    PushKeepsChain(s, su, fs, f1, t1);
    PushKeepsChain(s1, f1, [f1] + fs, f2, t2);
    assert [f2] + ([f1] + fs) == [f2, f1] + fs;
  }

  /**
   * The runtime state the macros work on: the heap, the stack with `Sp` and
   * `Su`, the two ticky flags, and the log of the calls made.
   */
  class Rts {
    var heap: map<Ref, Closure>
    const stack: array<Word>
    var sp: int
    var su: int
    const tickyTicky: bool
    const doUpdEntryCounts: bool
    ghost var events: seq<Event>
    ghost var frames: seq<int>

    ghost predicate Valid()
      reads this, stack
    {
      HeapOk(heap) && ChainOk(stack[..], su, frames)
    }

    /** The updatees along the current frame chain, most recent first. */
    ghost function UpdateeChain(): seq<Word>
      reads this, stack
      requires Valid()
    {
      Updatees(stack[..], su, frames)
    }

    constructor (size: nat, heap0: map<Ref, Closure>, ticky: bool, counts: bool)
      requires HeapOk(heap0)
      ensures Valid() && fresh(stack)
      ensures stack.Length == size && sp == size && su == size
      ensures heap == heap0 && events == [] && frames == []
      ensures tickyTicky == ticky && doUpdEntryCounts == counts
    {
      heap := heap0;
      stack := new Word[size](_ => Lit(0));
      sp := size;
      su := size;
      tickyTicky := ticky;
      doUpdEntryCounts := counts;
      events := [];
      frames := [];
    }

    /** `AWAKEN_BQ(c)`. */
    method AwakenBQ(c: Ref)
      requires Valid() && c in heap
      modifies this`events
      ensures Valid()
      ensures events == old(events) + Awaken(heap[c])
    {
      if heap[c].info == BlackHole {
        var bq := heap[c].payload[0];
        if bq != EndTsoQueue {
          events := events + [Awakened(bq)];
        }
      }
    }

    /** `UPD_IND(c, h)`: wake the queue, then overwrite `c` with an indirection to `h`. */
    method UpdInd(c: Ref, h: Ref)
      requires Valid() && c in heap && |heap[c].payload| >= 1
      modifies this`heap, this`events
      ensures Valid()
      ensures events == old(events) + Awaken(old(heap[c]))
      ensures heap == UpdIndHeap(old(heap), c, IndInfoToUse(tickyTicky, doUpdEntryCounts), h)
    {
      AwakenBQ(c);
      var cl := heap[c];
      cl := Closure(IndInfoToUse(tickyTicky, doUpdEntryCounts), cl.payload);
      cl := Closure(cl.info, cl.payload[0 := Ptr(h)]);
      assert cl == Overwrite(heap[c], IndInfoToUse(tickyTicky, doUpdEntryCounts), Ptr(h));
      heap := heap[c := cl];
    }

    /** `UPD_INPLACE1(c, info, c0)`: wake the queue, then set the info table and payload word 0. */
    method UpdInPlace1(c: Ref, info: InfoTable, c0: Word)
      requires Valid() && c in heap && |heap[c].payload| >= 1
      modifies this`heap, this`events
      ensures Valid()
      ensures events == old(events) + Awaken(old(heap[c]))
      ensures heap == old(heap)[c := Overwrite(old(heap[c]), info, c0)]
    {
      AwakenBQ(c);
      var cl := heap[c];
      cl := Closure(info, cl.payload);
      cl := Closure(cl.info, cl.payload[0 := c0]);
      assert cl == Overwrite(heap[c], info, c0);
      heap := heap[c := cl];
    }

    /**
     * `PUSH_UPD_FRAME(target, off)`: write a frame one frame size below
     * `Sp + off`, link it to the old `Su` and make it the new `Su`.
     */
    method PushUpdFrame(target: Ref, off: int)
      requires Valid()
      requires 0 <= sp + off - FrameSize && sp + off <= su
      modifies stack, this`su, this`frames
      ensures Valid()
      ensures sp == old(sp) && su == old(sp) + off - FrameSize
      ensures stack[..] == PushedFrame(old(stack[..]), su, old(su), target)
      ensures frames == [su] + old(frames)
      ensures UpdateeChain() == [Ptr(target)] + old(UpdateeChain())
    {
      var f := sp + off - FrameSize;
      ghost var s0 := stack[..];
      stack[f] := InfoPtr(UpdFrame);
      stack[f + 1] := StackPtr(su);
      stack[f + 2] := Ptr(target);
      assert stack[..] == PushedFrame(s0, f, su, target);
      PushKeepsChain(s0, su, frames, f, target);
      frames := [f] + frames;
      su := f;
    }

    /**
     * `UPD_CAF(caf, bh)`: make the CAF a static indirection to `bh`, give `bh`
     * an empty blocking queue and register the CAF.
     */
    method UpdCaf(caf: Ref, bh: Ref)
      requires Valid()
      requires caf in heap && |heap[caf].payload| >= 1
      requires bh in heap && |heap[bh].payload| >= 1
      modifies this`heap, this`events
      ensures Valid()
      ensures events == old(events) + [CafRegistered(caf)]
      ensures heap == CafHeap(old(heap), caf, bh)
    {
      var cl := heap[caf];
      cl := Closure(IndStatic, cl.payload);
      cl := Closure(cl.info, cl.payload[0 := Ptr(bh)]);
      assert cl == Overwrite(heap[caf], IndStatic, Ptr(bh));
      heap := heap[caf := cl];
      var b := heap[bh];
      assert Closure(b.info, b.payload[0 := EndTsoQueue]) == Overwrite(b, b.info, EndTsoQueue);
      heap := heap[bh := Closure(b.info, b.payload[0 := EndTsoQueue])];
      events := events + [CafRegistered(caf)];
    }
  }
}
