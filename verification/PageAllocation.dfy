/**
 The allocation policy of the pager on its own: a stack of recycled pages
 and a high-water mark. The Pager class refines it.
 */
module PageAllocation {
  import opened ByteStrings

  const MAX_U32: u32 := 0xFFFF_FFFF

  /** free is the free list from its head, count the file's page count (page 0 included). */
  datatype Alloc = Alloc(free: seq<u32>, count: u32)

  /** The page AllocatePage hands out and what is left; the page count wraps like a Go uint32. */
  function Pop(a: Alloc): (r: (u32, Alloc)) {
    if a.free != [] then (a.free[0], Alloc(a.free[1..], a.count))
    else (a.count, Alloc([], if a.count == MAX_U32 then 0 else a.count + 1))
  }

  function Push(a: Alloc, id: u32): Alloc {
    Alloc([id] + a.free, a.count)
  }

  /** How often page p is free. */
  ghost function FreeTimes(a: Alloc, p: u32): nat {
    multiset(a.free)[p]
  }

  /** Pop moves one page out: the popped page left the free list or is the one new page. */
  lemma PopConserves(a: Alloc, p: u32)
    requires a.free == [] ==> a.count < MAX_U32
    ensures var (id, b) := Pop(a);
            && a.count <= b.count <= a.count + 1
            && FreeTimes(b, p) + (if p == id then 1 else 0)
               == FreeTimes(a, p) + (if a.count <= p < b.count then 1 else 0)
  {
    if a.free != [] {
      assert a.free == [a.free[0]] + a.free[1..];
    }
  }

  // ---------- runs of allocations and frees ----------

  datatype Op = Allocate | Free(id: u32)

  /** Allocation state with the set of pages handed out and not given back, and its largest size so far. */
  datatype History = History(a: Alloc, live: set<u32>, peak: nat)

  const FRESH := History(Alloc([], 1), {}, 0)

  /** What the caller must keep to: free only live pages, and never outgrow uint32 page ids. */
  predicate Permitted(h: History, op: Op) {
    match op
    case Allocate => h.a.free == [] ==> h.a.count < MAX_U32
    case Free(id) => id in h.live
  }

  function Step(h: History, op: Op): History {
    match op
    case Allocate =>
      var (id, b) := Pop(h.a);
      var live := h.live + {id};
      History(b, live, if |live| > h.peak then |live| else h.peak)
    case Free(id) => History(Push(h.a, id), h.live - {id}, h.peak)
  }

  predicate PermittedRun(h: History, ops: seq<Op>)
    decreases ops
  {
    ops == [] || (Permitted(h, ops[0]) && PermittedRun(Step(h, ops[0]), ops[1..]))
  }

  function Run(h: History, ops: seq<Op>): History
    decreases ops
  {
    if ops == [] then h else Run(Step(h, ops[0]), ops[1..])
  }

  /** Live and free pages partition 1..count-1, and the file is exactly as long as the peak needed. */
  ghost predicate Accounted(h: History) {
    && 1 <= h.a.count
    && (forall p: u32 :: FreeTimes(h.a, p) + (if p in h.live then 1 else 0)
                         == if 1 <= p < h.a.count then 1 else 0)
    && |h.live| + |h.a.free| == h.a.count - 1
    && h.peak == h.a.count - 1
  }

  lemma StepAccounted(h: History, op: Op)
    requires Accounted(h) && Permitted(h, op)
    ensures Accounted(Step(h, op))
    ensures op.Allocate? ==> Pop(h.a).0 !in h.live && Pop(h.a).0 != 0
  {
    match op
    case Allocate =>
      var (id, b) := Pop(h.a);
      PopConserves(h.a, id);
      forall p: u32
        ensures FreeTimes(b, p) + (if p in h.live + {id} then 1 else 0) == if 1 <= p < b.count then 1 else 0
      {
        PopConserves(h.a, p);
        assert FreeTimes(h.a, p) + (if p in h.live then 1 else 0) == if 1 <= p < h.a.count then 1 else 0;
        assert FreeTimes(h.a, id) + (if id in h.live then 1 else 0) == if 1 <= id < h.a.count then 1 else 0;
      }
    case Free(id) =>
      var b := Push(h.a, id);
      forall p: u32
        ensures FreeTimes(b, p) + (if p in h.live - {id} then 1 else 0) == if 1 <= p < b.count then 1 else 0
      {
        assert FreeTimes(h.a, p) + (if p in h.live then 1 else 0) == if 1 <= p < h.a.count then 1 else 0;
      }
  }

  /**
   Over every permitted run no page is lost or handed out twice, and the file
   has grown to exactly the largest number of pages ever live at once.
   */
  lemma {:induction false} RunAccounted(h: History, ops: seq<Op>)
    requires Accounted(h) && PermittedRun(h, ops)
    ensures Accounted(Run(h, ops))
    decreases ops
  {
    if ops != [] {
      StepAccounted(h, ops[0]);
      RunAccounted(Step(h, ops[0]), ops[1..]);
    }
  }

  lemma FreshRunAccounted(ops: seq<Op>)
    requires PermittedRun(FRESH, ops)
    ensures Accounted(Run(FRESH, ops))
  {
    RunAccounted(FRESH, ops);
  }

  function PushAll(a: Alloc, ids: seq<u32>): Alloc
    decreases ids
  {
    if ids == [] then a else PushAll(Push(a, ids[0]), ids[1..])
  }

  function PopMany(a: Alloc, n: nat): (seq<u32>, Alloc)
    decreases n
  {
    if n == 0 then ([], a)
    else
      var (id, b) := Pop(a);
      var (ids, c) := PopMany(b, n - 1);
      ([id] + ids, c)
  }

  lemma {:induction false} PushAllStacks(a: Alloc, ids: seq<u32>)
    ensures PushAll(a, ids).count == a.count
    ensures var f := PushAll(a, ids).free;
            && |f| == |ids| + |a.free|
            && f[|ids|..] == a.free
            && forall i :: 0 <= i < |ids| ==> f[i] == ids[|ids| - 1 - i]
    decreases ids
  {
    if ids != [] {
      var b := Push(a, ids[0]);
      PushAllStacks(b, ids[1..]);
      var f := PushAll(b, ids[1..]).free;
      assert f[|ids|..] == f[|ids| - 1..][1..];
      assert f[|ids| - 1] == f[|ids| - 1..][0];
    }
  }

  lemma {:induction false} PopManyTakes(a: Alloc, n: nat)
    requires n <= |a.free|
    ensures PopMany(a, n) == (a.free[..n], Alloc(a.free[n..], a.count))
    decreases n
  {
    if n > 0 {
      PopManyTakes(Pop(a).1, n - 1);
      assert a.free[..n] == [a.free[0]] + a.free[1..][..n - 1];
      assert a.free[n..] == a.free[1..][n - 1..];
    }
  }

  /** Recycling is last in, first out, and giving pages back and taking them again changes nothing else. */
  lemma ReuseIsLifo(a: Alloc, ids: seq<u32>)
    ensures var (got, b) := PopMany(PushAll(a, ids), |ids|);
            && b == a
            && |got| == |ids|
            && forall i :: 0 <= i < |ids| ==> got[i] == ids[|ids| - 1 - i]
  {
    PushAllStacks(a, ids);
    PopManyTakes(PushAll(a, ids), |ids|);
  }
}
