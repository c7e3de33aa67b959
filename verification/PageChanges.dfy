/**
 What tree operations may do to pages besides storing their result: they take
 care of the pages below them and of new pages, and leave all others alone;
 walks along the leaves change in the one leaf that changes; and the file on
 disk keeps the tree it held, because operations write into the cache only.
 */
module PageChanges {
  import opened Wrappers
  import opened ByteStrings
  import opened FileHeaders
  import opened NodeFormat
  import opened SortedEntries
  import opened PageAllocation
  import opened Pagers
  import opened Trees
  import opened TreeShape
  import opened TreePages
  import opened TreeFailure
  import opened TreeStore
  import opened LeafWalks
  import opened Chains
  import opened TreeSummary

  /** Inserting k below t touches t's pages and new ones, changes walks at k's leaf only, and leaves the file alone. */
  ghost predicate Careful(s: Snap, s': Snap, t: Tree, k: bytes, val: bytes)
    requires Shaped(t)
  {
    && Untouched(s.view, s'.view, Ids(t), s.A())
    && FileKept(s, s')
    && WalksAfter(s.view, s.A(), s'.view, s'.A(), t, k, val)
  }

  /** The same for work on one internal node and new pages. */
  ghost predicate CarefulAt(s: Snap, s': Snap, id: u32) {
    && Untouched(s.view, s'.view, multiset{id}, s.A())
    && FileKept(s, s')
    && WalksKept(s.view, s.A(), s'.view, s'.A())
  }

  lemma StoredLeaf(view: seq<Page>, t: Tree)
    requires Stored(view, t) && t.Leaf?
    ensures t.id < |view| && LinkOf(view[t.id]) == To(t.ents, t.next)
  {
  }

  lemma StoredInner(view: seq<Page>, t: Tree)
    requires Stored(view, t) && t.Node?
    ensures t.id < |view| && LinkOf(view[t.id]) == Inner
  {
  }

  lemma InnerLink(page: Page, was: Page, written: bool, val: NodeVal)
    requires if written then DecodeNode(page) == Success(val) && val.InnerVal? else page == was
    requires LinkOf(was) == Inner
    ensures LinkOf(page) == Inner
  {
  }

  /** A page just allocated. */
  lemma ZerosAreDead()
    ensures LinkOf(Zeros(PAGE_SIZE)) == Dead(UnknownType(0))
  {
  }

  /** One page written, nothing allocated. */
  ghost predicate PageWritten(s: Snap, s': Snap, id: u32) {
    && s'.file == s.file && s'.header == s.header && s'.free == s.free && |s'.view| == |s.view|
    && forall p :: 0 <= p < |s.view| && p != id ==> s'.view[p] == s.view[p]
  }

  lemma SameFileKept(s: Snap, s': Snap)
    requires s'.file == s.file && s'.header == s.header && s'.free == s.free
    ensures FileKept(s, s')
  {
  }

  lemma FileKeptTwice(s0: Snap, s1: Snap, s2: Snap)
    requires FileKept(s0, s1) && FileKept(s1, s2)
    ensures FileKept(s0, s2)
  {
  }

  /** Writing pages into the cache does nothing to the file. */
  lemma FileKeptByWrites(s0: Snap, s1: Snap, s2: Snap)
    requires FileKept(s0, s1) && s2.file == s1.file && s2.header == s1.header && s2.free == s1.free
    ensures FileKept(s0, s2)
  {
  }

  /** A leaf written back in its place, or not written at all. */
  lemma LeafRewritten(s: Snap, s': Snap, t: Tree, k: bytes, val: bytes)
    requires t.Leaf? && t.id < |s.view| && InUse(s.A(), t.id) && PageWritten(s, s', t.id)
    requires LinkOf(s.view[t.id]) == To(t.ents, t.next)
    requires match LeafChange(t.ents, k, val, Pop(s.A()).0)
             case Keep => LinkOf(s'.view[t.id]) == LinkOf(s.view[t.id])
             case Now(ents) => LinkOf(s'.view[t.id]) == To(ents, t.next)
             case _ => false
    ensures Careful(s, s', t, k, val)
  {
    hide LinkOf, LeafChange, InUse, FileKept;
    ChangeReachesWalks(s.view, s.A(), s'.view, s'.A(), t.id, LeafChange(t.ents, k, val, Pop(s.A()).0));
    SameFileKept(s, s');
  }

  /** A leaf written back without the key. */
  lemma LeafShortened(s: Snap, s': Snap, t: Tree, k: bytes)
    requires t.Leaf? && t.id < |s.view| && InUse(s.A(), t.id) && PageWritten(s, s', t.id)
    requires LinkOf(s.view[t.id]) == To(t.ents, t.next) && LinkOf(s'.view[t.id]) == To(Remove(t.ents, k), t.next)
    ensures Untouched(s.view, s'.view, Ids(t), s.A())
    ensures WalksChanged(s.view, s.A(), s'.view, s'.A(), t.id, Now(Remove(t.ents, k)))
  {
    hide LinkOf, InUse;
    ChangeReachesWalks(s.view, s.A(), s'.view, s'.A(), t.id, Now(Remove(t.ents, k)));
  }

  /** An internal node written where there was one. */
  lemma NodeRewritten(s: Snap, s': Snap, id: u32)
    requires id < |s.view| && PageWritten(s, s', id) && LinkOf(s'.view[id]) == LinkOf(s.view[id])
    ensures CarefulAt(s, s', id)
  {
    LinksKeptWalks(s.view, s.A(), s'.view, s'.A());
    SameFileKept(s, s');
  }

  /** Pages besides id and one new page read as before. */
  ghost predicate NewPage(s: Snap, s': Snap, id: u32) {
    var (newId, b) := Pop(s.A());
    && s'.A() == b && newId < |s'.view| && |s.view| <= |s'.view| && |s.view| == s.A().count < MAX_U32
    && (forall p: u32 :: 1 <= p < |s.view| && p != id && p != newId ==> s'.view[p] == s.view[p])
    && FileKept(s, s') && (forall p: u32 :: FreeTimes(s.A(), p) <= if 1 <= p < |s.view| then 1 else 0)
  }

  /** Besides pages id and newId nothing was written. */
  ghost predicate TwoWritten(s: Snap, s': Snap, id: u32, newId: u32) {
    && s'.file == s.file && s'.header == s.header && s'.free == s.free && |s'.view| == |s.view|
    && forall p: u32 :: p < |s.view| && p != id && p != newId ==> s'.view[p] == s.view[p]
  }

  /** What a page in use and the page just handed out have to do with one another. */
  lemma HandedApart(s: Snap, s': Snap, id: u32, newId: u32)
    requires Handed(s, s', newId) && |s.view| == s.A().count < MAX_U32 && |s'.view| == s'.A().count && InUse(s.A(), id)
    requires forall p: u32 :: FreeTimes(s.A(), p) <= if 1 <= p < |s.view| then 1 else 0
    ensures id != newId && InUse(s'.A(), id) && InUse(s'.A(), newId)
    ensures id < |s.view| && s'.view[id] == s.view[id] && s'.view[newId] == Zeros(PAGE_SIZE)
  {
    hide FileKept, Pop;
    PoppedInUse(s.A());
  }

  lemma SplitIsNewPage(s: Snap, s1: Snap, s2: Snap, id: u32, newId: u32)
    requires Handed(s, s1, newId) && TwoWritten(s1, s2, id, newId) && |s.view| == s.A().count < MAX_U32
    requires forall p: u32 :: FreeTimes(s.A(), p) <= if 1 <= p < |s.view| then 1 else 0
    ensures NewPage(s, s2, id)
  {
    FileKeptByWrites(s, s1, s2);
  }

  lemma NewPageUntouched(s: Snap, s': Snap, id: u32)
    requires NewPage(s, s', id)
    ensures Untouched(s.view, s'.view, multiset{id}, s.A())
  {
    hide FileKept;
    var (newId, b) := Pop(s.A());
    if s.free != [] {
      assert newId in multiset(s.free);
    }
  }

  lemma NodeSplit(s: Snap, s': Snap, id: u32)
    requires NewPage(s, s', id) && 1 <= id < |s.view| && LinkOf(s'.view[id]) == LinkOf(s.view[id])
    ensures CarefulAt(s, s', id)
  {
    hide FileKept, LinkOf, Pop, InUse, FreeTimes;
    NewPageUntouched(s, s', id);
    PoppedInUse(s.A());
    LinksKeptWalks(s.view, s.A(), s'.view, s'.A());
  }

  /** A leaf split: nothing written, only the shortened half, or both. */
  lemma LeafSplit(s: Snap, s': Snap, t: Tree, k: bytes, val: bytes)
    requires NewPage(s, s', t.id) && t.Leaf? && 1 <= t.id < |s.view| && InUse(s.A(), t.id)
    requires LinkOf(s.view[t.id]) == To(t.ents, t.next)
    requires var id := Pop(s.A()).0;
             match LeafChange(t.ents, k, val, id)
             case Keep => LinkOf(s'.view[t.id]) == LinkOf(s.view[t.id])
             case Now(_) => false
             case Cut(lower, _) => LinkOf(s'.view[t.id]) == To(lower, id) && LinkOf(s'.view[id]).Dead?
             case Halves(lower, _, upper) =>
               LinkOf(s'.view[t.id]) == To(lower, id) && LinkOf(s'.view[id]) == To(upper, t.next)
    ensures Careful(s, s', t, k, val)
  {
    hide FileKept, LinkOf, Pop, InUse, FreeTimes, LeafChange;
    var (v, a, v', a') := (s.view, s.A(), s'.view, s'.A());
    var id := Pop(a).0;
    LeafChangePage(t.ents, k, val, id);
    NewPageUntouched(s, s', t.id);
    PoppedInUse(a);
    ChangeReachesWalks(v, a, v', a', t.id, LeafChange(t.ents, k, val, id));
  }

  /** What a child that split brings back to its node. */
  lemma ChildSplit(t: Tree, h: nat, k: bytes, val: bytes, a: Alloc)
    requires t.Node? && Shaped(t) && AtMostDeep(t, h) && a.count + h <= MAX_U32 && Owned(t, a)
    requires Insert(t.kids[ChildIndex(t.seps, k)], k, val, a).Split?
    ensures var i := ChildIndex(t.seps, k);
            var r := Insert(t.kids[i], k, val, a);
            var kids := InsertAt(t.kids[i := r.left], i + 1, r.right);
            && KidsOwned(kids, r.a) && KidIds(kids)[t.id] == 0
            && 1 <= t.id < r.a.count < MAX_U32 && FreeTimes(r.a, t.id) == 0
            && r.left.id == t.kids[i].id
            && forall p: u32 :: Conserves(Ids(t.kids[i])[p], a, r, p)
  {
    hide Ids, KidIds, Insert, Conserves, Owned, KidsOwned, FreeTimes;
    var i := ChildIndex(t.seps, k);
    var r := Insert(t.kids[i], k, val, a);
    forall p: u32
      ensures Conserves(Ids(t.kids[i])[p], a, r, p) && TookAtMost(a, r.a, h - 1)
    {
      InsertConserves(t.kids[i], k, val, a, h - 1, p);
    }
    assert TookAtMost(a, r.a, h - 1) by {
      InsertConserves(t.kids[i], k, val, a, h - 1, 0);
    }
    SplicedOwned(t, i, r, a);
    InsertKeepsRoot(t.kids[i], k, val, a);
  }

  /** What was done below the child, and then at the node itself. */
  lemma CarefulTwice(s0: Snap, s1: Snap, s2: Snap, t: Tree, h: nat, k: bytes, val: bytes)
    requires t.Node? && Shaped(t) && AtMostDeep(t, h) && |s0.view| == s0.header.pageCount
    requires Owned(t, s0.A()) && s0.header.pageCount + h <= MAX_U32
    requires var r := Insert(t.kids[ChildIndex(t.seps, k)], k, val, s0.A()); r.Split? && s1.A() == r.a
    requires Careful(s0, s1, t.kids[ChildIndex(t.seps, k)], k, val) && CarefulAt(s1, s2, t.id)
    ensures Careful(s0, s2, t, k, val)
  {
    hide FileKept, WalksKept, WalksChanged, LeafChange, Conserves, Untouched, Ids, Owned, Insert;
    var i := ChildIndex(t.seps, k);
    ChildSplit(t, h, k, val, s0.A());
    SameLeaf(t, k);
    UntouchedTwice(s0.view, s1.view, s2.view, t, i, s0.A(), Insert(t.kids[i], k, val, s0.A()));
    FileKeptTwice(s0, s1, s2);
    var l := LeafFor(t, k);
    ChangedThenKept(s0.view, s0.A(), s1.view, s1.A(), s2.view, s2.A(), l.id,
                    LeafChange(l.ents, k, val, Pop(s0.A()).0));
  }

  /** Nothing more to do at the node. */
  lemma CarefulAbove(s: Snap, s': Snap, t: Tree, i: nat, k: bytes, val: bytes)
    requires t.Node? && Shaped(t) && i == ChildIndex(t.seps, k) && Careful(s, s', t.kids[i], k, val)
    ensures Careful(s, s', t, k, val)
  {
    hide FileKept, WalksAfter;
    forall p: u32
      ensures Ids(t.kids[i])[p] <= Ids(t)[p]
    {
      KidHeld(t.kids, i, p);
      NodeIdsAt(t, p);
    }
    SameLeaf(t, k);
    assert WalksAfter(s.view, s.A(), s'.view, s'.A(), t, k, val) by {
      SameWalks(s, s', t, i, k, val);
    }
  }

  lemma SameWalks(s: Snap, s': Snap, t: Tree, i: nat, k: bytes, val: bytes)
    requires t.Node? && Shaped(t) && i == ChildIndex(t.seps, k)
    requires WalksAfter(s.view, s.A(), s'.view, s'.A(), t.kids[i], k, val)
    ensures WalksAfter(s.view, s.A(), s'.view, s'.A(), t, k, val)
  {
    SameLeaf(t, k);
  }

  /** A new root on a new page. */
  lemma RootAdded(s: Snap, s': Snap)
    requires |s.view| == s.A().count && 1 <= |s.view| < MAX_U32 && |s.view| <= |s'.view| && s'.A() == Pop(s.A()).1
    requires forall p: u32 :: FreeTimes(s.A(), p) <= if 1 <= p < |s.view| then 1 else 0
    requires forall p: u32 :: 1 <= p < |s.view| && p != Pop(s.A()).0 ==> s'.view[p] == s.view[p]
    ensures WalksKept(s.view, s.A(), s'.view, s'.A())
  {
    hide LinkOf, Pop, InUse, FreeTimes;
    PoppedInUse(s.A());
    LinksKeptWalks(s.view, s.A(), s'.view, s'.A());
  }

  /** A good tree on other pages that read the same where they are in use. */
  lemma TreeOnElsewhere(view: seq<Page>, a: Alloc, pages: seq<Page>, b: Alloc, t: Tree)
    requires TreeOn(view, t, a) && |pages| == b.count && FreesNone(a, b)
    requires forall p: u32 :: 1 <= p < |view| ==> pages[p] == view[p]
    ensures TreeOn(pages, t, b)
  {
    hide SearchTree, LinkOf, FirstLeaf, Owned, Ids, ShowsTree;
    forall p: u32 | Ids(t)[p] >= 1 && p < |view|
      ensures pages[p] == view[p]
    {
      OwnedPage(t, a, p);
    }
    StoredFrame(view, pages, t);
    OwnedStill(t, a, b);
    forall p: u32 | InUse(a, p)
      ensures InUse(b, p)
    {
      assert FreeTimes(b, p) <= FreeTimes(a, p);
    }
    LinksKeptWalks(view, a, pages, b);
    WalkFromIs(pages, b, FirstLeaf(t), WalkFrom(view, a, FirstLeaf(t)));
  }

  lemma OwnedPage(t: Tree, a: Alloc, p: u32)
    requires Owned(t, a) && Ids(t)[p] >= 1
    ensures 1 <= p < a.count
  {
    assert Ids(t)[p] + FreeTimes(a, p) <= if 1 <= p < a.count then 1 else 0;
  }

  /** A file that holds a tree goes on holding it under whatever leaves the file alone. */
  lemma StillOnFile(s: Snap, s': Snap, t: Tree)
    requires FileKept(s, s') && IsImage(s.file, s.header, s.free) && FreesNone(s.A(), s'.A())
    requires TreeOn(s.file[..s.header.pageCount], t, s.A())
    ensures IsImage(s'.file, s'.header, s'.free) && TreeOn(s'.file[..s'.header.pageCount], t, s'.A())
  {
    hide TreeOn, FreesNone, EncodeHeader, FreeChain;
    TreeOnElsewhere(s.file[..s.header.pageCount], s.A(), s'.file[..s'.header.pageCount], s'.A(), t);
  }

  lemma CarefulParts(s: Snap, s': Snap, t: Tree, k: bytes, val: bytes)
    requires Shaped(t) && Careful(s, s', t, k, val)
    ensures FileKept(s, s') && WalksAfter(s.view, s.A(), s'.view, s'.A(), t, k, val)
    ensures Untouched(s.view, s'.view, Ids(t), s.A())
  {
  }

  /** What Realizes says, case by case. */
  lemma RealizesInsert(view: seq<Page>, a: Alloc, r: Ins, ok: bool, splitKey: Option<bytes>, newChild: u32)
    requires Realizes(view, a, r, ok, splitKey, newChild)
    ensures a == r.a && (ok <==> !r.Failed?) && (ok && splitKey.Some? <==> r.Split?)
    ensures r.Split? ==> splitKey == Some(r.sep) && newChild == r.right.id
    ensures r.Split? ==> Stored(view, r.left) && Stored(view, r.right)
    ensures !r.Split? ==> Stored(view, r.t)
  {
  }

  lemma WalksAboveRoot(s: Snap, s1: Snap, s2: Snap, t: Tree, k: bytes, val: bytes)
    requires Shaped(t) && WalksAfter(s.view, s.A(), s1.view, s1.A(), t, k, val)
    requires WalksKept(s1.view, s1.A(), s2.view, s2.A())
    ensures WalksAfter(s.view, s.A(), s2.view, s2.A(), t, k, val)
  {
    hide LeafChange;
    var l := LeafFor(t, k);
    ChangedThenKept(s.view, s.A(), s1.view, s1.A(), s2.view, s2.A(), l.id, LeafChange(l.ents, k, val, Pop(s.A()).0));
  }

  lemma PoppedPage(a: Alloc)
    requires 1 <= a.count && forall p: u32 :: FreeTimes(a, p) <= if 1 <= p < a.count then 1 else 0
    ensures Pop(a).0 != 0
  {
    if a.free != [] {
      assert FreeTimes(a, a.free[0]) >= 1;
    }
  }
}
