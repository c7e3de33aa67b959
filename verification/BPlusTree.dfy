/** The B+tree over pages: each method does to the file what the functions of Trees do to the tree. */
module BPlusTrees {
  import opened Wrappers
  import opened ByteStrings
  import opened FileHeaders
  import opened NodeFormat
  import opened SortedEntries
  import opened PageAllocation
  import opened Pagers
  import opened Nodes
  import opened Trees
  import opened TreeShape
  import opened TreeContents
  import opened TreePages
  import opened TreeChain
  import opened TreeStore
  import opened TreeRuns
  import opened TreeFailure
  import opened TreeSummary
  import opened LeafWalks
  import opened Chains
  import opened PageChanges
  import TreeCapacity

  datatype TreeError = EmptyKey | KeyTooLong | ValueTooLong | KeyNotFound | NodeOverflow

  /** Why a node cannot be read. */
  datatype ReadError = OutOfRange | BadNode(e: DecodeError)

  /** How a walk over all entries ended. */
  datatype WalkOutcome = Completed | StoppedByCallback | Unreadable(e: ReadError)

  lemma KeysOfConcat(keys: seq<bytes>, values: seq<bytes>, more: seq<Entry>)
    requires |keys| == |values|
    ensures KeysOf(Zip(keys, values) + more) == keys + KeysOf(more)
  {
  }

  lemma AppendAssociates(a: seq<bytes>, b: seq<bytes>, c: seq<bytes>)
    ensures a + (b + c) == a + b + c
  {
  }

  lemma NoKeys()
    ensures KeysOf([]) == []
  {
  }

  class BPlusTree {
    const pager: Pager
    /** The tree the pages hold. */
    ghost var tree: Tree

    /** Kept by every operation in every outcome, so true from opening to closing. */
    ghost predicate Valid()
      reads this, pager
    {
      pager.Valid() && pager.header.root == tree.id && TreeOn(pager.view, tree, pager.State())
    }

    /** No page of the file is lost. */
    ghost predicate Tight()
      reads this, pager`free, pager`header
    {
      NoLeak(tree, pager.State())
    }

    ghost function Map(): map<bytes, bytes>
      reads this
    {
      Contents(tree)
    }

    /** The file by itself, without cache and without this program, holds t. */
    ghost predicate OnFile(t: Tree)
      reads pager`file, pager`header, pager`free
    {
      && IsImage(pager.file, pager.header, pager.free)
      && pager.header.root == t.id
      && TreeOn(pager.file[..pager.header.pageCount], t, pager.State())
    }

    /** The file holds the tree, and no page is only in the cache. What has merely been read has no part in it. */
    ghost predicate Durable()
      reads this, pager`file, pager`header, pager`free, pager`view
    {
      pager.OnDisk() && OnFile(tree)
    }

    /** The file is complete exactly when every dirty page already says there what it says in the cache. */
    lemma DurableIff()
      requires Valid()
      ensures Durable() <==> forall id :: id in pager.dirty ==> id < |pager.file| && pager.file[id] == pager.buffer[id]
    {
      hide FreeChain, EncodeHeader, TreeOn, Pop;
      if forall id :: id in pager.dirty ==> id < |pager.file| && pager.file[id] == pager.buffer[id] {
        assert forall id: u32 :: 1 <= id < |pager.view| ==> pager.file[id] == pager.view[id];
        pager.FlushedIsImage();
        TreeOnElsewhere(pager.view, pager.State(), pager.file[..pager.header.pageCount], pager.State(), tree);
      }
    }

    /** What following the leaf links from the first leaf meets, and where it ends. */
    ghost function LeafWalk(): Chain
      requires Valid()
      reads this, pager
    {
      WalkFrom(pager.view, pager.State(), FirstLeaf(tree))
    }

    /** The walk ends behind a last leaf, so that listing succeeds. */
    ghost predicate Listable()
      requires Valid()
      reads this, pager
    {
      LeafWalk().end == 0
    }

    /** The entries it comes by. */
    ghost function Listed(): seq<Entry>
      requires Valid()
      reads this, pager
    {
      EntriesAlong(LeafWalk().cells)
    }

    constructor Attach(pager: Pager, ghost tree: Tree)
      ensures this.pager == pager && this.tree == tree
    {
      this.pager, this.tree := pager, tree;
    }

    // ---------- nodes on pages ----------

    method ReadNode(id: u32) returns (r: Result<Node, ReadError>)
      requires pager.Valid()
      modifies pager`buffer
      ensures pager.Valid()
      ensures id >= pager.header.pageCount ==> r == Failure(OutOfRange)
      ensures 1 <= id < pager.header.pageCount ==>
                match DecodeNode(pager.view[id])
                case Success(v) => r.Success? && fresh(r.value) && r.value.Valid() && r.value.Val() == v
                case Failure(e) => r == Failure(BadNode(e))
    {
      var data := pager.ReadPage(id);
      match data {
        case None => return Failure(OutOfRange);
        case Some(page) =>
          var n := DeserializeNode(page);
          match n {
            case Failure(e) => return Failure(BadNode(e));
            case Success(node) => return Success(node);
          }
      }
    }

    method WriteNode(id: u32, n: Node) returns (ok: bool)
      requires pager.Valid() && n.Valid() && 1 <= id < pager.header.pageCount && id !in pager.free
      modifies pager`buffer, pager`dirty, pager`view
      ensures pager.Valid()
      ensures ok <==> NodeSize(n.Val()) <= CELL_AREA_SIZE
      ensures ok ==> |pager.view| == |old(pager.view)| && DecodeNode(pager.view[id]) == Success(n.Val())
      ensures ok ==> forall p :: 0 <= p < |pager.view| && p != id ==> pager.view[p] == old(pager.view)[p]
      ensures !ok ==> pager.view == old(pager.view)
    {
      NodeRoundTrip(n.Val());
      var data := SerializeNode(n);
      match data {
        case None => return false;
        case Some(page) =>
          ok := pager.WritePage(id, page);
      }
    }

    /** The last steps of both splits: the shortened node first, then the new one. */
    method WriteHalves(id: u32, n: Node, newID: u32, right: Node) returns (first: bool, second: bool)
      requires pager.Valid() && n.Valid() && right.Valid() && id != newID
      requires 1 <= id < pager.header.pageCount && id !in pager.free
      requires 1 <= newID < pager.header.pageCount && newID !in pager.free
      modifies pager`buffer, pager`dirty, pager`view
      ensures pager.Valid() && TwoWritten(old(pager.Now()), pager.Now(), id, newID)
      ensures first <==> NodeSize(n.Val()) <= CELL_AREA_SIZE
      ensures second <==> first && NodeSize(right.Val()) <= CELL_AREA_SIZE
      ensures if first then DecodeNode(pager.view[id]) == Success(n.Val()) else pager.view == old(pager.view)
      ensures if second then DecodeNode(pager.view[newID]) == Success(right.Val())
              else pager.view[newID] == old(pager.view)[newID]
    {
      first := WriteNode(id, n);
      if !first {
        return false, false;
      }
      second := WriteNode(newID, right);
    }

    // ---------- insertion ----------

    /** What an insertion below page id relies on. */
    ghost predicate Ready(id: u32, t: Tree, h: nat)
      reads pager
    {
      && pager.Valid() && Shaped(t) && AtMostDeep(t, h) && Stored(pager.view, t) && t.id == id
      && Owned(t, pager.State()) && pager.header.pageCount + h <= MAX_U32
    }

    /** The loop that picks the child, the same for insertion, search and deletion. */
    method FindChild(n: Node, key: bytes) returns (childIdx: nat)
      requires n.Valid() && n.nodeType == NODE_INTERNAL
      ensures childIdx == ChildIndex(n.keys, key)
    {
      childIdx := 0;
      while childIdx < |n.keys|
        invariant childIdx <= |n.keys|
        invariant forall j :: 0 <= j < childIdx ==> !Less(key, n.keys[j])
      {
        if Compare(key, n.keys[childIdx]) < 0 {
          break;
        }
        childIdx := childIdx + 1;
      }
    }

    function ChildAt(n: Node, childIdx: nat): u32
      requires n.Valid() && n.nodeType == NODE_INTERNAL && childIdx <= |n.keys|
      reads n
    {
      if childIdx < |n.children| then n.children[childIdx] else n.rightPtr
    }

    method Insert(id: u32, key: bytes, value: bytes, ghost t: Tree, ghost h: nat)
      returns (ok: bool, splitKey: Option<bytes>, newChild: u32)
      requires Ready(id, t, h)
      modifies pager
      ensures pager.Valid()
      ensures Realizes(pager.view, pager.State(), Trees.Insert(t, key, value, old(pager.State())),
                       ok, splitKey, newChild)
      ensures !ok && Present(LeafFor(t, key).ents, key) ==> pager.view == old(pager.view)
      ensures Careful(old(pager.Now()), pager.Now(), t, key, value)
      decreases t, 1
    {
      OwnedRoot(t, pager.State());
      var r := ReadNode(id);
      var n := r.value;
      if n.nodeType == NODE_LEAF {
        ok, splitKey, newChild := InsertLeaf(id, n, key, value, t);
      } else {
        ok, splitKey, newChild := InsertInternal(id, n, key, value, t, h);
      }
    }

    method InsertInternal(id: u32, n: Node, key: bytes, value: bytes, ghost t: Tree, ghost h: nat)
      returns (ok: bool, splitKey: Option<bytes>, newChild: u32)
      requires Ready(id, t, h) && t.Node? && n.Valid() && n.Val() == NodeOf(t)
      modifies pager, n
      ensures pager.Valid()
      ensures Realizes(pager.view, pager.State(), Trees.Insert(t, key, value, old(pager.State())),
                       ok, splitKey, newChild)
      ensures !ok && Present(LeafFor(t, key).ents, key) ==> pager.view == old(pager.view)
      ensures Careful(old(pager.Now()), pager.Now(), t, key, value)
      decreases t, 0
    {
      hide Pager.Valid, Stored, Owned, KidsOwned, Untouched, AdoptChild, Ids, KidIds, Careful, CarefulAt, Realizes,
           FreeTimes;
      ghost var a, s := pager.State(), pager.Now();
      var childIdx := FindChild(n, key);
      var childPageID := ChildAt(n, childIdx);
      ghost var child := t.kids[childIdx];
      ghost var r := Trees.Insert(child, key, value, a);
      KidOwned(t, childIdx, a);
      StoredKid(s.view, t, childIdx);
      SameLeaf(t, key);
      ok, splitKey, newChild := Insert(childPageID, key, value, child, h - 1);
      RealizesInsert(pager.view, pager.State(), r, ok, splitKey, newChild);
      CarefulParts(s, pager.Now(), child, key, value);
      InsertKeepsRoot(child, key, value, a);
      ChildReturned(s.view, pager.view, t, childIdx, if r.Split? then r.left else r.t, a);
      if !ok || splitKey == None {
        NothingToAdopt(pager.view, pager.State(), t, key, value, a);
        CarefulAbove(s, pager.Now(), t, childIdx, key, value);
        return ok, None, 0;
      }
      ghost var s1 := pager.Now();
      ChildSplit(t, h, key, value, a);
      ok, splitKey, newChild := AdoptSplit(id, n, childIdx, splitKey.value, newChild, t, r.left, r.right);
      CarefulTwice(s, s1, pager.Now(), t, h, key, value);
      if Present(LeafFor(t, key).ents, key) {
        TreeCapacity.UpdateStaysPut(child, key, value, a);
      }
    }

    /** Both cases: the child that split is among the children, or is the right pointer. */
    method AdoptEntry(n: Node, i: nat, sep: bytes, newChild: u32)
      requires n.Valid() && n.nodeType == NODE_INTERNAL && i <= |n.keys|
      modifies n
      ensures n.Valid() && n.nodeType == NODE_INTERNAL
      ensures n.Val() == InnerVal(InsertAt(old(n.keys), i, sep),
                                  InsertAt(old(n.children) + [old(n.rightPtr)], i + 1, newChild))
    {
      n.keys := InsertAt(n.keys, i, sep);
      if i < |n.children| {
        InsertAtBefore(n.children, [n.rightPtr], i + 1, newChild);
        n.children := InsertAt(n.children, i + 1, newChild);
      } else {
        var oldRight := n.rightPtr;
        n.children := n.children + [oldRight];
        n.rightPtr := newChild;
      }
    }

    method AdoptSplit(id: u32, n: Node, i: nat, sep: bytes, newChild: u32,
                      ghost t: Tree, ghost l: Tree, ghost r: Tree)
      returns (ok: bool, splitKey: Option<bytes>, newSibling: u32)
      requires pager.Valid() && t.Node? && Shaped(t) && t.id == id && i < |t.kids| && pager.header.pageCount < MAX_U32
      requires n.Valid() && n.Val() == NodeOf(t) && newChild == r.id && l.id == t.kids[i].id
      requires Stored(pager.view, t.(kids := t.kids[i := l])) && Stored(pager.view, r)
      requires var kids := InsertAt(t.kids[i := l], i + 1, r);
               KidsOwned(kids, pager.State()) && KidIds(kids)[id] == 0
      requires 1 <= id < pager.header.pageCount && FreeTimes(pager.State(), id) == 0
      modifies pager, n
      ensures pager.Valid()
      ensures Realizes(pager.view, pager.State(), AdoptChild(t, i, Split(l, sep, r, old(pager.State()))),
                       ok, splitKey, newSibling)
      ensures CarefulAt(old(pager.Now()), pager.Now(), id)
    {
      hide Pager.Valid, Ids, KidIds, SplitNode, Owned, FileKept, WalksKept;
      ghost var before, v, s := t.(kids := t.kids[i := l]), pager.view, pager.Now();
      ghost var seps, kids := InsertAt(t.seps, i, sep), InsertAt(t.kids[i := l], i + 1, r);
      AdoptEntry(n, i, sep, newChild);
      RootIdsSpliced(t.kids, i, l, r);
      SplicedStored(pager.view, t.kids[i := l], i, l, r);
      assert StoredAll(pager.view, kids);
      var size := n.InternalNodeSize();
      if size > CELL_AREA_SIZE {
        SplicedHolds(t.kids, i, l, r);
        ok, splitKey, newSibling := SplitInternal(id, n, before, seps, kids);
        return;
      }
      ok := WriteNode(id, n);
      RootWritten(v, pager.view, Trees.Node(id, seps, kids));
      NodeRewritten(s, pager.Now(), id);
      return ok, None, 0;
    }

    method CutInternal(n: Node, mid: nat, ghost kids: seq<u32>) returns (newInternal: Node)
      requires n.Valid() && n.nodeType == NODE_INTERNAL && n.children + [n.rightPtr] == kids
      requires mid < |n.keys|
      modifies n
      ensures fresh(newInternal) && newInternal.Valid() && n.Valid()
      ensures newInternal.Val() == InnerVal(old(n.keys)[mid + 1..], kids[mid + 1..])
      ensures n.Val() == InnerVal(old(n.keys)[..mid], kids[..mid + 1])
    {
      newInternal := new Node.MakeInternal();
      newInternal.keys := n.keys[mid + 1..];
      if mid + 1 < |n.children| {
        newInternal.children := n.children[mid + 1..];
      }
      newInternal.rightPtr := n.rightPtr;
      assert newInternal.children + [newInternal.rightPtr] == kids[mid + 1..];
      n.keys := n.keys[..mid];
      n.children := n.children[..mid + 1];
      if |n.children| > 0 {
        n.rightPtr := n.children[|n.children| - 1];
        n.children := n.children[..|n.children| - 1];
      }
      assert n.children + [n.rightPtr] == kids[..mid + 1];
    }

    method SplitInternal(id: u32, n: Node, ghost before: Tree, ghost seps: seq<bytes>, ghost kids: seq<Tree>)
      returns (ok: bool, splitKey: Option<bytes>, newSibling: u32)
      requires pager.Valid() && pager.header.pageCount < MAX_U32
      requires n.Valid() && seps != [] && |kids| == |seps| + 1 && n.Val() == InnerVal(seps, RootIds(kids))
      requires before.Node? && before.id == id && Stored(pager.view, before) && StoredAll(pager.view, kids)
      requires KidsOwned(kids, pager.State()) && KidIds(kids)[id] == 0
      requires forall p: u32 :: KidIds(before.kids)[p] <= KidIds(kids)[p]
      requires 1 <= id < pager.header.pageCount && FreeTimes(pager.State(), id) == 0
      modifies pager, n
      ensures pager.Valid()
      ensures Realizes(pager.view, pager.State(), SplitNode(before, seps, kids, old(pager.State())),
                       ok, splitKey, newSibling)
      ensures CarefulAt(old(pager.Now()), pager.Now(), id)
    {
      hide Pager.Valid, Stored, StoredAll, Ids, KidIds, SplitNode, Conserves, FileKept, CarefulAt, Handed, TwoWritten,
           LinkOf, KidsOwned, Realizes, NewPage, InnerSize;
      ghost var a, s := pager.State(), pager.Now();
      StoredInner(s.view, before);
      pager.FreeIsOwned();
      var mid := |n.keys| / 2;
      var promoteKey := n.keys[mid];
      var newInternal := CutInternal(n, mid, RootIds(kids));
      var newPageID := pager.AllocatePage();
      ghost var s1 := pager.Now();
      HandedApart(s, s1, id, newPageID);
      var first, second := WriteHalves(id, n, newPageID, newInternal);
      SplitIsNewPage(s, s1, pager.Now(), id, newPageID);
      SplitNodeRealized(s.view, pager.view, before, seps, kids, a, first, second);
      InnerLink(pager.view[id], s.view[id], first, n.Val());
      PageChanges.NodeSplit(s, pager.Now(), id);
      return second, if second then Some(promoteKey) else None, newPageID;
    }

    /** The loop of insertLeaf: where the key is, or where it belongs. */
    method FindSlot(n: Node, key: bytes, ghost ents: seq<Entry>) returns (pos: nat, found: bool)
      requires n.Valid() && n.nodeType == NODE_LEAF && Zip(n.keys, n.values) == ents
      ensures pos == Position(ents, key) && found == Present(ents, key)
    {
      pos := 0;
      while pos < |n.keys|
        invariant pos <= |n.keys| == |ents|
        invariant forall j :: 0 <= j < pos ==> Less(ents[j].key, key)
      {
        var cmp := Compare(key, n.keys[pos]);
        Trichotomy(key, n.keys[pos]);
        assert ents[pos].key == n.keys[pos];
        if cmp == 0 {
          PositionUnique(ents, key, pos);
          return pos, true;
        }
        if cmp < 0 {
          PositionUnique(ents, key, pos);
          return pos, false;
        }
        pos := pos + 1;
      }
      PositionUnique(ents, key, pos);
      return pos, false;
    }

    method UpdateLeaf(id: u32, n: Node, key: bytes, value: bytes, pos: nat, ghost t: Tree)
      returns (ok: bool, splitKey: Option<bytes>, newChild: u32)
      requires Ready(id, t, 1) && t.Leaf? && n.Valid() && n.Val() == NodeOf(t)
      requires pos == Position(t.ents, key) && pos < |t.ents| && t.ents[pos].key == key
      modifies pager, n
      ensures pager.Valid()
      ensures Realizes(pager.view, pager.State(), Trees.InsertLeaf(t, key, value, old(pager.State())),
                       ok, splitKey, newChild)
      ensures !ok && Present(LeafFor(t, key).ents, key) ==> pager.view == old(pager.view)
      ensures Careful(old(pager.Now()), pager.Now(), t, key, value)
    {
      hide Pager.Valid, FileKept, WalksAfter;
      ghost var s := pager.Now();
      OwnedRoot(t, pager.State());
      StoredLeaf(s.view, t);
      n.values := n.values[pos := value];
      assert Zip(n.keys, n.values) == t.ents[pos := Entry(key, value)];
      ok := WriteNode(id, n);
      LeafRewritten(s, pager.Now(), t, key, value);
      return ok, None, 0;
    }

    method ExtendLeaf(id: u32, n: Node, key: bytes, value: bytes, pos: nat, ghost t: Tree)
      returns (ok: bool, splitKey: Option<bytes>, newChild: u32)
      requires Ready(id, t, 1) && t.Leaf? && n.Valid() && n.Val() == NodeOf(t)
      requires pos == Position(t.ents, key) && !Present(t.ents, key)
      modifies pager, n
      ensures pager.Valid()
      ensures Realizes(pager.view, pager.State(), Trees.InsertLeaf(t, key, value, old(pager.State())),
                       ok, splitKey, newChild)
      ensures !ok && Present(LeafFor(t, key).ents, key) ==> pager.view == old(pager.view)
      ensures Careful(old(pager.Now()), pager.Now(), t, key, value)
    {
      hide Pager.Valid, Ids, KidIds, AtMostDeep, Trees.SplitLeaf, Stored, FreeTimes, FileKept, WalksAfter, Careful;
      ghost var v, s := pager.view, pager.Now();
      OwnedRoot(t, pager.State());
      n.keys := InsertAt(n.keys, pos, key);
      n.values := InsertAt(n.values, pos, value);
      assert Zip(n.keys, n.values) == InsertAt(t.ents, pos, Entry(key, value));
      var size := n.LeafNodeSize();
      if size > CELL_AREA_SIZE {
        ok, splitKey, newChild := SplitLeaf(id, n, key, value, t, Upsert(t.ents, key, value));
        return;
      }
      StoredLeaf(v, t);
      ok := WriteNode(id, n);
      RootWritten(v, pager.view, t.(ents := Upsert(t.ents, key, value)));
      StoredLeaf(pager.view, t.(ents := Upsert(t.ents, key, value)));
      LeafRewritten(s, pager.Now(), t, key, value);
      return ok, None, 0;
    }

    method InsertLeaf(id: u32, n: Node, key: bytes, value: bytes, ghost t: Tree)
      returns (ok: bool, splitKey: Option<bytes>, newChild: u32)
      requires Ready(id, t, 1) && t.Leaf? && n.Valid() && n.Val() == NodeOf(t)
      modifies pager, n
      ensures pager.Valid()
      ensures Realizes(pager.view, pager.State(), Trees.InsertLeaf(t, key, value, old(pager.State())),
                       ok, splitKey, newChild)
      ensures !ok && Present(LeafFor(t, key).ents, key) ==> pager.view == old(pager.view)
      ensures Careful(old(pager.Now()), pager.Now(), t, key, value)
    {
      hide Pager.Valid;
      var pos, found := FindSlot(n, key, t.ents);
      if found {
        ok, splitKey, newChild := UpdateLeaf(id, n, key, value, pos, t);
      } else {
        ok, splitKey, newChild := ExtendLeaf(id, n, key, value, pos, t);
      }
    }

    /** The upper half moves to a new node. */
    method CutLeaf(n: Node, mid: nat, ghost ents: seq<Entry>, ghost next: u32) returns (newLeaf: Node)
      requires n.Valid() && n.Val() == LeafVal(ents, next) && mid <= |ents|
      modifies n
      ensures fresh(newLeaf) && newLeaf.Valid() && newLeaf.Val() == LeafVal(ents[mid..], next)
      ensures newLeaf.nodeType == NODE_LEAF
      ensures n.Valid() && n.nodeType == NODE_LEAF && n.Val() == LeafVal(ents[..mid], next)
    {
      newLeaf := new Node.MakeLeaf();
      newLeaf.keys := n.keys[mid..];
      newLeaf.values := n.values[mid..];
      newLeaf.rightPtr := n.rightPtr;
      assert Zip(newLeaf.keys, newLeaf.values) == ents[mid..];
      n.keys := n.keys[..mid];
      n.values := n.values[..mid];
      assert Zip(n.keys, n.values) == ents[..mid];
    }

    method SplitLeaf(id: u32, n: Node, key: bytes, value: bytes, ghost t: Tree, ghost ents: seq<Entry>)
      returns (ok: bool, splitKey: Option<bytes>, newChild: u32)
      requires Ready(id, t, 1) && t.Leaf? && n.Valid() && n.Val() == LeafVal(ents, t.next)
      requires ents == Upsert(t.ents, key, value) && !Present(t.ents, key) && LeafSize(ents) > CELL_AREA_SIZE
      modifies pager, n
      ensures pager.Valid()
      ensures Realizes(pager.view, pager.State(), Trees.SplitLeaf(t, ents, old(pager.State())), ok, splitKey, newChild)
      ensures Careful(old(pager.Now()), pager.Now(), t, key, value)
    {
      hide Pager.Valid, Stored, Ids, AtMostDeep, Realizes, Trees.SplitLeaf, FileKept, Careful, Upsert, Present,
           Handed, TwoWritten, LeafChange, NewPage;
      ghost var a, s := pager.State(), pager.Now();
      OwnedRoot(t, a);
      StoredLeaf(s.view, t);
      pager.FreeIsOwned();
      var mid := |n.keys| / 2;
      var newLeaf := CutLeaf(n, mid, ents, t.next);
      var newPageID := pager.AllocatePage();
      ghost var s1 := pager.Now();
      HandedApart(s, s1, id, newPageID);
      n.rightPtr := newPageID;
      assert n.Val() == LeafVal(ents[..mid], newPageID);
      var first, second := WriteHalves(id, n, newPageID, newLeaf);
      SplitIsNewPage(s, s1, pager.Now(), id, newPageID);
      SplitLeafRealized(s.view, pager.view, t, ents, a, first, second);
      ZerosAreDead();
      SplitChange(t.ents, key, value, newPageID, first, second);
      LeafSplit(s, pager.Now(), t, key, value);
      if !second {
        return false, None, newPageID;
      }
      return true, Some(newLeaf.keys[0]), newPageID;
    }

    // ---------- Put ----------

    /** A split root: one more page above the two halves. */
    method GrowRoot(rootID: u32, newKey: bytes, newChildID: u32, ghost l: Tree, ghost r: Tree) returns (ok: bool)
      requires pager.Valid() && pager.header.pageCount < MAX_U32 && Stored(pager.view, l) && Stored(pager.view, r)
      requires l.id == rootID && r.id == newChildID && KidsOwned([l, r], pager.State())
      modifies pager
      ensures pager.Valid() && pager.State() == Pop(old(pager.State())).1
      ensures ok <==> InnerSize([newKey]) <= CELL_AREA_SIZE
      ensures ok ==> pager.header.root == Pop(old(pager.State())).0
                     && Stored(pager.view, Trees.Node(Pop(old(pager.State())).0, [newKey], [l, r]))
      ensures !ok ==> pager.header.root == old(pager.header.root) && Stored(pager.view, l)
      ensures WalksKept(old(pager.view), old(pager.State()), pager.view, pager.State())
    {
      hide Pager.Valid, Ids, KidIds, FileKept, WalksKept;
      ghost var a, v, s := pager.State(), pager.view, pager.Now();
      pager.FreeIsOwned();
      KidsAvoidNewPage([l, r], a);
      var newRootID := pager.AllocatePage();
      KidsKeptByAllocation(v, pager.view, [l, r], a);
      assert [l, r][0] == l;
      var newRoot := new Node.MakeInternal();
      newRoot.keys := newRoot.keys + [newKey];
      newRoot.children := newRoot.children + [rootID];
      newRoot.rightPtr := newChildID;
      ghost var root := Trees.Node(newRootID, [newKey], [l, r]);
      assert newRoot.Val() == NodeOf(root);
      ghost var v1 := pager.view;
      ok := WriteNode(newRootID, newRoot);
      RootAdded(s, pager.Now());
      if !ok {
        return false;
      }
      RootWritten(v1, pager.view, root);
      pager.SetRootPage(newRootID);
      return true;
    }

    /** The pages become those of PutTree, whatever the outcome. */
    method InsertAtRoot(key: bytes, value: bytes) returns (ok: bool)
      requires Valid() && Roomy(pager.State()) && Legal(key, value)
      modifies this, pager
      ensures pager.Valid() && pager.header.root == tree.id && Stored(pager.view, tree)
      ensures var r := PutTree(old(tree), key, value, old(pager.State()));
              tree == r.t && pager.State() == r.a && ok == r.Done?
      ensures !ok ==> FileKept(old(pager.Now()), pager.Now())
      ensures WalksAfter(old(pager.view), old(pager.State()), pager.view, pager.State(), old(tree), key, value)
      ensures !ok && key in old(Map()) ==> pager.view == old(pager.view)
    {
      hide Pager.Valid, WF, Owned, Careful, FileKept, WalksAfter, WalksKept, Contents, Realizes;
      ghost var t, a, s := tree, pager.State(), pager.Now();
      ghost var h, r := LeftDepth(t), Trees.Insert(t, key, value, a);
      RoomForPut(t, a);
      PutKeepsShape(t, h, key, value, a);
      InsertKeepsRoot(t, key, value, a);
      StoredKeyIsPresent(t, h, key);
      var rootID := pager.header.root;
      var newKey, newChildID;
      ok, newKey, newChildID := Insert(rootID, key, value, t, h);
      RealizesInsert(pager.view, pager.State(), r, ok, newKey, newChildID);
      CarefulParts(s, pager.Now(), t, key, value);
      if !ok || newKey == None {
        tree := r.t;
        return ok;
      }
      RootHalvesOwned(t, h, key, value, a);
      ghost var s1 := pager.Now();
      ok := GrowRoot(rootID, newKey.value, newChildID, r.left, r.right);
      WalksAboveRoot(s, s1, pager.Now(), t, key, value);
      tree := PutTree(t, key, value, a).t;
    }

    method Flush()
      requires Valid()
      modifies pager
      ensures Valid() && pager.header == old(pager.header) && pager.State() == old(pager.State())
      ensures pager.view == old(pager.view)
      ensures Durable()
    {
      hide TreeOn;
      pager.Flush();
      pager.FlushedIsImage();
      TreeOnElsewhere(pager.view, pager.State(), pager.file[..pager.header.pageCount], pager.State(), tree);
    }

    /** What a NodeOverflow leaves of the map and costs in pages. */
    twostate predicate NothingButLosses(key: bytes, value: bytes)
      reads this, pager
      requires old(Shaped(tree))
    {
      && (key in old(Map()) ==>
            tree == old(tree) && pager.view == old(pager.view) && pager.State() == old(pager.State()))
      && (key !in old(Map()) ==> OnlyLoses(old(Map()), Map(), key, value)
                                 && LostPages(tree, pager.State()) > LostPages(old(tree), old(pager.State())))
      && (old(Chained(tree)) ==> (tree == old(tree) <==> FailsBeforeWriting(old(tree), key, value)))
    }

    /**
     The chain changes at the leaf for the key and nowhere else. Once listing
     fails it always will. From a whole chain it fails exactly when the leaf's
     new half was lost; where a node above broke, listing shows all old
     entries and the new one, those that Get no longer finds included.
     */
    twostate predicate ChainMoves(key: bytes, value: bytes)
      requires old(Valid()) && Valid()
      reads this, pager
    {
      var l := LeafFor(old(tree), key);
      && LeafWalk() == AfterPut(old(LeafWalk()), old(tree), key, value, old(pager.State()))
      && (!old(Listable()) ==> !Listable())
      && (old(Chained(tree)) ==> (Listable() <==> !UpperHalfBreaks(l.ents, key, value)))
      && (old(Chained(tree)) && Listable() && FateOf(old(tree), key, value).Breaks? ==>
            FailsBeforeWriting(old(tree), key, value) || Listed() == Upsert(Entries(old(tree)), key, value))
    }

    lemma WalkOfWhole()
      requires Valid() && Chained(tree)
      ensures Whole(LeafWalk(), tree)
    {
      ChainIsWalk(pager.view, tree, pager.State());
    }

    /** Put behind its checks, before the flush. */
    method PutLegal(key: bytes, value: bytes) returns (ok: bool)
      requires Valid() && Roomy(pager.State()) && Legal(key, value)
      modifies this, pager
      ensures Valid() && ChainMoves(key, value)
      ensures var p := PutTree(old(tree), key, value, old(pager.State()));
              tree == p.t && pager.State() == p.a && ok == p.Done?
      ensures ok <==> !FateOf(old(tree), key, value).Breaks?
      ensures ok ==> Map() == old(Map())[key := value]
      ensures ok ==> (old(Tight()) ==> Tight()) && (old(Chained(tree)) ==> Chained(tree))
      ensures !ok ==> NothingButLosses(key, value)
      ensures !ok ==> FileKept(old(pager.Now()), pager.Now()) && FreesNone(old(pager.State()), pager.State())
      ensures !ok ==> tree.id == old(tree.id)
    {
      hide Pager.Valid, WF, Owned, FileKept, WalksAfter, Contents, FateOf, LostPages, OnlyLoses, FailsBeforeWriting,
           UpperHalfBreaks, PutTree, NoLeak, LeafFor, Stored, FirstLeaf, AfterPut, ShowsTree, EntriesAlong, Upsert,
           Whole;
      ghost var t, a, s := tree, pager.State(), pager.Now();
      ghost var c := LeafWalk();
      pager.FreeIsOwned();
      PoppedPage(a);
      RoomForPut(t, a);
      PutFreesNone(t, LeftDepth(t), key, value, a);
      PutSummary(t, a, key, value);
      if Chained(t) {
        WalkOfWhole();
        ListsIff(c, t, key, value, a);
        if FateOf(t, key, value).Breaks? && !FailsBeforeWriting(t, key, value)
           && !UpperHalfBreaks(LeafFor(t, key).ents, key, value) {
          BreaksAbove(c, t, a, key, value);
        }
      }
      if c.end != 0 {
        DeadStaysDead(c, t, key, value, a);
      }
      ok := InsertAtRoot(key, value);
      ChainAfterPut(s.view, a, pager.view, pager.State(), t, key, value);
    }

    /** s was the state before, when the file held t: it still does, and what has changed since is only in the cache. */
    lemma FailedPutOnFile(s: Snap, t: Tree)
      requires Valid() && FileKept(s, pager.Now()) && FreesNone(s.A(), pager.State())
      requires IsImage(s.file, s.header, s.free) && s.header.root == t.id == tree.id
      requires TreeOn(s.file[..s.header.pageCount], t, s.A()) && |s.view| == s.header.pageCount
      requires forall p: u32 :: 1 <= p < |s.view| ==> s.file[p] == s.view[p]
      ensures OnFile(t) && (Durable() ==> tree == t)
      ensures tree == t && pager.view == s.view ==> Durable()
    {
      hide Pager.Valid, WF, FreeChain, EncodeHeader, ShowsTree;
      StillOnFile(s, pager.Now(), t);
      if Durable() {
        StoredUnique(pager.file[..pager.header.pageCount], tree, t);
      }
    }

    /**
     On success the map has the binding and the file alone holds the tree.
     NodeOverflow is reported exactly when a node on the way to the key breaks.
     For a key that was there this changes nothing. For a new one it costs at
     least a page and perhaps bindings, but only in the cache: the file still
     holds the old tree.
     */
    method Put(key: bytes, value: bytes) returns (r: Result<(), TreeError>)
      requires Valid() && Roomy(pager.State())
      modifies this, pager
      ensures Valid()
      ensures r.Failure? && r.error == EmptyKey <==> |key| == 0
      ensures r.Failure? && r.error == KeyTooLong <==> |key| > 255
      ensures r.Failure? && r.error == ValueTooLong <==> 1 <= |key| <= 255 && |value| > 3840
      ensures !(1 <= |key| <= 255 && |value| <= 3840) ==> r.Failure? && unchanged(this) && unchanged(pager)
      ensures r == Failure(NodeOverflow) <==> Legal(key, value) && FateOf(old(tree), key, value).Breaks?
      ensures Legal(key, value) ==>
                var p := PutTree(old(tree), key, value, old(pager.State()));
                && tree == p.t && pager.State() == p.a
                && r == if p.Done? then Success(()) else Failure(NodeOverflow)
      ensures r.Success? ==> Durable() && Map() == old(Map())[key := value]
      ensures r.Success? ==> (old(Tight()) ==> Tight()) && (old(Chained(tree)) ==> Chained(tree))
      ensures r == Failure(NodeOverflow) ==> NothingButLosses(key, value)
      ensures r.Failure? && old(Durable()) ==> OnFile(old(tree)) && (Durable() ==> tree == old(tree))
      ensures r.Failure? && old(Durable()) && key in old(Map()) ==> Durable()
      ensures Legal(key, value) ==> ChainMoves(key, value)
    {
      hide Pager.Valid, WF, Contents, LeafFor, AfterPut, ShowsTree, EntriesAlong, Upsert, FateOf,
           FailsBeforeWriting, UpperHalfBreaks, LostPages, OnlyLoses, IsImage, Owned, Stored, FileKept, PutTree;
      if |key| == 0 {
        return Failure(EmptyKey);
      }
      if |key| > MAX_KEY_SIZE {
        return Failure(KeyTooLong);
      }
      if |value| > MAX_VALUE_SIZE {
        return Failure(ValueTooLong);
      }
      ghost var s, t, wasDurable := pager.Now(), tree, Durable();
      var ok := PutLegal(key, value);
      if !ok {
        if wasDurable {
          FailedPutOnFile(s, t);
        }
        return Failure(NodeOverflow);
      }
      Flush();
      return Success(());
    }

    // ---------- Get and Has ----------

    /** The loop over a leaf's keys, the same for search and deletion. */
    method FindEqual(n: Node, key: bytes, ghost ents: seq<Entry>) returns (i: nat)
      requires n.Valid() && n.nodeType == NODE_LEAF && Zip(n.keys, n.values) == ents
      ensures i == FindKey(ents, key)
    {
      i := 0;
      while i < |n.keys|
        invariant i <= |n.keys| == |ents|
        invariant forall j :: 0 <= j < i ==> ents[j].key != key
      {
        if n.keys[i] == key {
          FindKeyUnique(ents, key, i);
          return;
        }
        i := i + 1;
      }
      FindKeyUnique(ents, key, i);
    }

    method Search(id: u32, key: bytes, ghost t: Tree) returns (r: Result<bytes, TreeError>)
      requires pager.Valid() && Shaped(t) && Stored(pager.view, t) && t.id == id && Owned(t, pager.State())
      modifies pager`buffer
      ensures pager.Valid()
      ensures r == match Trees.Get(t, key) case Some(v) => Success(v) case None => Failure(KeyNotFound)
      decreases t
    {
      hide Pager.Valid;
      OwnedRoot(t, pager.State());
      var node := ReadNode(id);
      var n := node.value;
      if n.nodeType == NODE_LEAF {
        var i := FindEqual(n, key, t.ents);
        if i < |n.keys| {
          return Success(n.values[i]);
        }
        return Failure(KeyNotFound);
      }
      var childIdx := FindChild(n, key);
      KidOwned(t, childIdx, pager.State());
      StoredKid(pager.view, t, childIdx);
      r := Search(ChildAt(n, childIdx), key, t.kids[childIdx]);
    }

    method Get(key: bytes) returns (r: Result<bytes, TreeError>)
      requires Valid()
      modifies pager`buffer
      ensures Durable() == old(Durable())
      ensures Valid()
      ensures r == if key in Map() then Success(Map()[key]) else Failure(KeyNotFound)
    {
      hide Pager.Valid, WF, Contents;
      GetIsMapLookup(tree, LeftDepth(tree), key);
      r := Search(pager.header.root, key, tree);
    }

    method Has(key: bytes) returns (r: bool)
      requires Valid()
      modifies pager`buffer
      ensures Durable() == old(Durable())
      ensures Valid() && (r <==> key in Map())
    {
      var v := Get(key);
      if v == Failure(KeyNotFound) {
        return false;
      }
      return true;
    }

    // ---------- Delete ----------

    method RemoveFromLeaf(id: u32, n: Node, i: nat, key: bytes, ghost t: Tree) returns (deleted: bool)
      requires pager.Valid() && t.Leaf? && Stored(pager.view, t) && t.id == id && Owned(t, pager.State())
      requires n.Valid() && n.Val() == NodeOf(t) && i == FindKey(t.ents, key) && i < |t.ents|
      modifies pager`buffer, pager`dirty, pager`view, n
      ensures pager.Valid() && deleted && Stored(pager.view, DeleteTree(t, key))
      ensures Untouched(old(pager.view), pager.view, Ids(t), old(pager.State()))
      ensures WalksChanged(old(pager.view), old(pager.State()), pager.view, pager.State(), id, Now(Remove(t.ents, key)))
    {
      hide Pager.Valid, Ids, LeafSize, Owned, WalksChanged, LinkOf, KidIds, FindKey, Untouched;
      ghost var s := pager.Now();
      OwnedRoot(t, pager.State());
      n.keys := RemoveAt(n.keys, i);
      n.values := RemoveAt(n.values, i);
      assert Zip(n.keys, n.values) == RemoveAt(t.ents, i);
      ShorterLeafFits(s.view[id], t, key);
      StoredLeaf(s.view, t);
      deleted := WriteNode(id, n);
      RootWritten(s.view, pager.view, DeleteTree(t, key));
      StoredLeaf(pager.view, DeleteTree(t, key));
      LeafShortened(s, pager.Now(), t, key);
    }

    method DeleteFromNode(id: u32, key: bytes, ghost t: Tree) returns (deleted: bool)
      requires pager.Valid() && Shaped(t) && Stored(pager.view, t) && t.id == id && Owned(t, pager.State())
      modifies pager`buffer, pager`dirty, pager`view
      ensures pager.Valid()
      ensures Stored(pager.view, DeleteTree(t, key))
      ensures deleted <==> Trees.Get(t, key).Some?
      ensures !deleted ==> pager.view == old(pager.view)
      ensures Untouched(old(pager.view), pager.view, Ids(t), old(pager.State()))
      ensures var l := LeafFor(t, key);
              WalksChanged(old(pager.view), old(pager.State()), pager.view, pager.State(),
                           l.id, Now(Remove(l.ents, key)))
      decreases t
    {
      hide Pager.Valid, Ids, KidIds, WellFormed, LeafSize, InnerSize, Owned, WalksChanged, Untouched;
      ghost var v, a, s := pager.view, pager.State(), pager.Now();
      OwnedRoot(t, a);
      var node := ReadNode(id);
      var n := node.value;
      if n.nodeType == NODE_LEAF {
        var i := FindEqual(n, key, t.ents);
        if i < |n.keys| {
          deleted := RemoveFromLeaf(id, n, i, key, t);
          return;
        }
        StoredLeaf(v, t);
        LeafShortened(s, s, t, key);
        return false;
      }
      SameLeaf(t, key);
      hide Stored, Shaped;
      var childIdx := FindChild(n, key);
      KidOwned(t, childIdx, a);
      StoredKid(v, t, childIdx);
      deleted := DeleteFromNode(ChildAt(n, childIdx), key, t.kids[childIdx]);
      ChildReturned(v, pager.view, t, childIdx, DeleteTree(t.kids[childIdx], key), a);
    }

    /** Removes exactly the key, flushed on return; an absent key changes nothing. No page changes its place. */
    method Delete(key: bytes) returns (r: Result<(), TreeError>)
      requires Valid()
      modifies this, pager
      ensures Valid() && tree == DeleteTree(old(tree), key) && pager.State() == old(pager.State())
      ensures r == if key in old(Map()) then Success(()) else Failure(KeyNotFound)
      ensures Map() == old(Map()) - {key}
      ensures (old(Tight()) ==> Tight()) && (old(Chained(tree)) ==> Chained(tree))
      ensures LeafWalk() == AfterDelete(old(LeafWalk()), old(tree), key)
      ensures r.Success? ==> Durable()
      ensures r.Failure? ==> tree == old(tree) && pager.view == old(pager.view) && (old(Durable()) ==> Durable())
    {
      hide Pager.Valid, WF, Owned, Contents, WalksChanged, ShowsTree, AfterDelete;
      DeleteSummary(tree, pager.State(), key);
      ghost var v := pager.view;
      var deleted := DeleteFromNode(pager.header.root, key, tree);
      ChainAfterDelete(v, pager.view, pager.State(), tree, key);
      tree := DeleteTree(tree, key);
      if !deleted {
        return Failure(KeyNotFound);
      }
      Flush();
      return Success(());
    }

    // ---------- listing along the leaf chain ----------

    method FindLeftmostLeaf(id: u32, ghost t: Tree) returns (leafID: u32)
      requires pager.Valid() && Shaped(t) && Stored(pager.view, t) && t.id == id && Owned(t, pager.State())
      modifies pager`buffer
      ensures pager.Valid() && leafID == FirstLeaf(t)
      decreases t
    {
      hide Pager.Valid;
      OwnedRoot(t, pager.State());
      var node := ReadNode(id);
      var n := node.value;
      if n.nodeType == NODE_LEAF {
        return id;
      }
      KidOwned(t, 0, pager.State());
      StoredKid(pager.view, t, 0);
      if |n.children| > 0 {
        leafID := FindLeftmostLeaf(n.children[0], t.kids[0]);
      } else {
        leafID := FindLeftmostLeaf(n.rightPtr, t.kids[0]);
      }
    }

    method StartWalk() returns (leafID: u32)
      requires Valid()
      modifies pager`buffer
      ensures Valid() && leafID == FirstLeaf(tree)
    {
      hide Pager.Valid, WF;
      leafID := FindLeftmostLeaf(pager.header.root, tree);
    }

    /** The next page of a walk that has rest before it; a page that cannot be read is its end. */
    method ReadOnWalk(leafID: u32, ghost rest: seq<Cell>, ghost end: u32) returns (r: Result<Node, ReadError>)
      requires Valid() && leafID != 0
      requires Walk(pager.view, pager.State(), leafID, rest, end) && Stops(pager.view, pager.State(), end)
      modifies pager`buffer
      ensures Valid() && LeafWalk() == old(LeafWalk())
      ensures r.Failure? ==> end != 0 && rest == [] && r.error == BadNode(LinkOf(pager.view[end]).e)
      ensures r.Success? ==>
                && fresh(r.value) && r.value.Valid() && r.value.nodeType == NODE_LEAF
                && rest != [] && rest[0] == Cell(leafID, Zip(r.value.keys, r.value.values))
                && Walk(pager.view, pager.State(), r.value.rightPtr, rest[1..], end)
    {
      hide Pager.Valid, TreeOn;
      r := ReadNode(leafID);
    }

    /**
     The walk ends, in every state, and lists the keys on the leaves it meets.
     It fails exactly when it comes to a page that was never written. Otherwise
     it lists every key of the map, besides those on leaves the tree has lost;
     while the chain is whole, in strictly increasing order, each once.
     */
    method Keys() returns (r: Result<seq<bytes>, ReadError>)
      requires Valid()
      modifies pager`buffer
      ensures Durable() == old(Durable())
      ensures Valid() && LeafWalk() == old(LeafWalk())
      ensures r == if Listable() then Success(KeysOf(Listed()))
                   else Failure(BadNode(LinkOf(pager.view[LeafWalk().end]).e))
      ensures r.Success? ==>
                multiset(Listed()) == multiset(Entries(tree)) + multiset(Strays(LeafWalk(), tree))
      ensures Chained(tree) ==> r == Success(KeysOf(Entries(tree))) && Lists(r.value, Map())
    {
      hide Pager.Valid, TreeOn, Walk, Stops, EntriesAlong, KeysOf, Strays, Lists, LinkOf, Entries;
      WalkHolds();
      ghost var c := LeafWalk();
      ghost var rest := c.cells;
      var leafID := StartWalk();
      var allKeys := [];
      assert [] + KeysOf(EntriesAlong(c.cells)) == KeysOf(EntriesAlong(c.cells));
      while leafID != 0
        invariant Valid() && LeafWalk() == c && Walk(pager.view, pager.State(), leafID, rest, c.end)
        invariant allKeys + KeysOf(EntriesAlong(rest)) == KeysOf(EntriesAlong(c.cells))
        decreases |rest|
      {
        var node := ReadOnWalk(leafID, rest, c.end);
        if node.Failure? {
          return Failure(node.error);
        }
        var n := node.value;
        ghost var was := allKeys;
        for j := 0 to |n.keys|
          invariant Valid() && LeafWalk() == c && allKeys == was + n.keys[..j]
        {
          allKeys := allKeys + [n.keys[j]];
        }
        CellFirst(rest);
        KeysOfConcat(n.keys, n.values, EntriesAlong(rest[1..]));
        AppendAssociates(was, n.keys, KeysOf(EntriesAlong(rest[1..])));
        leafID, rest := n.rightPtr, rest[1..];
      }
      WalkOver(pager.view, pager.State(), rest, c.end);
      NoEntries();
      NoKeys();
      assert allKeys + [] == allKeys;
      return Success(allKeys);
    }

    lemma WalkHolds()
      requires Valid()
      ensures WalkIs(pager.view, pager.State(), FirstLeaf(tree), LeafWalk())
      ensures Listable() ==> multiset(Listed()) == multiset(Entries(tree)) + multiset(Strays(LeafWalk(), tree))
      ensures Chained(tree) ==> Listable() && Listed() == Entries(tree) && Lists(KeysOf(Entries(tree)), Map())
    {
      hide Pager.Valid, WF, Owned, Stored, Strays;
      if Listable() {
        ListingIs(LeafWalk(), tree);
      }
      if Chained(tree) {
        WalkOfWhole();
        CellsHoldEntries(tree);
        KeysListMap(tree, LeftDepth(tree));
      }
    }

    /** The callback on every entry of one leaf, until it answers with an error. */
    method VisitLeaf(fn: seq<Entry> -> bool, n: Node, was: seq<Entry>) returns (calls: seq<Entry>, stop: bool)
      requires n.Valid() && n.nodeType == NODE_LEAF && forall i :: 0 < i <= |was| ==> !fn(was[..i])
      ensures var all := was + Zip(n.keys, n.values); calls <= all && (!stop ==> calls == all)
      ensures forall i :: 0 < i < |calls| ==> !fn(calls[..i])
      ensures if stop then calls != [] && fn(calls) else calls != [] ==> !fn(calls)
    {
      calls, stop := was, false;
      ghost var ents := Zip(n.keys, n.values);
      for j := 0 to |n.keys|
        invariant calls == was + ents[..j]
        invariant forall i :: 0 < i <= |calls| ==> !fn(calls[..i])
      {
        ghost var before := calls;
        calls := calls + [Entry(n.keys[j], n.values[j])];
        assert calls == was + ents[..j + 1];
        assert forall i :: 0 < i < |calls| ==> calls[..i] == before[..i];
        assert calls[..|calls|] == calls;
        if fn(calls) {
          return calls, true;
        }
      }
      assert calls[..|calls|] == calls;
    }

    /**
     The calls ForEach makes, in order. fn says of the calls made so far
     whether the callback answers the last of them with an error.
     */
    method ForEach(fn: seq<Entry> -> bool) returns (calls: seq<Entry>, outcome: WalkOutcome)
      requires Valid()
      modifies pager`buffer
      ensures Durable() == old(Durable())
      ensures Valid() && LeafWalk() == old(LeafWalk()) && calls <= Listed()
      ensures forall i :: 0 < i < |calls| ==> !fn(calls[..i])
      ensures outcome == StoppedByCallback <==> calls != [] && fn(calls)
      ensures outcome != StoppedByCallback ==>
                && calls == Listed()
                && outcome == if Listable() then Completed
                              else Unreadable(BadNode(LinkOf(pager.view[LeafWalk().end]).e))
      ensures Chained(tree) ==> Listable() && Listed() == Entries(tree)
    {
      hide Pager.Valid, TreeOn, Walk, Stops, EntriesAlong, KeysOf, Strays, Lists, LinkOf, Entries;
      WalkHolds();
      ghost var c := LeafWalk();
      ghost var rest := c.cells;
      var leafID := StartWalk();
      calls := [];
      while leafID != 0
        invariant Valid() && LeafWalk() == c && Walk(pager.view, pager.State(), leafID, rest, c.end)
        invariant calls + EntriesAlong(rest) == EntriesAlong(c.cells)
        invariant forall i :: 0 < i <= |calls| ==> !fn(calls[..i])
        decreases |rest|
      {
        var node := ReadOnWalk(leafID, rest, c.end);
        if node.Failure? {
          NoEntries();
          assert calls[..|calls|] == calls;
          return calls, Unreadable(node.error);
        }
        var n := node.value;
        ghost var was, ents, more := calls, Zip(n.keys, n.values), EntriesAlong(rest[1..]);
        CellFirst(rest);
        var stop;
        calls, stop := VisitLeaf(fn, n, calls);
        assert calls[..|calls|] == calls;
        Associate(was, ents, more);
        if stop {
          PrefixGrows(calls, was + ents, more);
          return calls, StoppedByCallback;
        }
        leafID, rest := n.rightPtr, rest[1..];
      }
      WalkOver(pager.view, pager.State(), rest, c.end);
      NoEntries();
      assert calls[..|calls|] == calls;
      return calls, Completed;
    }

    /** Counts what ForEach visits, up to a page that cannot be read; while the chain is whole, the keys of the map. */
    method Count() returns (count: nat, err: Option<ReadError>)
      requires Valid()
      modifies pager`buffer
      ensures Durable() == old(Durable())
      ensures Valid() && LeafWalk() == old(LeafWalk()) && count == |Listed()| && (err == None <==> Listable())
      ensures Chained(tree) ==> err == None && count == |Map()|
    {
      var calls, outcome := ForEach(c => false);
      count := 0;
      for i := 0 to |calls|
        invariant count == i
        invariant Valid() && calls == Listed()
      {
        count := count + 1;
      }
      WalkHolds();
      err := if outcome.Unreadable? then Some(outcome.e) else None;
    }

    method DepthFrom(id: u32, ghost t: Tree) returns (d: nat)
      requires pager.Valid() && Shaped(t) && Stored(pager.view, t) && t.id == id && Owned(t, pager.State())
      modifies pager`buffer
      ensures pager.Valid() && d == LeftDepth(t)
      decreases t
    {
      hide Pager.Valid;
      OwnedRoot(t, pager.State());
      var node := ReadNode(id);
      var n := node.value;
      if n.nodeType == NODE_LEAF {
        return 1;
      }
      KidOwned(t, 0, pager.State());
      StoredKid(pager.view, t, 0);
      var childID;
      if |n.children| > 0 {
        childID := n.children[0];
      } else {
        childID := n.rightPtr;
      }
      d := DepthFrom(childID, t.kids[0]);
      d := d + 1;
    }

    /** The leftmost path is as long as every other, and never longer than twelve pages. */
    method Depth() returns (d: nat)
      requires Valid()
      modifies pager`buffer
      ensures Durable() == old(Durable())
      ensures Valid() && EveryPath(tree, d) && 1 <= d <= 12
    {
      hide Pager.Valid;
      DepthIsUniform(tree, None, None, LeftDepth(tree), None, 1);
      HeightBound(tree, LeftDepth(tree), pager.State());
      d := DepthFrom(pager.header.root, tree);
    }
  }

  /** What the file must hold for its tree to be taken over: the root page is 0 in a file without a tree. */
  ghost predicate Holds(pager: Pager, t: Tree)
    reads pager
  {
    pager.Valid() && pager.header.root == t.id && TreeOn(pager.view, t, pager.State())
  }

  /**
   A file without a tree gets an empty leaf as root, which at first is only in
   the cache; any other file is used as it is, with whatever tree it holds.
   */
  method NewBPlusTree(pager: Pager, ghost t: Tree) returns (tree: BPlusTree)
    requires pager.Valid()
    requires pager.header.root == 0 ==> pager.header.pageCount < MAX_U32
    modifies pager
    ensures fresh(tree) && tree.pager == pager
    ensures old(pager.header.root) == 0 ==> tree.Valid() && Chained(tree.tree)
                                            && tree.tree == Leaf(Pop(old(pager.State())).0, [], 0)
                                            && pager.State() == Pop(old(pager.State())).1
    ensures old(pager.header.root) == 0 && old(pager.State()) == FRESH.a ==>
              tree.tree == FRESH_DB.t && pager.State() == FRESH_DB.a && tree.Tight()
    ensures old(pager.header.root) == 0 && old(pager.free) == [] ==> !tree.Durable()
    ensures old(pager.header.root) != 0 ==> tree.tree == t && unchanged(pager) && (Holds(pager, t) ==> tree.Valid())
  {
    hide Pager.Valid, TreeOn, GoodTree, Chained, NoLeak, Owned, FileKept, LinkOf, FreeTimes;
    tree := new BPlusTree.Attach(pager, t);
    if pager.header.root == 0 {
      ghost var a, s := pager.State(), pager.Now();
      pager.FreeIsOwned();
      FirstRootIsGood(a);
      var rootID := pager.AllocatePage();
      var root := new Node.MakeLeaf();
      assert root.Val() == LeafVal([], 0);
      var ok := tree.WriteNode(rootID, root);
      FirstTree(pager.view, pager.State(), rootID);
      pager.SetRootPage(rootID);
      tree.tree := Leaf(rootID, [], 0);
      if s.free == [] {
        NotOnFile(tree);
      }
    }
  }

  lemma FirstRootIsGood(a: Alloc)
    requires 1 <= a.count < MAX_U32 && forall p: u32 :: FreeTimes(a, p) <= if 1 <= p < a.count then 1 else 0
    ensures var (id, b) := Pop(a);
            && GoodTree(Leaf(id, [], 0), b) && Chained(Leaf(id, [], 0)) && InUse(b, id)
            && (a == FRESH.a ==> id == 1 && b == FRESH_DB.a && NoLeak(Leaf(id, [], 0), b))
  {
    var (id, b) := Pop(a);
    forall p: u32
      ensures Ids(Leaf(id, [], 0))[p] + FreeTimes(b, p) <= if 1 <= p < b.count then 1 else 0
    {
      PopConserves(a, p);
      assert FreeTimes(a, p) <= if 1 <= p < a.count then 1 else 0;
      assert FreeTimes(a, id) <= if 1 <= id < a.count then 1 else 0;
    }
    assert Ids(Leaf(id, [], 0))[id] + FreeTimes(b, id) <= if 1 <= id < b.count then 1 else 0;
  }

  lemma FirstTree(view: seq<Page>, a: Alloc, id: u32)
    requires GoodTree(Leaf(id, [], 0), a) && |view| == a.count && InUse(a, id)
    requires DecodeNode(view[id]) == Success(LeafVal([], 0))
    ensures TreeOn(view, Leaf(id, [], 0), a)
  {
    var t := Leaf(id, [], 0);
    DepthIsUniform(t, None, None, 1, None, 1);
    assert Chained(t);
    ChainIsWalk(view, t, a);
    WholeShows(WalkFrom(view, a, id), t);
  }

  /** A page of zeros holds no node. */
  lemma NotOnFile(t: BPlusTree)
    requires t.tree.id < |t.pager.file| && t.pager.file[t.tree.id] == Zeros(PAGE_SIZE)
    ensures !t.Durable()
  {
    ZerosAreDead();
  }
}
