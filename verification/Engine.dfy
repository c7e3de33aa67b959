/** The storage engine: the tree in the file, the table of deadlines in memory. */
module Engines {
  import opened Wrappers
  import opened ByteStrings
  import opened FileHeaders
  import opened PageAllocation
  import opened Pagers
  import opened Trees
  import opened TreeShape
  import opened TreeContents
  import opened TreePages
  import opened TreeStore
  import opened TreeFailure
  import opened TreeRuns
  import opened TreeSummary
  import opened LeafWalks
  import opened Chains
  import opened PageChanges
  import opened BPlusTrees
  import opened Sessions
  import Expiry

  class Engine {
    var tree: BPlusTree
    var pager: Pager
    var ttls: map<bytes, int>

    /** Kept by every operation in every outcome. */
    ghost predicate Valid()
      reads this, tree, pager, tree.pager
    {
      pager == tree.pager && tree.Valid()
    }

    /** The engine as the machine of Sessions. */
    ghost function State(): Session
      requires Valid()
      reads this, tree, pager, tree.pager
    {
      Session(Db(tree.tree, pager.State()), tree.LeafWalk(), ttls)
    }

    lemma StateIsGood()
      requires Valid()
      ensures GoodSession(State())
    {
      hide WF, Owned, Stored, ShowsTree, LinkOf;
      WalkInUse(pager.view, pager.State(), FirstLeaf(tree.tree), tree.LeafWalk().cells, tree.LeafWalk().end);
    }

    /** Room in the file for one more Put. */
    ghost predicate HasRoom()
      reads this, pager
    {
      Roomy(pager.State())
    }

    constructor Attach(tree: BPlusTree)
      ensures this.tree == tree && pager == tree.pager && ttls == map[]
    {
      this.tree, pager, ttls := tree, tree.pager, map[];
    }

    /** In every outcome what the machine does; an error leaves the table of deadlines alone. */
    method Put(key: bytes, value: bytes, ttlSeconds: Expiry.i64, now: int) returns (r: Result<(), TreeError>)
      requires Valid() && HasRoom()
      modifies this, tree, pager
      ensures tree == old(tree) && pager == old(pager) && Valid()
      ensures State() == Next(old(State()), PutReq(key, value, ttlSeconds), now)
      ensures AnswerTo(old(State()), PutReq(key, value, ttlSeconds), now)
              == if r.Success? then Expiry.Stored else if r.error == NodeOverflow then Expiry.Failed else Expiry.Refused
      ensures r.Failure? && r.error != NodeOverflow <==> !(1 <= |key| <= 255 && |value| <= 3840)
      ensures r == Failure(NodeOverflow) <==> Legal(key, value) && FateOf(old(tree.tree), key, value).Breaks?
      ensures r.Success? ==> tree.Durable() && tree.Map() == old(tree.Map())[key := value]
      ensures r.Success? ==> (old(tree.Tight()) ==> tree.Tight()) && (old(Chained(tree.tree)) ==> Chained(tree.tree))
      ensures r.Failure? && old(tree.Durable()) ==> tree.OnFile(old(tree.tree))
    {
      hide BPlusTree.Durable, BPlusTree.Tight, BPlusTree.OnFile, Pager.Valid, Contents, PutTree, FateOf, LostPages,
           FailsBeforeWriting, UpperHalfBreaks, WF, LeafFor, AfterPut, Stored, Owned, OutcomeOf, EntriesAlong,
           ShowsTree;
      StateIsGood();
      PutAnswer(State(), key, value, ttlSeconds, now);
      r := tree.Put(key, value);
      if r.Failure? {
        return;
      }
      if ttlSeconds > 0 {
        ttls := ttls[key := Expiry.Deadline(now, ttlSeconds)];
      } else {
        ttls := ttls - {key};
      }
    }

    /** What reading and deleting keep of the tree. */
    twostate predicate Kept()
      reads this, tree, pager, tree.pager
    {
      && pager.State() == old(pager.State())
      && (old(tree.Tight()) ==> tree.Tight())
      && (old(Shaped(tree.tree) && Chained(tree.tree)) ==> Shaped(tree.tree) && Chained(tree.tree))
    }

    /** Removes an expired key; the tree cannot refuse, so ignoring its answer loses nothing. */
    method Bury(key: bytes)
      requires Valid()
      modifies this, tree, pager
      ensures tree == old(tree) && pager == old(pager)
      ensures Valid() && State() == Buried(old(State()), key) && Kept()
      ensures key in old(tree.Map()) ==> tree.Durable()
    {
      hide BPlusTree.Durable, BPlusTree.Tight, BPlusTree.Listable, Pager.Valid, Contents, DeleteTree, WF, Owned, Stored,
           WalkEnds;
      ttls := ttls - {key};
      var ignored := tree.Delete(key);
    }

    method Get(key: bytes, now: int) returns (r: Result<bytes, TreeError>)
      requires Valid()
      modifies this, tree, pager
      ensures tree == old(tree) && pager == old(pager)
      ensures Valid() && Kept() && State() == Next(old(State()), GetReq(key), now)
      ensures AnswerTo(old(State()), GetReq(key), now) == Expiry.Value(if r.Success? then Some(r.value) else None)
      ensures r.Failure? ==> r.error == KeyNotFound
    {
      hide BPlusTree.Durable, BPlusTree.Tight, Pager.Valid, Contents, DeleteTree, WF, Owned,
           Stored, AfterDelete, ShowsTree;
      if key in ttls {
        if now > ttls[key] {
          Bury(key);
          return Failure(KeyNotFound);
        }
      }
      r := tree.Get(key);
    }

    method Delete(key: bytes) returns (r: Result<(), TreeError>)
      requires Valid()
      modifies this, tree, pager
      ensures tree == old(tree) && pager == old(pager)
      ensures Valid() && Kept() && forall now :: State() == Next(old(State()), DeleteReq(key), now)
      ensures r == if key in old(tree.Map()) then Success(()) else Failure(KeyNotFound)
    {
      hide BPlusTree.Durable, BPlusTree.Tight, Pager.Valid, Contents, DeleteTree, WF, Owned,
           Stored, AfterDelete, ShowsTree;
      ttls := ttls - {key};
      r := tree.Delete(key);
    }

    method Has(key: bytes, now: int) returns (b: bool)
      requires Valid()
      modifies this, tree, pager
      ensures tree == old(tree) && pager == old(pager)
      ensures Valid() && Kept() && State() == Next(old(State()), HasReq(key), now)
      ensures AnswerTo(old(State()), HasReq(key), now) == Expiry.Known(b)
    {
      hide BPlusTree.Durable, BPlusTree.Tight, Pager.Valid, Contents, DeleteTree, WF, Owned,
           Stored, AfterDelete, ShowsTree;
      if key in ttls {
        if now > ttls[key] {
          Bury(key);
          return false;
        }
      }
      b := tree.Has(key);
    }

    /** The filter loop of Keys. */
    method KeepLive(allKeys: seq<bytes>, now: int, ghost m: map<bytes, bytes>) returns (validKeys: seq<bytes>)
      ensures validKeys == Expiry.Unexpired(Expiry.Lazy(m, ttls), allKeys, now)
    {
      hide Expiry.Unexpired;
      ghost var s := Expiry.Lazy(m, ttls);
      validKeys := [];
      assert allKeys[0..] == allKeys;
      for i := 0 to |allKeys|
        invariant validKeys + Expiry.Unexpired(s, allKeys[i..], now) == Expiry.Unexpired(s, allKeys, now)
      {
        var k := allKeys[i];
        Expiry.UnexpiredFrom(s, allKeys, i, now);
        if k in ttls {
          if now > ttls[k] {
            continue;
          }
        }
        validKeys := validKeys + [k];
      }
      Expiry.UnexpiredFrom(s, allKeys, |allKeys|, now);
    }

    /**
     What the leaves show and is not expired, in every state, or an error
     where an unwritten page is in the way; with a whole chain the live keys in
     strictly increasing order, each once.
     */
    method Keys(now: int) returns (r: Result<seq<bytes>, ReadError>)
      requires Valid()
      modifies pager`buffer
      ensures Valid() && State() == old(State())
      ensures AnswerTo(State(), KeysReq, now)
              == if r.Success? then Expiry.Listing(multiset(r.value)) else Expiry.Unreadable
      ensures r.Success? ==>
                r.value == Expiry.Unexpired(LazyOf(State()), KeysOf(EntriesAlong(State().chain.cells)), now)
      ensures Chained(tree.tree) ==>
                && r.Success? && Expiry.Ascending(r.value)
                && multiset(r.value) == multiset(Expiry.Meaning(LazyOf(State()), now).Keys)
    {
      hide Less, Contents, Pager.Valid, KeysOf, WF, Owned, Stored, LinkOf, BPlusTree.Durable, ShowsTree, EntriesAlong,
           Expiry.Unexpired, Expiry.Meaning, Entries, Strays;
      var allKeys := tree.Keys();
      if allKeys.Failure? {
        return Failure(allKeys.error);
      }
      var validKeys := KeepLive(allKeys.value, now, tree.Map());
      if Chained(tree.tree) {
        StateIsGood();
        TreeShowsLive(State(), now);
        Expiry.UnexpiredAscending(LazyOf(State()), allKeys.value, now);
      }
      return Success(validKeys);
    }

    /**
     The key count of Stats: the entries that the leaves show; as long as the
     walk ends behind a leaf the live keys, the ghosts and the strays.
     */
    method StatsKeyCount(ghost now: int) returns (keyCount: nat)
      requires Valid()
      modifies pager`buffer
      ensures Valid() && State() == old(State())
      ensures keyCount == |EntriesAlong(State().chain.cells)|
      ensures State().chain.end == 0 ==>
                keyCount == |Expiry.Meaning(LazyOf(State()), now)| + |Expiry.Ghosts(LazyOf(State()), now)|
                            + |Strays(State().chain, tree.tree)|
      ensures Chained(tree.tree) ==> State().chain.end == 0 && Strays(State().chain, tree.tree) == []
    {
      hide Contents, Pager.Valid, WF, Owned, Stored, LinkOf, EntriesAlong, Expiry.Meaning, Expiry.Ghosts, Entries,
           Lists, KeysOf, BPlusTree.Durable;
      var count, err := tree.Count();
      keyCount := count;
      Expiry.CountIncludesGhosts(LazyOf(State()), now);
      if tree.Listable() {
        tree.WalkHolds();
        EntriesCount(tree.tree);
        SameCount(tree.Listed(), Entries(tree.tree), Strays(tree.LeafWalk(), tree.tree));
      }
      if Chained(tree.tree) {
        tree.WalkOfWhole();
        NoStrays(State(), now);
        WholeHasNoStrays(State().chain, tree.tree);
      }
    }

    /** The file is deleted and made anew; nothing of the old contents is left, deadlines included. */
    method Nuke()
      requires pager == tree.pager && pager.Valid()
      modifies this, tree, pager
      ensures fresh(tree) && fresh(pager)
      ensures Valid() && Chained(tree.tree) && State() == FRESH_SESSION && tree.Tight()
    {
      hide Stored, FreeChain, EncodeHeader, Contents;
      var image := pager.Close();
      var open := OpenPager([], []);
      var newPager := open.value;
      var newTree := NewBPlusTree(newPager, FRESH_DB.t);
      pager := newPager;
      tree := newTree;
      ttls := map[];
      FreshIsGood();
      tree.WalkOfWhole();
    }

    /** Flushes everything; the returned file holds by itself whatever tree there is. */
    method Close() returns (image: seq<Page>)
      requires pager == tree.pager && pager.Valid()
      modifies pager
      ensures pager.Valid() && pager.State() == old(pager.State()) && IsImage(image, pager.header, pager.free)
      ensures old(tree.Valid()) ==> HoldsDatabase(image, tree.tree, pager.State())
    {
      hide Pager.Valid, TreeOn, FreeChain, EncodeHeader, Pop;
      ghost var view := pager.view;
      image := pager.Close();
      HeaderRoundTrip(pager.header);
      if old(tree.Valid()) {
        TreeOnElsewhere(view, pager.State(), image[..pager.header.pageCount], pager.State(), tree.tree);
      }
    }
  }

  /** A file that a new process can open and find t in. */
  ghost predicate HoldsDatabase(file: seq<Page>, t: Tree, a: Alloc) {
    && file != [] && DecodeHeader(file[0]).Success?
    && var h := DecodeHeader(file[0]).value;
       && IsImage(file, h, a.free) && h.pageCount == a.count && h.root == t.id
       && TreeOn(file[..h.pageCount], t, a)
  }

  /** What OnFile promises is that: a database with nothing left in the cache to write. */
  lemma OnFileIsDatabase(b: BPlusTree, t: Tree)
    requires b.OnFile(t)
    ensures HoldsDatabase(b.pager.file, t, b.pager.State())
  {
    hide EncodeHeader, DecodeHeader, FreeChain, TreeOn;
    HeaderRoundTrip(b.pager.header);
  }

  /**
   An empty file becomes an empty database, complete on disk only after its
   first flush. A file that holds a database is taken over unchanged, without
   deadlines. A file with pages but no root gets one.
   */
  method OpenEngine(file: seq<Page>, ghost t: Tree, ghost a: Alloc) returns (r: Result<Engine, HeaderError>)
    requires file == [] || DecodeHeader(file[0]).Failure? || IsImage(file, DecodeHeader(file[0]).value, a.free)
    requires file != [] && DecodeHeader(file[0]).Success? && DecodeHeader(file[0]).value.root == 0 ==>
               DecodeHeader(file[0]).value.pageCount < MAX_U32
    ensures r.Failure? <==> file != [] && DecodeHeader(file[0]).Failure?
    ensures r.Success? ==> fresh(r.value) && r.value.ttls == map[]
    ensures r.Success? ==> r.value.pager == r.value.tree.pager && r.value.pager.Valid()
    ensures file == [] ==> r.Success? && r.value.Valid() && r.value.tree.tree == FRESH_DB.t
                           && r.value.tree.Tight() && !r.value.tree.Durable()
    ensures file != [] && r.Success? && DecodeHeader(file[0]).value.root == 0 ==>
              r.value.Valid() && r.value.tree.Map() == map[] && (a.free == [] ==> !r.value.tree.Durable())
    ensures HoldsDatabase(file, t, a) ==> r.Success? && r.value.Valid() && r.value.tree.tree == t
                                          && r.value.pager.State() == a && r.value.tree.Durable()
  {
    hide FreeChain, EncodeHeader, DecodeHeader, Pop, TreeOn;
    var open := OpenPager(file, a.free);
    if open.Failure? {
      return Failure(open.error);
    }
    var pager := open.value;
    if HoldsDatabase(file, t, a) {
      DatabaseHasRoot(file, t, a);
    }
    var tree := NewBPlusTree(pager, t);
    var e := new Engine.Attach(tree);
    return Success(e);
  }

  lemma DatabaseHasRoot(file: seq<Page>, t: Tree, a: Alloc)
    requires HoldsDatabase(file, t, a)
    ensures t.id != 0
  {
    OwnedRoot(t, a);
  }

  /** Closing and opening again keeps every binding; keys that had a deadline no longer have one. */
  method Restart(e: Engine) returns (r: Engine)
    requires e.Valid()
    modifies e.pager
    ensures fresh(r) && r.Valid()
    ensures LazyOf(r.State()) == Expiry.Lazy(old(e.tree.Map()), map[])
  {
    hide TreeOn, Pager.Valid, FreeChain, EncodeHeader, DecodeHeader, Contents;
    ghost var t := e.tree.tree;
    var image := e.Close();
    DatabaseHasRoot(image, t, e.pager.State());
    var open := OpenEngine(image, t, e.pager.State());
    r := open.value;
  }

  /**
   On disk a Put is all or nothing: whoever opens the file right after it
   returned, nothing flushed since, finds the binding if it reported success
   and otherwise the map as it was, whatever the overflow has done to the
   tree in the cache.
   */
  method PutAndReopen(e: Engine, key: bytes, value: bytes, ttlSeconds: Expiry.i64, now: int)
    returns (put: Result<(), TreeError>, r: Engine)
    requires e.Valid() && e.HasRoom() && e.tree.Durable()
    modifies e, e.tree, e.pager
    ensures fresh(r) && r.Valid()
    ensures LazyOf(r.State()) ==
            Expiry.Lazy(if put.Success? then old(e.tree.Map())[key := value] else old(e.tree.Map()), map[])
  {
    hide TreeOn, Pager.Valid, FreeChain, EncodeHeader, DecodeHeader, Contents, FateOf;
    ghost var before := e.tree.tree;
    put := e.Put(key, value, ttlSeconds, now);
    ghost var t := if put.Success? then e.tree.tree else before;
    OnFileIsDatabase(e.tree, t);
    DatabaseHasRoot(e.pager.file, t, e.pager.State());
    var open := OpenEngine(e.pager.file, t, e.pager.State());
    r := open.value;
  }
}
