# rawth: a verified model

rawth keeps a key-value map in a file: a B+tree over 4096-byte pages behind a
write-back cache, with deadlines for keys in memory and a small command
language in front. These Dafny modules model the pager, the tree, the engine
and the command language, and prove what they promise.

How the layers fit:

- `ByteStrings`, `FileHeaders`, `NodeFormat`: byte order and layouts as
  functions. `PageLayouts`: the same file format said byte by byte.
  `PageAllocation`: the allocation policy as a value.
- `Pagers`: the `Pager` class. Its ghost `view` is what the pages hold, its
  ghost `free` the free list; `Valid` ties both to header, cache and file.
- `Nodes`: the in-memory node and its serialisation, loop by loop.
- `Trees`: the tree as a value, with `Insert`, `PutTree` and `DeleteTree`
  saying what each operation turns it into, failures included: `Failed(t, a)`
  carries the tree and allocator that an overflow leaves behind.
- `TreeShape`, `TreeContents`, `TreePages`, `TreeChain`, `TreeCapacity`,
  `TreeFailure`, `TreeKeeps`, `TreeRuns`: what holds of those functions, for
  single operations and whole runs. `TreeSummary` gathers it per operation.
- `LeafWalks`: the leaf chain as the pages link it. `Chains`: what every
  operation makes of the chain, and how much of it is still the tree's once a
  failed Put has lost some. `PageChanges`: what operations leave alone, on
  pages and on disk.
- `TreeStore`, `BPlusTrees`: the `BPlusTree` class works on pages; its ghost
  `tree` is what they hold, and every method moves it as `Trees` says. `Valid`
  holds in every reachable state, failed Puts included; `Chained` and `Tight`,
  a whole leaf chain and no lost page, until a Put of a new key fails.
- `Expiry`: lazy against eager expiry. `Sessions`: tree, chain and deadlines as
  one machine, and when its clients can tell it from an eagerly expiring map
  that refuses and fails the same Puts; `Departures`: runs in which they can. `Engines`: the `Engine` class, which
  is that machine in every reachable state.
- `Lexers`, `LexerFacts`, `Parsers`: the command language. `TokenTexts` and
  `CommandTexts`: what every text and every line is read as, in byte values
  and apart from the code's own tests; `CommandRoundTrip`: writing and reading.

Where the code departs from what one would expect:

- "A failed Put changes nothing" is false (`FailedPutCanLoseData`): splits cut
  by count while pages are measured in bytes, and the shortened page is written
  before the new one. It holds exactly for a key that was there already
  (`FailedPutUnchangedIff`); of a new key every failure costs a page
  (`PutLosesPages`), even where the tree survives (`FailedPutKeepsTreeIff`).
- What a failed Put loses it loses in the cache only. Until the next flush the
  file holds the old tree (`FailedPutOnFile`, `PutAndReopen`).
- A failed Put can leave a leaf chain that stops at an unwritten page: `Keys`,
  `ForEach` and `Count` fail from then on, `Get`, `Put` and `Delete` do not
  (`ListsIff`, `Put`, `KeysCannotList`). If a node above the leaf broke
  instead, listing succeeds and can show keys that `Get` no longer finds
  (`ListsAllAfter`, `ListingIs`, `KeysListsLostKey`).
- As long as no key with its value has more than 137 bytes, no Put of a new
  key fails; 138 is too many (`SmallRunNeverBreaks`, `SafeSizeIsExact`).
- A TTL over 9223372036 seconds wraps (`DeadlineExactIff`).
- `Delete` reports success for an expired key nobody touched
  (`DeleteReportsAgreeIff`).
- A Put that overflows does not touch the deadlines, not even of keys it loses,
  and can leave its binding all the same (`FailedPutKeepsIff`). A lost key that
  is stored again in this way expires under the old deadline (`DepartsIff`,
  `DeadlineOutlivesKey`). But for this and for what listing shows, no client
  can tell lazy from eager expiry (`ServeRefinesIff`, `SessionRefinesEager`).
- The lexer panics on a string cut off behind a backslash (`PanicsIff`,
  `OpenEscapePanics`); a NUL ends the input unless an open backslash in a
  string is before it (`NulEndsInputIff`).
- Opening a new database leaves its root page in the cache only, opening a
  stored one leaves nothing there (`OpenEngine`); `DurableIff` says which pages
  decide, reading changes nothing about it, a successful Put or Delete ends it.
- Page 0 read through the cache can be stale (`HeaderPageGoesStale`).

Conventions: keys, values and Go strings are byte sequences; the file is a
sequence of whole pages that reads and writes always reach; `time.Now()` is a
parameter `now`, in nanoseconds. Errors are values; a Go panic is `None`.

## Model

| member | source | states |
|---|---|---|
| ByteStrings.CompareIsLexicographic | internal/storage/btree.go:147-161 | `bytes.Compare` is the lexicographic order: a is below b exactly when there is a first position where they part with a smaller or ended; equal only on equal strings |
| ByteStrings.Trichotomy | internal/storage/btree.go:147-161 | of two keys exactly one is smaller unless they are equal |
| ByteStrings.LessTransitive | internal/storage/btree.go:147-161 | key order is transitive, so with trichotomy a strict total order |
| FileHeaders.HeaderRoundTrip | internal/storage/pager.go:97-142 | a written header reads back field by field exactly when magic, version and page size are this program's; otherwise it is refused |
| PageLayouts.HeaderOpensIff | internal/storage/pager.go:97-124 | for every first page, in byte values: it opens exactly when it begins RAWT, version 1, page size 4096, and then page count, root and free list head are the numbers at bytes 12, 16 and 20, low byte first; otherwise the first of the three that is wrong is reported |
| PageLayouts.HeaderPageIff | internal/storage/pager.go:127-142 | the one page a header is written as: magic, five numbers, low byte first, and zeros |
| PageAllocation.PopConserves | internal/storage/pager.go:146-191 | an allocation moves one page out of the free list or adds one page to the file, and accounts for every other page unchanged |
| PageAllocation.StepAccounted | internal/storage/pager.go:146-211 | one permitted allocate or free keeps live and free pages a partition of 1..PageCount-1; an allocated page was not live and is not 0 |
| PageAllocation.FreshRunAccounted | internal/storage/pager.go:146-211 | over every permitted run from a fresh file: the partition holds, and PageCount-1 is exactly the largest number of pages ever live at once |
| PageAllocation.ReuseIsLifo | internal/storage/pager.go:195-211 | freeing pages and allocating as many again returns them in reverse order and restores the allocator |
| Pagers.FreeChainUnique | internal/storage/pager.go:150-160 | the links stored in the free pages determine the free list |
| Pagers.FreeChainAcyclic | internal/storage/pager.go:195-211 | a free list that ends never meets a page twice |
| Pagers.Pager.FreeIsOwned | internal/storage/pager.go:146-211 | the free list of a valid pager holds distinct pages between 1 and PageCount-1 |
| Pagers.LinkPage | internal/storage/pager.go:203-204 | the page made for a freed page links to the given next page and has zeros behind the link |
| PageLayouts.FreePageLink | internal/storage/pager.go:155-160 | the link of a free page is the number in its first four bytes, low byte first |
| Pagers.Pager.WriteAt | internal/storage/pager.go:178-179 | a page write changes that page only and grows the file when it lies behind the end |
| Pagers.Pager.WriteHeader | internal/storage/pager.go:127-142 | page 0 of the file becomes the encoded header, no other page changes |
| Pagers.Pager.ReadHeader | internal/storage/pager.go:97-124 | succeeds with the decoded header or reports magic, version or page size, in that order |
| Pagers.Pager.InitNewFile | internal/storage/pager.go:84-94 | a file of only the header page, which says RAWT, version 1, page size 4096, one page, no root, no free page |
| Pagers.Pager.Unlink | internal/storage/pager.go:159-168 | the head of the free list is taken off and its page cleared; all other pages read as before |
| Pagers.Pager.RecyclePage | internal/storage/pager.go:151-171 | allocation from the free list: hands out its head, cleared |
| Pagers.Pager.ExtendFile | internal/storage/pager.go:174-190 | allocation at the end of the file: hands out the old page count, zeroed; at the largest page number the counter wraps to 0 |
| Pagers.Pager.AllocatePage | internal/storage/pager.go:146-191 | hands out what `Pop` says, zero-filled; every other page reads as before, what the file says stays, and the free list stays a chain; with the counter full it wraps |
| Pagers.Pager.FreePage | internal/storage/pager.go:195-211 | refuses page 0 without effect; any other number becomes the head of the free list on a page linking to the old head; for a live page the list stays a chain and all other pages read as before |
| Pagers.Pager.ReadPage | internal/storage/pager.go:214-246 | fails exactly out of range; otherwise returns the last contents written, cached or not; caches only below 256 pages |
| Pagers.Pager.WritePage | internal/storage/pager.go:250-264 | refuses data of the wrong length without effect; otherwise any page is replaced in the cache and dirty, and for a page in use the logical view changes there and nowhere else |
| Pagers.Pager.Flush | internal/storage/pager.go:268-286 | whatever the order of writing, afterwards nothing is dirty and the file agrees with the logical view on every page but the header |
| Pagers.Pager.FlushedIsImage | internal/storage/pager.go:268-286 | a flushed file by itself determines header, pages and free list |
| Pagers.Pager.SetRootPage | internal/storage/pager.go:288-294 | only the root number changes, in memory and in the file |
| Pagers.Pager.Close | internal/storage/pager.go:314-320 | the file left behind by itself holds header, pages and free list |
| Pagers.OpenPager | internal/storage/pager.go:47-81 | an empty file gets a header page with the numbers of a new file; any other is accepted exactly when its header decodes, which is when HeaderOpensIff says, and a file holding an image is taken over unchanged |
| Pagers.HeaderPageGoesStale | internal/storage/pager.go:220-246 | read through the cache, page 0 can be out of date: the logical view is right from page 1 on only |
| NodeFormat.FitsMeansSmallFields | internal/storage/btree.go:520-568 | when a node fits its page, its key count and all lengths survive the conversions to 16 bits |
| NodeFormat.NodeRoundTrip | internal/storage/btree.go:520-664 | a node is written exactly when its size function says it fits, and decodes to the same node |
| NodeFormat.DecodedNodeFits | internal/storage/btree.go:572-644 | whatever 4096 bytes are decoded, success yields a well-formed node that fits a page again |
| PageLayouts.DecodesIff | internal/storage/btree.go:572-644 | for every byte string and every node, in byte values: it decodes to the node exactly when byte 0 is 2 for a leaf and 1 for an internal node, then come count and right pointer, low byte first, and from byte 7 on the cells: key length, value length, key, value, or child, key length, key |
| PageLayouts.DecodeErrors | internal/storage/btree.go:572-644 | under seven bytes it is too small, with any other byte 0 of unknown type, and otherwise truncated when it says no node |
| PageLayouts.EncodesIff | internal/storage/btree.go:520-568 | the one page a node is written as: what DecodesIff says, and zeros behind the cells; there is none exactly when the cells end past byte 4096 |
| Nodes.Node.LeafNodeSize | internal/storage/btree.go:647-653 | the loop computes the total size of the leaf's cells |
| Nodes.Node.InternalNodeSize | internal/storage/btree.go:655-664 | the loop computes the total size of the internal node's cells |
| Nodes.SerializeLeaf | internal/storage/btree.go:547-565 | succeeds exactly when the cells fit, then leaves exactly the page layout in the buffer |
| Nodes.SerializeInternal | internal/storage/btree.go:529-546 | succeeds exactly when the cells fit, then leaves exactly the page layout in the buffer |
| Nodes.SerializeNode | internal/storage/btree.go:520-568 | writes the node's page, the one EncodesIff describes, byte by byte or reports overflow |
| Nodes.DeserializeLeafCells | internal/storage/btree.go:611-638 | reads the cells of a leaf or reports truncation, never reading out of bounds |
| Nodes.DeserializeInternalCells | internal/storage/btree.go:585-610 | reads the cells of an internal node or reports truncation, never reading out of bounds |
| Nodes.DeserializeNode | internal/storage/btree.go:572-644 | on any bytes: the decoded node, or too small, truncated or unknown type, as DecodesIff and DecodeErrors say in byte values |
| SortedEntries.UpsertIsMapUpdate | internal/storage/btree.go:146-176 | inserting into or updating a sorted leaf is updating its map at one key |
| SortedEntries.LookupIsMapLookup | internal/storage/btree.go:308-314 | scanning a sorted leaf for an equal key is looking the key up in its map |
| SortedEntries.RemoveIsMapRemoval | internal/storage/btree.go:356-367 | removing from a sorted leaf is removing one key from its map |
| SortedEntries.ToMapMeaning | internal/storage/btree.go:146-176 | a sorted sequence binds exactly its entries, one key each |
| Trees.ChildIndex | internal/storage/btree.go:181-187 | the child chosen is the first whose upper separator is above the key |
| TreeShape.InsertLeafOk | internal/storage/btree.go:146-176 | insertion into a well-formed leaf yields a well-formed leaf, two of them around a separator, or a failure |
| TreeShape.SplitLeafOk | internal/storage/btree.go:228-256 | both halves are well-formed, the separator lies strictly in range, and the chain runs old page, new page, old successor |
| TreeShape.LeafSplitsEvenly | internal/storage/btree.go:228-256 | a leaf is cut into two pieces of the same count or an upper one longer by one, and what a failure leaves is that lower piece or the whole |
| TreeShape.OverfullHasSixteen | internal/storage/btree.go:216-218 | an internal node over its page has at least sixteen separators |
| TreeShape.SplitNodeOk | internal/storage/btree.go:260-294 | both halves keep at least seven separators, their subtrees, bounds and chain ends; the promoted separator lies strictly between; what a failure leaves is a search tree |
| TreeShape.NodeSplitsEvenly | internal/storage/btree.go:260-294 | a node is cut around one separator into pieces of the same count or a lower one longer by one, each with one child more than separators |
| TreeShape.AdoptChildOk | internal/storage/btree.go:196-224 | putting back a changed, shortened or split child keeps separators, bounds, depth and, unless the insertion failed, the chain |
| TreeShape.InsertOk | internal/storage/btree.go:134-224 | recursive insertion keeps the whole subtree invariant at every level; a failed one all of it but the leaf chain |
| TreeShape.PutKeepsShape | internal/storage/btree.go:91-131 | whatever the outcome of Put: sorted, separated, all leaves at one depth, every node within its page; after a success the leaf chain is in order too; one level taller exactly when the root split |
| TreeShape.DeleteKeepsShape | internal/storage/btree.go:350-386 | deletion keeps separators, chain, depth and sizes, emptied leaves included |
| TreeContents.EntriesWithin | internal/storage/btree.go:180-194 | every stored key lies in the range its subtree was given, and is legal |
| TreeContents.SiblingsApart | internal/storage/btree.go:180-194 | everything left of the child chosen for a key is below it, everything right of it above |
| TreeContents.EntriesSorted | internal/storage/btree.go:399-421 | the entries of the tree from left to right are strictly sorted by key |
| TreeContents.InsertEntries | internal/storage/btree.go:134-294 | insertion through any splits puts exactly one binding into the entries of the subtree |
| TreeContents.PutIsMapUpdate | internal/storage/btree.go:91-131 | a Put that returns nil takes the map to exactly map[key := value] |
| TreeContents.GetIsMapLookup | internal/storage/btree.go:297-333 | the one leaf that a search inspects decides the whole map |
| TreeContents.DeleteIsMapRemoval | internal/storage/btree.go:338-386 | Delete removes exactly that key and keeps the tree invariant |
| TreePages.InsertConserves | internal/storage/btree.go:134-294 | over an insertion no page is held twice: tree pages plus free pages before and new pages equal those after a success, and bound those after a failure, which drops some (PutLosesPages counts them) |
| TreePages.PutKeepsPages | internal/storage/btree.go:91-131 | tree and free pages stay distinct pages of the file, and after a successful Put none has leaked if none had before |
| TreePages.DeleteKeepsPages | internal/storage/btree.go:350-386 | Delete leaves every page in its place in the tree |
| TreeChain.LeavesChain | internal/storage/btree.go:399-421 | following next pointers from the leftmost leaf visits exactly the leaves in order and ends |
| TreeChain.LeavesHoldEntries | internal/storage/btree.go:399-444 | the leaves in chain order hold exactly the entries of the tree |
| TreeChain.ChainAcyclic | internal/storage/btree.go:228-256 | the chain never comes back to a page, and no leaf is page 0 |
| TreeChain.DepthIsUniform | internal/storage/btree.go:455-482 | the leftmost path is as long as every other path |
| TreeChain.ManyLeaves | internal/storage/btree.go:216-294 | a subtree of height h has at least 8^(h-1) leaves; at the root at least 2 * 8^(h-2) |
| TreeChain.HeightBound | internal/storage/btree.go:109-128 | depth d needs 2 * 8^(d-2) leaves, and with 32-bit page numbers d is at most 12 |
| TreeCapacity.LeafHalvesFit | internal/storage/btree.go:228-256 | cells of at most 141 bytes, one page plus one cell: cutting by count leaves two halves that fit |
| TreeCapacity.InnerHalvesFit | internal/storage/btree.go:260-294 | separators of at most 137 bytes: both halves around the promoted one fit |
| TreeCapacity.UpdateStaysPut | internal/storage/btree.go:149-157 | an update never splits; it fails exactly when its leaf no longer fits, and then nothing has changed |
| TreeCapacity.InsertSmall | internal/storage/btree.go:134-294 | with at most 137 bytes per entry a new key never meets an overflow at any level |
| TreeCapacity.SmallPutSucceeds | internal/storage/btree.go:91-131 | with at most 137 bytes per entry only lengthening a value can fail, and that changes nothing |
| TreeFailure.FailedPutUnchangedIff | internal/storage/btree.go:228-252 | a failed Put leaves tree, free list and page count as they were exactly when the key was there already |
| TreeFailure.FailedPutKeepsTreeIff | internal/storage/btree.go:228-252 | the tree by itself, allocator aside, survives a failed Put exactly when the key was there already or the lower half of its leaf did not fit |
| TreeFailure.PutFailsIff | internal/storage/btree.go:146-294 | whether Put fails depends on sizes on the way to the key only: exactly when an update overfills its leaf, or a half of the overfull leaf, or of a node that its split overfills, is over a page |
| TreeFailure.LostPagesMeaning | internal/storage/btree.go:238-252 | the count of pages neither free nor in the tree is never negative, and 0 exactly when none has leaked |
| TreeFailure.PutLosesPages | internal/storage/btree.go:91-294 | a failed Put of a new key loses at least one page for good; no other outcome of Put loses any |
| TreeFailure.FailedPutLeaks | internal/storage/btree.go:228-294 | a tree without leaked pages has none after a failed Put exactly when the key was there already |
| TreeFailure.UpperHalfFails | internal/storage/btree.go:228-252 | when the new half of the leaf does not fit its page, Put fails at every height |
| TreeFailure.FailedPutOnlyLoses | internal/storage/btree.go:228-294 | after a failed Put of a new key every binding still visible is an old one or the new one |
| TreeFailure.FailedPutLoses | internal/storage/btree.go:228-294 | the map after a failed Put of a new key is the old one with some bindings gone and perhaps the new one there |
| TreeKeeps.FailedPutKeepsIff | internal/storage/btree.go:134-294 | after a failed Put of a new key the key is in the tree all the same exactly when `Keeps` says so beforehand: a node above the leaf breaks, and the side of the new separator that the key is on is the one it keeps |
| TreeFailure.FailedPutCanLoseData | internal/storage/btree.go:228-252 | a concrete sound database and a legal entry whose failing Put removes another key |
| TreeFailure.LosingUpperHalf | internal/storage/btree.go:247-252 | in that database it is the new half of the leaf that does not fit |
| TreeRuns.CleanStepSound | internal/storage/btree.go:91-131 | one operation keeps the whole invariant, no page lost, and acts on the map as its answer says |
| TreeRuns.RunRefinesMap | internal/storage/btree.go:91-386 | over every run in which failures changed nothing, the invariant holds and the tree means the map that the answers describe |
| TreeRuns.FreshRunMeansMap | internal/storage/btree.go:91-386 | from a fresh file, every run in which failures changed nothing leaves a sound tree that means exactly the map its answers describe, and whose pages are exactly 1..PageCount-1 |
| TreeRuns.FreshSmallRunMeansMap | internal/storage/btree.go:228-294 | from a fresh file, every run with at most 137 bytes per entry does so without any assumption on failures |
| TreeRuns.SmallRunNeverBreaks | internal/storage/btree.go:228-294 | every run with at most 137 bytes per entry stays sound, and every Put of a new key in it succeeds |
| TreeRuns.SafeSizeIsExact | internal/storage/btree.go:228-252 | at 138 bytes there is a run of successful Puts from a fresh file and one more Put of a new key that fails and loses data |
| TreeRuns.CleanStepIff | internal/storage/btree.go:91-386 | an operation succeeds or changes nothing unless it is a legal Put of a new key that breaks a node on its way |
| TreeRuns.StepGood | internal/storage/btree.go:91-386 | one operation, failed or not, keeps the search tree on pages of its own and does to the map what its answer says |
| TreeRuns.EveryRunGood | internal/storage/btree.go:91-386 | the same at every point of every run, with nothing assumed about failures |
| TreeRuns.EveryBindingWasLastWritten | internal/storage/btree.go:91-386 | after any run from a fresh file every binding is one that was Put and that no operation since has affected: none is made up, none comes back |
| TreeSummary.PutSummary | internal/storage/btree.go:91-131 | every outcome of Put on any reachable tree: when it fails, what happens to map, chain and pages, and that only a failed update changes nothing at all |
| TreeSummary.DeleteSummary | internal/storage/btree.go:338-386 | Delete on a sound tree: map without the key, same pages; an absent key leaves the tree as it is |
| TreeSummary.KeysListMap | internal/storage/btree.go:399-421 | the keys in leaf order are the map's keys, strictly increasing, each once |
| TreeSummary.LeafOnChain | internal/storage/btree.go:409-418 | each page met on the chain decodes to its leaf and links to the next leaf, or to 0 behind the last |
| TreeSummary.ChainIsWalk | internal/storage/btree.go:399-421 | while the chain is whole, following the links on the pages visits exactly the leaves of the tree, in order, with what they hold, and ends at 0 |
| TreeSummary.ListsIff | internal/storage/btree.go:228-256 | after a Put on a whole chain, listing still gets to the end exactly when it was not the new half of the leaf that did not fit |
| TreeSummary.ListsAllAfter | internal/storage/btree.go:146-256 | after a Put on a whole chain whose leaf took the entry, listing shows the old entries with the new one, also when a node above broke and the tree has lost some of them |
| TreeSummary.ChainAfterPut | internal/storage/btree.go:91-294 | from every reachable state, the walk along the leaf links after a Put is the walk before it with the one leaf changed, and still has all leaves of the tree unless it stops at an unwritten page |
| LeafWalks.WalkUnique | internal/storage/btree.go:408-418 | the links on the pages determine the walk along the leaves: which pages, what they hold, and where it stops |
| LeafWalks.ChangeReachesWalks | internal/storage/btree.go:146-256 | a leaf rewritten, split, or cut off from its new half on its pages changes every walk that comes by in that one place, and no other walk |
| Chains.PutCells | internal/storage/btree.go:134-294 | Put changes one leaf in its place and no other; when it fails although that leaf was split, the tree has the leaves that result but for one stretch of them |
| Chains.ChangedIsWith | internal/storage/btree.go:228-256 | changing one page of the whole chain is changing that leaf in its place in the tree |
| Chains.PutShowsTree | internal/storage/btree.go:91-294 | whatever failed before and whatever the outcome of this Put, as long as the chain ends behind a leaf it has all leaves of the tree in order, lost ones perhaps between them |
| Chains.UpsertAlong | internal/storage/btree.go:146-256 | once the leaf has taken the entry, split or not, the leaves that result show exactly the old entries with it in its place, even if a node above breaks |
| Chains.ListingIs | internal/storage/btree.go:399-421 | as long as the chain ends behind a leaf, what it shows is every entry of the tree once and, besides, the entries on leaves that the tree has lost |
| PageChanges.LeafSplit | internal/storage/btree.go:228-256 | the three things a leaf split may leave on pages are what the specified change of the leaf says, and nothing else on pages, file or walks changes |
| PageChanges.CarefulTwice | internal/storage/btree.go:196-224 | work below a child and then at its node together touch the subtree's pages and new ones only |
| PageChanges.StillOnFile | internal/storage/pager.go:250-264 | a tree that the file holds is still held by it after pages were allocated and written into the cache |
| TreeStore.SplitNodeRealized | internal/storage/btree.go:279-293 | the two page writes of an internal split leave exactly the halves, or what a failure between them leaves |
| BPlusTrees.BPlusTree.ReadNode | internal/storage/btree.go:502-508 | the decoded node of a page in range, or out of range, or the page's own decoding error |
| BPlusTrees.BPlusTree.WriteNode | internal/storage/btree.go:510-516 | succeeds exactly when the node fits; then that page alone decodes to it, otherwise nothing changes |
| BPlusTrees.BPlusTree.WriteHalves | internal/storage/btree.go:247-252 | the shortened node is written first; a failure of the second write leaves the first in place |
| BPlusTrees.BPlusTree.FindChild | internal/storage/btree.go:181-187 | the loop finds the child index of the specification |
| BPlusTrees.BPlusTree.FindSlot | internal/storage/btree.go:147-162 | the loop finds the key or the place it belongs |
| BPlusTrees.BPlusTree.UpdateLeaf | internal/storage/btree.go:150-157 | the leaf's page becomes the updated leaf, or on overflow no page changes |
| BPlusTrees.BPlusTree.ExtendLeaf | internal/storage/btree.go:164-175 | the pages become those of the leaf insertion, split or not |
| BPlusTrees.BPlusTree.InsertLeaf | internal/storage/btree.go:146-176 | the pages become those of the leaf insertion of the specification, on success and on failure |
| BPlusTrees.BPlusTree.SplitLeaf | internal/storage/btree.go:228-256 | the pages become those of the leaf split of the specification, on success and on failure |
| BPlusTrees.BPlusTree.Insert | internal/storage/btree.go:134-144 | the pages below become those of the specified insertion; no other page in use changes, the file keeps what it had, and leaf links lead where they did unless the leaf's new half did not fit |
| BPlusTrees.BPlusTree.InsertInternal | internal/storage/btree.go:180-224 | as Insert, through one internal node |
| BPlusTrees.BPlusTree.AdoptEntry | internal/storage/btree.go:206-214 | the separator and new child go in at the index, right pointer included |
| BPlusTrees.BPlusTree.AdoptSplit | internal/storage/btree.go:205-223 | the node's pages become those of taking over a split child |
| BPlusTrees.BPlusTree.SplitInternal | internal/storage/btree.go:260-294 | the pages become those of the internal split of the specification, on success and on failure |
| BPlusTrees.BPlusTree.GrowRoot | internal/storage/btree.go:110-128 | a new root above the two halves, recorded in the header; on overflow the root stays |
| BPlusTrees.BPlusTree.InsertAtRoot | internal/storage/btree.go:102-128 | the file's tree becomes that of the specified Put, whatever the outcome; a failure leaves the file alone and a failed update changes no page |
| BPlusTrees.BPlusTree.PutLegal | internal/storage/btree.go:102-128 | every outcome before the flush: valid again; map and lost pages as specified; the walk along the leaves has changed in the one leaf the specification says |
| BPlusTrees.BPlusTree.Flush | internal/storage/btree.go:130-130 | afterwards the file alone holds the tree |
| BPlusTrees.BPlusTree.DurableIff | internal/storage/pager.go:268-286 | the file is complete exactly when every dirty page already says there what it says in the cache |
| BPlusTrees.BPlusTree.FailedPutOnFile | internal/storage/btree.go:102-108 | after a failed Put the file still holds the tree it held; it is complete only if that is the tree in memory, too |
| BPlusTrees.BPlusTree.Put | internal/storage/btree.go:91-131 | in every reachable state: nil means map[key := value] with the file alone holding the tree; refused exactly outside 1 to 255 bytes of key and 3840 of value, with the error for what is wrong; overflow exactly by node sizes on the way; an overflow of an update changes nothing, of a new key it costs a page and perhaps bindings, and the file still holds the old tree; listing that stopped at an unwritten page stops for good, and from a whole chain starts to exactly when the leaf's new half did not fit |
| TreeShape.LegalIff | internal/storage/btree.go:91-100 | what Put accepts: keys of 1 to 255 bytes and values of up to 3840 |
| BPlusTrees.BPlusTree.FindEqual | internal/storage/btree.go:309-313 | the loop finds the first equal key or none |
| BPlusTrees.BPlusTree.Search | internal/storage/btree.go:302-333 | returns what the specified search finds, changing no page |
| BPlusTrees.BPlusTree.Get | internal/storage/btree.go:297-300 | in every reachable state returns v exactly when the map binds the key to v, otherwise key not found; the file stays as complete as it was |
| BPlusTrees.BPlusTree.Has | internal/storage/btree.go:388-397 | true exactly when the map has the key |
| BPlusTrees.BPlusTree.RemoveFromLeaf | internal/storage/btree.go:356-367 | the leaf's page becomes the leaf without the key; nothing else, leaf links included, changes |
| BPlusTrees.BPlusTree.DeleteFromNode | internal/storage/btree.go:350-386 | the pages become those of the specified deletion; reports whether the key was there; otherwise nothing changes |
| BPlusTrees.BPlusTree.Delete | internal/storage/btree.go:338-348 | in every reachable state: map without the key, same pages, one leaf of the chain shortened, on disk when it returns nil; an absent key is reported and changes nothing |
| BPlusTrees.BPlusTree.FindLeftmostLeaf | internal/storage/btree.go:484-498 | finds the first leaf of the chain |
| BPlusTrees.BPlusTree.ReadOnWalk | internal/storage/btree.go:408-418 | reading the next page of a walk yields its leaf, which leads on, and fails exactly at a page that was never written |
| BPlusTrees.BPlusTree.Keys | internal/storage/btree.go:400-421 | in every reachable state: the keys of all entries of the tree, each once, and of those on leaves the tree has lost, or the error of the unwritten page where the links stop; while the chain is whole the map's keys, strictly increasing |
| BPlusTrees.BPlusTree.ForEach | internal/storage/btree.go:423-444 | the calls are the entries along the leaf links up to the first that the callback answers with an error, or up to a page that cannot be read; while the chain is whole, all entries in order |
| BPlusTrees.BPlusTree.VisitLeaf | internal/storage/btree.go:435-439 | one leaf's calls, up to the first that the callback answers with an error |
| BPlusTrees.BPlusTree.Count | internal/storage/btree.go:446-453 | the number of entries along the leaf links, with an error exactly when they stop at an unwritten page; while the chain is whole, the number of keys in the map |
| BPlusTrees.BPlusTree.Depth | internal/storage/btree.go:455-458 | the length of every path, at most 12 |
| BPlusTrees.NewBPlusTree | internal/storage/btree.go:38-58 | a file without root gets an empty leaf as root, which with no free pages is not on disk yet; any other file is taken over unread and unchanged, valid when it holds a tree |
| Expiry.DeadlineExactIff | internal/storage/engine.go:78-79 | the deadline is the one asked for exactly for TTLs up to 9223372036 seconds; beyond, the product wraps |
| Expiry.DeadlineWraps | internal/storage/engine.go:78-79 | whatever the TTL, the deadline is less than 2^63 nanoseconds away and right modulo 2^64 |
| Expiry.LivesForTtl | internal/storage/engine.go:78-103 | a key put for a TTL of up to 9223372036 seconds is there up to and including the last nanosecond and not after; with a TTL of 0 or below, for good |
| Expiry.StepRefinesIff | internal/storage/engine.go:70-190 | one operation on the lazily expiring table answers and acts as a map that drops every expired key at once, exactly unless an overflow leaves its binding under a deadline the table still has, or what the leaves show is not the live keys |
| Expiry.RunConsistent | internal/storage/engine.go:70-190 | over every run, deadlines stay within stored keys as long as no overflow loses bindings |
| Expiry.LazyRefinesEager | internal/storage/engine.go:70-190 | over every interleaving with a clock that does not run back, lazy and eager expiry give the same answers as long as no operation departs in that way |
| Expiry.LongTtlExpiresAtOnce | internal/storage/engine.go:78-79 | one second over the limit and the key is gone at once |
| Expiry.DeleteReportsAgreeIff | internal/storage/engine.go:110-117 | what Delete reports agrees with eager expiry exactly when the key is not expired and untouched; lost keys included |
| Expiry.CountIncludesGhosts | internal/storage/engine.go:193-211 | stored keys are the listed keys plus the expired untouched ones |
| Sessions.NextGood | internal/storage/engine.go:70-190 | every request, failed Puts included, keeps a search tree on pages of its own and a chain that has all its leaves unless it stops at an unwritten page |
| Sessions.NextIsStep | internal/storage/engine.go:70-190 | in every reachable state a request is a step of the lazy machine, with what tree and chain make of it |
| Sessions.PutAnswer | internal/storage/engine.go:70-86 | Put is refused exactly outside 1 to 255 bytes of key and 3840 of value, fails exactly by node sizes, and stores otherwise |
| Sessions.DepartsIff | internal/storage/engine.go:70-190 | a request departs exactly when this holds beforehand: Put, of a legal key not stored that has an old deadline, breaks a node and `Keeps` holds; or Keys, with a chain that stops at an unwritten page or has a lost leaf that shows an unexpired key |
| Sessions.ServeRefinesIff | internal/storage/engine.go:70-190 | in every reachable state a request answers and acts as the eager map exactly unless it departs |
| Sessions.SessionRefinesEager | internal/storage/engine.go:70-190 | over every run in which no request departs, overflows included, the engine's answers are those of the eager map |
| Sessions.CleanRefinesEager | internal/storage/engine.go:70-190 | from a whole chain, no request departs as long as no Put of a new key breaks a node after its first write |
| Sessions.SmallRefinesEager | internal/storage/engine.go:70-190 | from a fresh database, as long as no key with its value has more than 137 bytes, no answer tells the engine from the eager map that fails the same updates |
| Departures.DeadlineOutlivesKey | internal/storage/engine.go:70-107 | a run from a database in order: a Put overflows and loses a key with a deadline; stored again without one, the key fails and stays, and vanishes at the old deadline |
| Departures.KeysListsLostKey | internal/storage/engine.go:139-160 | in the same run Keys lists the lost key, which Get does not find |
| Departures.KeysCannotList | internal/storage/engine.go:139-160 | a database in order and a Put after which Keys reports an error |
| Engines.Engine.Put | internal/storage/engine.go:70-86 | in every reachable state the new state and the answer are those of the session; refused exactly outside 1 to 255 bytes of key and 3840 of value; nil: on disk, no page leaked; an overflow exactly by node sizes, and the file still holds the old tree |
| Engines.Engine.Bury | internal/storage/engine.go:98-99 | removing an expired key cannot fail in a way that matters, so the ignored error loses nothing |
| Engines.Engine.Get | internal/storage/engine.go:90-107 | in every reachable state the new state and the answer are those of the session |
| Engines.Engine.Delete | internal/storage/engine.go:110-117 | in every reachable state the new state is that of the session; reports whether the key was stored |
| Engines.Engine.Has | internal/storage/engine.go:121-135 | in every reachable state the new state and the answer are those of the session |
| Engines.Engine.KeepLive | internal/storage/engine.go:148-157 | the filter keeps exactly the keys not expired, in order |
| Engines.Engine.Keys | internal/storage/engine.go:139-160 | in every reachable state the answer is that of the session: what the leaves show and is not expired, in order, or an error when the links stop at an unwritten page; with a whole chain the live keys, strictly increasing, each once |
| Engines.Engine.StatsKeyCount | internal/storage/engine.go:193-201 | in every reachable state the number of entries the leaves show; as long as the chain ends behind a leaf these are the live keys, the ghosts and the entries on lost leaves |
| Engines.Engine.Nuke | internal/storage/engine.go:164-190 | from any state of the tree the fresh session: an empty database, no deadlines, a whole chain |
| Engines.Engine.Close | internal/storage/engine.go:213-217 | the file left behind is a complete image whatever the tree, and holds the database by itself |
| Engines.OnFileIsDatabase | internal/storage/engine.go:48-67 | what Put and Delete leave on disk, unflushed cache aside, is a database that opens to that tree |
| Engines.OpenEngine | internal/storage/engine.go:48-67 | an empty file becomes an empty database that is not on disk yet; a stored one is taken over unchanged and complete; pages without a root get one; a bad header is reported |
| Engines.Restart | internal/storage/engine.go:48-67 | closing and opening keeps every binding and forgets the deadlines |
| Engines.PutAndReopen | internal/storage/engine.go:48-86 | opening the file right after a Put returned, nothing else flushed, finds the binding on success and the old map on any error |
| Lexers.Lexer.ReadChar | internal/rql/lexer.go:22-30 | the cursor moves one byte; at the end it reads NUL |
| Lexers.Lexer.SkipWhitespace | internal/rql/lexer.go:146-150 | stops at the first byte that is not white space |
| Lexers.Lexer.ReadString | internal/rql/lexer.go:83-122 | the literal up to the closing quote, a NUL or the end, escapes taken along; panics exactly when the cursor ran past the end |
| Lexers.Lexer.ReadNumber | internal/rql/lexer.go:124-130 | the maximal run of digits |
| Lexers.Lexer.ReadIdentOrKeyword | internal/rql/lexer.go:133-143 | the maximal run of word bytes, as the keyword it spells (KeywordIff) or an identifier (IdentIff) |
| Lexers.Lexer.NextToken | internal/rql/lexer.go:42-66 | the next lexeme of the specification, or its panic |
| Lexers.Lexer.Tokenize | internal/rql/lexer.go:69-79 | terminates with all tokens up to EOF, or panics |
| LexerFacts.PanicsIff | internal/rql/lexer.go:83-122 | tokenizing panics exactly when a byte-at-a-time reader ends inside a string right behind an open escape |
| LexerFacts.OpenEscapePanics | internal/rql/lexer.go:83-122 | a quote and a backslash are such an input |
| LexerFacts.NoPanicWithoutTrailingBackslash | internal/rql/lexer.go:83-122 | never on an input that does not end in a backslash |
| LexerFacts.NulEndsInputIff | internal/rql/lexer.go:22-122 | a NUL ends the input, whatever follows, exactly when no open backslash in a string is before it |
| LexerFacts.TokensFromInput | internal/rql/lexer.go:42-79 | at most len+1 tokens, EOF exactly last, each other one consuming a byte; literals are disjoint increasing pieces of the input |
| Parsers.Parser.Advance | internal/rql/parser.go:60-64 | returns the current token, EOF past the end, and moves on |
| Parsers.Parser.Expect | internal/rql/parser.go:67-74 | moves on only over a token of the expected type |
| Parsers.Parser.ParseKeyCommand | internal/rql/parser.go:142-184 | the key of YOINK, YEET and PEEK, or the error |
| Parsers.Parser.ParseShove | internal/rql/parser.go:105-139 | key, value and optional TTL, or the first error |
| Parsers.Parser.ParseCommand | internal/rql/parser.go:77-102 | dispatches on the first token |
| Parsers.Parse | internal/rql/parser.go:43-49 | the command of the input's tokens, or the lexer's panic |
| TokenTexts.KeywordIff | internal/rql/token.go:77-104 | a word is a keyword exactly in its spelling in capitals, given in byte values, or with every byte 32 higher |
| TokenTexts.IdentIff | internal/rql/token.go:97-104 | and an identifier exactly when it is none of the eighteen |
| TokenTexts.QuotableIff | internal/rql/lexer.go:83-122 | the scan of a quoted text reaches its end exactly when every quote and NUL in it, and nothing at its end, is behind a backslash that is not itself escaped |
| TokenTexts.PlainIsQuotable | internal/rql/lexer.go:83-122 | text without that quote, backslash and NUL, in particular |
| TokenTexts.QuotedFirst | internal/rql/lexer.go:83-122 | a text in double or single quotes is read as one token holding it exactly when it can be quoted |
| TokenTexts.PieceFirst | internal/rql/lexer.go:42-150 | in byte values: words of letters, digits, minus, dot, colon and underscore, numbers, texts in either quote, closed or not, and single other bytes are each one token with that content, and what follows is read as if alone |
| TokenTexts.BlanksFirst | internal/rql/lexer.go:146-150 | tabs, line feeds, carriage returns and spaces in front do nothing |
| TokenTexts.FirstPiece | internal/rql/lexer.go:42-150 | whatever can be read and has no NUL is blank or begins, behind blanks, with such a piece, so these say how everything is read |
| TokenTexts.DecimalValue | internal/rql/parser.go:127-136 | a number in decimal, leading zeros or not, reads back as that number |
| TokenTexts.NumberForm | internal/rql/parser.go:127-136 | and every string of digits is some number written so |
| CommandTexts.LeadingBlanks | internal/rql/parser.go:43-49 | blanks in front of a line change nothing |
| CommandTexts.BlankLine | internal/rql/parser.go:77-102 | a blank line is an empty command |
| CommandTexts.NoVerb | internal/rql/parser.go:77-102 | a line that begins with anything but a verb is an unknown command of that name |
| CommandTexts.LoneVerb | internal/rql/parser.go:186-204 | KEYS, NUKE, STATS and HELP, in capitals or small letters, whatever readable text follows |
| CommandTexts.KeyLine | internal/rql/parser.go:142-184 | YOINK, YEET and PEEK, in capitals or small letters: any text in quotes and any word that is no keyword is the key; a number, a keyword or another byte is reported; what follows is ignored |
| CommandTexts.MissingKey | internal/rql/parser.go:105-184 | a verb with nothing behind it lacks its key |
| CommandTexts.ShoveRefuses | internal/rql/parser.go:105-119 | SHOVE reports first what is no key, then what is no value |
| CommandTexts.MissingValue | internal/rql/parser.go:105-119 | SHOVE with a key and nothing behind it lacks its value |
| CommandTexts.ShovePlain | internal/rql/parser.go:105-139 | SHOVE with key and value, a number being a value, and no TTL right behind them stores for good |
| CommandTexts.ShoveTtl | internal/rql/parser.go:121-136 | TTL with a number of at most 2^63-1 behind it sets that TTL; a larger number or anything else is an error |
| CommandTexts.MissingTtl | internal/rql/parser.go:121-136 | TTL with nothing behind it is an error |
| CommandRoundTrip.RoundTripIff | internal/rql/parser.go:43-204 | a command written out, in capitals or small letters, with either quote and any white space between the words, and parsed is the same command, TTL included, exactly when its key and value can be quoted |

## Left out

- Pagers.Pager.AllocatePage: after the page counter has wrapped nothing more is said about the pager.
- Pagers.Pager.WritePage: after a write to page 0, a free page or one out of range nothing more is said about the pager; the tree makes none.
- Pagers.Pager.FreePage: after a page out of range or already free was freed nothing more is said about the pager; the tree never frees a page.
- BPlusTrees.BPlusTree.Put: assumes PageCount below 2^32-13, room for a split on each of at most twelve levels and a new root.
- Engines.Engine.Put: makes the same assumption on PageCount.
- BPlusTrees.BPlusTree.ReadNode: what page 0 would be read as is not stated; the tree reads no page 0.
- BPlusTrees.BPlusTree.WriteNode: only for pages in use; the tree writes no others.
- BPlusTrees.NewBPlusTree: opening is modelled for every file, the operations after it only for files that hold a tree; a root page needs room below 2^32-1.
- Engines.OpenEngine: a file with a good header must also have the pages and the free list that the header announces.
- Parsers.Parser.ParseShove: ParseInt is modelled on unsigned digit strings, the only ones the lexer makes.
- File errors, partial writes, a power failure inside a flush, files that are not whole pages: the file always works.
- Goroutines and locks: every operation is atomic.
- Operation counters, uptime, file path and page figures of Stats.
- Merging nodes and reusing emptied leaves: the program does neither.
- The executor, the TCP and HTTP servers, the WebSocket framing, the command line and the web page: dispatch, formatting and I/O.
