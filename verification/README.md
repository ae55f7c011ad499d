# k2hash in Dafny

k2hash keeps a map from keys to values, subkeys and attributes in one file that several processes map into
memory. This project models the file as heaps of ELEMENTs and pages addressed by file offset and proves that the
code which rewrites links, free lists and page chains in place stands for a plain map.

The layers, from the bottom up:

- `Layout`, `KeyIndexPos`, `KIndexHome`: masks, the KINDEX slot of a hash, and the slot a hash is at home in while
  some slots of a widened mask are not yet in use.
- `ElementTree`, `ElementLinks`, `TreeMoves`, `Forest`, `TreeSearch`, `ElementStore`, `ElementIndex`: the binary
  trees of ELEMENTs below the CKINDEXs. The first six say what the trees are and what each group of link writes does
  to them; the class `Index` of the last one has the program's fields and methods: inserting, taking off, the lazy
  move of elements after the mask was widened, searching, and the free list of ELEMENTs.
- `AreaLayout`, `PageStore`, `PageWrites`, `PagePacking`, `PageArena`, `PageTruncate`: the areas of the file; pages,
  their free list and chains; the class `Arena` reserves, writes, reads, grows and frees chains, and keeps every chain
  packed, so that it can be written at an offset.
- `Records`, `K2HShm`: ELEMENTs that own chains for key, value, subkeys and attributes. The class `Shm` has the
  operations of a store, each proved against the map `Abs()`.
- Above the store: writing a part of a value in its place (`DirectAccess`), recursive removal (`SubKeys`, `Subtree`, `RecursiveRemoval`), giving up the last area
  (`PageCuts`, `PageCompress`, `ChainMoves`, `AreaCompress`), scans by hash (`HashScan`, `HashRange`), merging of
  replicated records (`Timestamps`, `Replication`), key history (`History`, `HistoryStore`), and archives
  (`CommandArchive`, `ArchiveFile`, `ArchiveLoad`, `ArchiveSave`).
- Beside it: sorted vectors and the attribute format (`SortedArray`, `SizeCodec`, `Attrs`), the list of mapped areas
  (`MmapList`), and the counters by which processes learn of new areas (`AreaMonitor`), as a transition system over
  all interleavings.
- `Findings`: sequences of operations from an empty file that end where the index fails.

Conventions. A mask is kept as its number of one-bits. Addresses are keys of maps: `links` and `bodies` hold the link
members and the other members of the ELEMENTs, `heads` and `buffers` the heads and bytes of the pages. The large
invariants are hidden behind `Look` or a recursion depth, which keeps them out of proofs that only hand them on; a
proof unfolds one only where it names its level. An operation that needs room in the areas array reports failure, and its
contract says what holds then.

## Findings

Inputs for which the program does not do what it is for. Each is a lemma or a method with a concrete or general
input, beside the exact condition under which the program is right.

- Taking off the head of a `same` chain that has subtrees and a successor leaves the `parent` members of its
  children naming the element that went (lib/k2hshm.cc:1341-1368). `ElementIndex.Index.UnhangElement` proves that
  the index is whole afterwards if and only if the element was not such a head; `Findings.StrandedRun` reaches the
  failure from an empty file with four keys of one hash and two subhashes.
- Of two elements below one CKINDEX with one subhash and two hashes, the one behind the head of the chain is never
  found (lib/k2hshm.cc:1116-1120). `TreeSearch.AllFoundIff` proves that all elements are found if and only if
  the subhash decides the hash; `Findings.LostRun` puts such an element in and searches for it in vain.
- A scan by hash returns an element twice when the slot of its hash is not in use yet: once from the slot it is in, and
  again from its own, which the scan brings into use on the way (lib/k2hshmdirect.cc:303-318). One call returns no element
  twice; `HashScan.FoundAgain` says exactly when two calls of one scan return the same element.
- The window test of the hash scan is right for every hash, without overflow of `start + range - 1`, if and only if the
  range is at most the circle or a multiple of it; with overflow, if and only if 2^64 modulo the circle is 0, or, for a
  range wider than the circle, the range modulo the circle (lib/k2hshmdirect.cc:117-131). `HashRange.RightExactly`
  and, for a start beyond the circle, `HashRange.RightBeyondExactly`; `HashRange.TooWideRange` and
  `HashRange.OverflowingRange` are inputs that fail.
- The length check of the attribute loader adds in size_t (lib/k2hattrs.cc:121-166). `Attrs.PassesExactly` says
  when that tells complete records from others; `Attrs.MisledBuffer` is a buffer of 24 bytes that passes although its
  record is not there.
- The length check of the subkey loader starts from the whole length instead of what follows the count
  (lib/k2hsubkeys.cc:129), so it passes a record that ends up to 8 bytes behind the list. `SubKeys.PassesExactly` says for
  which lengths; `SubKeys.CutExactly` says for which cuts of a list within its last record the program reads behind it.
- Of records with equal mtimes the one that comes first is kept, so replicas that merge them in different orders may
  differ (lib/k2hshmdirect.cc:343-478). `Replication.OrderFreeIff`: merging a set of dated records into a content gives
  the same in every order if and only if, for each key, what is held is not older than the newest record, or all newest
  records of the key carry the same entry. `Replication.TieMatters` is the case of two records.
- A process whose kept counter is the shared one cannot tell a number of area updates that is a multiple of 256 from
  none, and misses them (lib/k2hfilemonitor.cc:531-564): `AreaMonitor.ToldExactly` and `AreaMonitor.CountExactly` say so
  with if and only if, and `AreaMonitor.ByteComesRound` has a run for every number of updates. An updater that ignored
  `is_need_check` would miss an area although it is told of every update (`AreaMonitor.UncheckedMisses`).
- Truncate subtracts the first page from the length that is to come only when that page is not full
  (lib/k2hpagemem.cc:510-519). `PageTruncate.Truncate`: with room, setting a direct access behind the end of a value in
  just the pages it needs arrives at the length asked for if and only if the value is shorter than a page. A value of
  exactly one page gets one page too many, while its recorded length is the one asked for (lib/k2hdaccess.cc:338-350),
  and a longer value is refused.
- A write at an offset that finds no room for the pages behind the value has overwritten the value up to the end of its
  chain, and its recorded length is right then if and only if it filled its pages before
  (`DirectAccess.WriteChain`, lib/k2hdaccess.cc:419-436).
- ExpandArea moves unassign_area on before it looks for an entry in the areas array, so every attempt on a full array
  takes space that nothing uses (`AreaLayout.Areas.ExpandArea`, lib/k2hshm.cc:463-475).
- An area mapped at the address one below its own file offset is taken for one that is not mapped, because the lookup
  answers -1 for both (`MmapList.AbsThenRel`, lib/k2hmmapinfo.cc:587-614). Areas that start at page boundaries never lie
  so (`MmapList.AlignedPlain`).

## Model
| member | source | states |
|---|---|---|
| Layout.MaskAndShift | lib/k2hshm.cc:810-833 | masking by n one-bits is the remainder, and shifting by n the quotient, of 2^n |
| KeyIndexPos.GetKIndexPos | lib/k2hshm.cc:810-833 | fails exactly for a mask wider than the current one; otherwise the slot found by widening a mask bit by bit is that of the masked hash and exists |
| KeyIndexPos.SlotExists | lib/k2hshm.cc:810-833 | every masked hash has an allocated slot, from which it can be read off |
| KeyIndexPos.SlotValue | lib/k2hshm.cc:810-833 | every allocated slot is the slot of exactly one masked hash |
| KeyIndexPos.PosInjective | lib/k2hshm.cc:810-833 | two masked hashes share a slot only if they are equal |
| KeyIndexPos.ExpandedSlots | lib/k2hshm.cc:532-557 | the array added for one more mask bit has a slot for exactly the hashes with the new top bit, at the place of the rest |
| KeyIndexPos.HalfMaskSlot | lib/k2hshm.cc:916-987 | the slots under a mask and its half are the same exactly when the top bit is clear |
| KeyIndexPos.MakeMask | lib/k2hshm.cc:78-83 | n rounds give 2^n - 1 |
| KeyIndexPos.GetMaskBitCount | lib/k2hshm.cc:85-90 | counts the bits of a mask, and undoes MakeMask |
| KIndexHome.HomeAssigned | lib/k2hshm.cc:862-908 | every hash has a home, a slot in use; it is the slot of the whole mask once that one is in use |
| KIndexHome.HomeFound | lib/k2hshm.cc:862-908 | the slot of the widest mask whose slot is in use is the home |
| KIndexHome.TopBitClearedAssigned | lib/k2hshm.cc:916-987 | values whose slots are in use are closed under clearing the top bit |
| KIndexHome.HomeAfterAssign | lib/k2hshm.cc:916-987 | bringing the slot under k bits into use takes over exactly the hashes with these k bits from the slot under k - 1 bits; all others stay |
| KIndexHome.PrefixedAfterAssign | lib/k2hshm.cc:916-987 | prefixes of values in use stay in use |
| KIndexHome.HomeAfterExpand | lib/k2hshm.cc:500-559 | widening the mask changes the home of no hash |
| KIndexHome.AllAssigned | lib/k2hshminit.cc:86-99 | in a new file, with all slots in use, each hash is at home under the whole mask |
| Forest.HomePtrIs | lib/k2hshm.cc:862-908 | in numbers: the CKINDEX of a hash is that of its collision bits, in the slot of the most further bits whose slot is in use |
| ElementTree.InsertedOrdered | lib/k2hshm.cc:1279-1315 | hanging a subtree at the end of its search path keeps the order by subhash, and adds its elements and no others |
| ElementTree.InsertInHole | lib/k2hshm.cc:1499-1520 | inserting an orphaned subtree from the root puts it where it came from |
| ElementTree.TakenFromTree | lib/k2hshm.cc:1321-1537 | what taking off leaves is ordered and has all elements but the one, one fewer in number |
| ElementLinks.HungBehind | lib/k2hshm.cc:1279-1315 | an element put behind the last of its chain leaves the tree linked |
| ElementLinks.HeadReplaced | lib/k2hshm.cc:1341-1368 | putting the successor in the place of a chain head keeps every element reachable, and all parent members right exactly when the head had no subtrees |
| ElementLinks.TakenOffBetween | lib/k2hshm.cc:1370-1408 | with both subtrees, raising one and inserting the other from the root leaves a linked tree of all other elements |
| ElementIndex.Index.InsertElement | lib/k2hshm.cc:1279-1315 | the links afterwards spell out the tree with the subtree hung where its subhash leads; only it and elements on the way are written |
| ElementIndex.Index.TakeOffElement | lib/k2hshm.cc:1321-1537 | over all combinations of links: the tree without the element, ordered and counted one less, parent members right unless it stranded subtrees |
| ElementIndex.Index.PutElement | lib/k2hshm.cc:1279-1315 | an unlinked element is below the CKINDEX and counted |
| ElementIndex.Index.MoveElementToUpperMask | lib/k2hshm.cc:996-1068 | moves exactly the elements that match the target under the mask, although taking off re-hangs subtrees under the recursion; both trees stay ordered and linked with exact counts, none is lost or doubled, and it ends |
| ElementIndex.Index.MoveMember | lib/k2hshm.cc:996-1068 | the recursion along a `same` chain moves the rest of the chain if it matches |
| TreeMoves.ChainMatches | lib/k2hshm.cc:996-1068 | members of a chain match a target together or not at all when the subhash decides the hash |
| Forest.IndexedTaken | lib/k2hshm.cc:1321-1537 | after an element is taken off the whole index is right exactly when the element stranded nothing |
| Forest.CompatibleIff | lib/k2hshm.cc:2294-2310 | putting an element in keeps the subhash deciding the hash exactly when no element there has its subhash with another hash |
| Forest.AloneStrandsNothing | lib/k2hshm.cc:1341-1368 | an element that shares both hashes with no other strands nothing |
| Forest.IndexedExpanded | lib/k2hshm.cc:500-559 | adding the slots of one more mask bit, empty and not in use, keeps the index right |
| ElementIndex.Index.ArrangeToUpperKIndex | lib/k2hshm.cc:916-987 | brings the slot of the hash into use after those of the narrower masks; every element is then at the longest prefix in use, and no element is lost |
| ElementIndex.Index.GetKIndex | lib/k2hshm.cc:862-908 | the slot returned is the home of the hash; a lookup that does not merge, or whose own slot is in use, changes nothing |
| ElementIndex.Index.GetCKIndex | lib/k2hshm.cc:1073-1104 | the CKINDEX returned is the one the hash is at home in; nothing moves when the slot of the hash is in use |
| TreeSearch.FoundExactly | lib/k2hshm.cc:1110-1139 | a search finds exactly the elements with both hashes when the subhash decides the hash |
| TreeSearch.FoundHead | lib/k2hshm.cc:1110-1139 | what a search finds has both hashes at its head, in any ordered tree |
| TreeSearch.AllFoundIff | lib/k2hshm.cc:1110-1139 | every element is found under its own hashes if and only if the subhash decides the hash |
| ElementIndex.Index.GetElementListOf | lib/k2hshm.cc:1141-1171 | the chain found has exactly the live elements of the whole file with both hashes, null for none |
| ElementIndex.Index.ReserveElement | lib/k2hshm.cc:1244-1273 | an ELEMENT that was free, from a new area when there is none; fails exactly when the areas array is full then |
| ElementIndex.Index.PutBackElement | lib/k2hshm.cc:1560-1583 | the ELEMENT is first in the free list, which stays linked both ways and counted |
| ElementIndex.Index.ExpandElementArea | lib/k2hshm.cc:564-598 | the ELEMENTs of a new area precede the free list; fails exactly when the areas array is full |
| ElementIndex.Index.InitializeElementArray | lib/k2hshminit.cc:114-139 | new ELEMENTs are linked to each other and lead on to the old list |
| ElementIndex.Index.HangElement | lib/k2hshm.cc:2294-2310 | a held ELEMENT is live at its home, and the index is right |
| ElementIndex.Index.UnhangElement | lib/k2hshm.cc:1321-1537 | a live ELEMENT is held; the index is right if and only if it stranded nothing |
| ElementIndex.Index.ExpandKIndexArea | lib/k2hshm.cc:500-559 | doubles the KINDEXs and moves no element and no home; fails exactly when the areas array has no two entries left |
| ElementIndex.Index.CheckExpandingKeyArea | lib/k2hshm.cc:374-419 | widens the mask exactly when the CKINDEX has too many elements and the mask may grow |
| ElementIndex.Index.constructor | lib/k2hshminit.cc:260-533 | the index of a new file is right and empty |
| ElementStore.KeptExpanded | lib/k2hshm.cc:564-598 | every ELEMENT is live, free or held, and only one of these, when an area is added |
| AreaLayout.AreasDisjoint | lib/k2hshm.cc:92-111 | two areas in use share no offset |
| AreaLayout.Areas.SetAreasArray | lib/k2hshm.cc:92-111 | enters the area in the first unused entry, so that entries in use stay dense; fails exactly when none is left |
| AreaLayout.Areas.ExpandArea | lib/k2hshm.cc:425-498 | the new area is aligned and behind all others; areas stay ascending and disjoint up to unassign_area |
| AreaLayout.Areas.GetLastestArea | lib/k2hshmcomp.cc:46-75 | the last area, unless it is the only one of ELEMENTs or of pages |
| AreaLayout.Areas.RemoveLast | lib/k2hshmcomp.cc:911-915 | the file ends where the area began, and its entry is unused |
| PageArena.Arena.constructor | lib/k2hshminit.cc:260-533 | all pages of a new file are free |
| PageArena.Arena.InitializePageArray | lib/k2hshminit.cc:188-210 | new pages are linked to each other and lead on to the old list |
| PageArena.Arena.ExpandPageArea | lib/k2hshm.cc:604-653 | the pages of a new area precede the free list, chains keep what they store; fails exactly when the areas array is full |
| PageArena.Arena.ReservePages | lib/k2hshm.cc:1648-1725 | takes ceil(length/capacity) pages, and no more, off the free list without running off it; they are one chain and every other chain is as before; fails only when the areas array is full |
| PageStore.TakesCeil | lib/k2hshm.cc:1648-1725 | the number of pages meant there is the length divided by the capacity, rounded up |
| PageArena.Arena.ReserveData | lib/k2hshm.cc:1731-1751 | a new chain that stores the bytes, filled from its first page on |
| PageArena.Arena.PutBackPages | lib/k2hshm.cc:687-729 | the pages precede the free list; the counter starts again from zero when more come back than it holds, and never promises more than the list has |
| PageArena.Arena.Free | lib/k2hpagemem.cc:597-651 | exactly the pages of the chain are free, and no other chain changes |
| PageArena.Arena.ExpandPages | lib/k2hshm.cc:735-769 | the chain is longer by exactly the pages the length takes, which store nothing |
| PageArena.Arena.SetData | lib/k2hpagemem.cc:284-349 | the bytes come first in what the chain stores; fails exactly when they do not fit |
| PageArena.Arena.LoadData | lib/k2hpagemem.cc:128-192 | the bytes loaded are those the chain stores |
| PageArena.Arena.LoadDataAt | lib/k2hpagemem.cc:194-282 | at most length bytes from the offset on; reading from the page and position returned gives what follows them |
| PageArena.Arena.SetDataAt | lib/k2hpagemem.cc:355-469 | overwrites from the offset on, growing the chain as far as needed; all pages but the last with bytes stay full; the page and position returned are where writing ended, and the change of size reported is one exactly when the bytes reach beyond the old end |
| PagePacking.ChainFilled | lib/k2hpagemem.cc:284-349 | writing from the front into a chain that stored nothing packs it, and leaves all other chains packed |
| PagePacking.PatchingPacked | lib/k2hpagemem.cc:355-469 | the chain stays packed at every page that a write at an offset comes to |
| PagePacking.GrowsBeyond | lib/k2hpagemem.cc:355-469 | a page grows under a write only when the bytes reach beyond the old end, and the page it ends in grows then |
| PageTruncate.Truncate | lib/k2hpagemem.cc:475-553 | the old bytes stay; the length reached, which is the one asked for exactly when the value was shorter than a page; and when it fails |
| PageTruncate.NeverReached | lib/k2hpagemem.cc:510-547 | pages that are just enough for a value longer than one page have no room for what is counted as still to come |
| PageStore.PagedReserved | lib/k2hshm.cc:1648-1725 | the first n free pages as a new chain: every page is still in exactly one place |
| PageStore.PagedFreed | lib/k2hshm.cc:687-729 | the pages of a freed chain are free: every page is still in exactly one place |
| Records.OwnsAdopted | lib/k2hshm.cc:2349-2412 | an ELEMENT takes over loose chains: every chain has exactly one owner still |
| Records.OwnsReleased | lib/k2hshm.cc:1588-1630 | an ELEMENT gives up its chains: they are loose, and all others keep their owner |
| K2HShm.Shm.constructor | lib/k2hshminit.cc:260-533 | a new file stands for the empty map |
| K2HShm.Shm.Get | lib/k2hshm.cc:1857-1934 | answers the value of the key, and nothing for an absent key or one without value; the map stays, though the lookup may move elements. The checks with checkattr are not part of it |
| K2HShm.Shm.Lookup | lib/k2hshm.cc:1196-1221 | the ELEMENT found is that of the key, null exactly for an absent key; every pending move is invisible |
| K2HShm.Shm.AllocateElement | lib/k2hshm.cc:2349-2412 | a held ELEMENT with chains for all four byte strings, or nothing at all kept |
| K2HShm.Shm.FreeElement | lib/k2hshm.cc:1542-1555 | exactly the chains of the ELEMENT are freed |
| K2HShm.Shm.Set | lib/k2hshm.cc:2120-2344 | map update, through any expansion of mask, ELEMENTs or pages on the way; all other keys stay; what may remain on failure; does not fail while the areas array has room, nor unless at most one entry of it is left |
| K2HShm.Shm.RemoveKey | lib/k2hshm.cc:2789-2864 | map delete of one key; an absent key is no failure; no chain is left without owner |
| K2HShm.Shm.RemoveFound | lib/k2hshm.cc:2669-2733 | the same for a key with twins in its chain, unless its ELEMENT strands subtrees |
| K2HShm.Shm.ReplacePage | lib/k2hshm.cc:3043-3228 | one part of an entry is replaced, or everything stays, which happens only with a full areas array |
| K2HShm.Shm.Replace | lib/k2hshm.cc:2973-3033 | the same for a key, which is made when it is absent, and it fails only when at most one entry of the areas array is left |
| K2HShm.Shm.Rename | lib/k2hshm.cc:3364-3502 | moves the entry to an absent key; value, subkeys and, without new ones, attributes keep their chains; on failure the map is as before or renamed, and it fails only when a key is missing or at most one entry of the areas array is left |
| K2HShm.Shm.Overwrite | lib/k2hshmdirect.cc:400-476 | puts new data under a key; without room everything stays, which is a full areas array |
| K2HShm.ApartFits | lib/k2hshm.cc:1110-1139 | keys no two of which share a CKINDEX and a subhash meet what every operation asks for |
| K2HShm.ApartLater | lib/k2hshm.cc:916-987 | and go on doing so when slots are brought into use and the mask is widened |
| DirectAccess.Open | lib/k2hdaccess.cc:168-201 | the key is there, made with nothing under it if it was not, and its ELEMENT is found, and it fails only when at most one entry of the areas array is left |
| DirectAccess.WriteChain | lib/k2hdaccess.cc:419-436 | the value overwritten from the offset on in its chain, and its recorded length; without room what was written and when the recorded length is still right |
| DirectAccess.Write | lib/k2hdaccess.cc:392-455 | the map with the value overwritten from an offset within it, or at its end, on; an empty value gets a chain; it fails only when the areas array is full |
| DirectAccess.ValueWritten | lib/k2hdaccess.cc:419-436 | other bytes in one chain change the map in the one value, once the length is recorded |
| SortedArray.CompareTotal | lib/k2hattrs.h:47-66 | the comparison of bytes and then of lengths is a total order |
| SortedArray.LessTransitive | lib/k2hattrs.h:47-66 | and transitive |
| SortedArray.ComparedPlainly | lib/k2hutil.cc:155-168 | behind a common beginning the smaller byte decides, and what ends there comes before what goes on |
| SortedArray.Sorted.Search | lib/k2hattrs.cc:226-272 | the halving ends at the key, or at the place for it |
| SortedArray.Sorted.Find | lib/k2hattrs.cc:226-272 | finds a key exactly when it is in the map, with its value |
| SortedArray.Sorted.Insert | lib/k2hattrs.cc:311-384 | map update, and the vector stays strictly ascending |
| SortedArray.Sorted.Erase | lib/k2hattrs.cc:279-304 | map delete, and the vector stays strictly ascending |
| SubKeys.Serialize | lib/k2hsubkeys.cc:58-111 | the bytes are the number and the records in order |
| SubKeys.Load | lib/k2hsubkeys.cc:113-156 | the subkeys of the complete records of any bytes, and whether it took all, was told that the list is too short, or was misled and would read behind it |
| SubKeys.PassesExactly | lib/k2hsubkeys.cc:129-147 | when the length check tells complete records from others |
| SubKeys.CutExactly | lib/k2hsubkeys.cc:113-156 | a list cut within its last record misleads exactly if at most 8 bytes are missing, or more than the last subkey has |
| SubKeys.SerializedListed | lib/k2hsubkeys.cc:58-156 | loading what was serialized gives the same subkeys, and takes all of them |
| SubKeys.SerializedPlainly | lib/k2hsubkeys.cc:58-111 | where in the bytes the number, the length of the first subkey and that subkey are |
| SizeCodec.LowestFirst | lib/k2hsubkeys.cc:88-104 | a size_t is its eight bytes, the lowest first |
| Subtree.PrunedStep | lib/k2hshm.cc:2735-2787 | what is reached from a key is the key and what its subkeys reach once it is gone |
| Subtree.PrunedTwice | lib/k2hshm.cc:2866-2894 | removing below one subkey and then below the next removes what both reach |
| Subtree.PrunedLeast | lib/k2hshm.cc:2735-2787 | the keys that go are the least set that has the key and, with every key in it, those of its subkey list that exist; all other entries stay |
| Subtree.ListedGone | lib/k2hshm.cc:2866-2894 | the subkeys in a list that was written go with their key, and so do those they list in turn |
| Subtree.NothingListed | lib/k2hshm.cc:2735-2787 | without subkeys nothing but the key itself goes |
| Subtree.ListsDecide | lib/k2hshm.cc:2735-2787 | which keys go depends on the subkey lists alone, whatever the values and attributes are |
| RecursiveRemoval.RemoveAll | lib/k2hshm.cc:2735-2787 | deletes exactly the keys reached through subkey lists, and ends on circles |
| RecursiveRemoval.RemoveBelow | lib/k2hshm.cc:2866-2894 | the loop over the subkeys deletes exactly what they reach |
| PageCompress.CutOffPage | lib/k2hshmcomp.cc:288-366 | any page is taken out of the free list, the others keep their order |
| PageCompress.ReservePagesAvoiding | lib/k2hshmcomp.cc:468-566 | enough pages, none in the area; null, with everything put back, exactly when the counter or the free pages outside the area are not enough |
| PageCompress.CopyPageData | lib/k2hshmcomp.cc:372-462 | the chunk loop copies the byte string, and the source stays |
| PageCompress.CountFreePages | lib/k2hshmcomp.cc:744-776 | true exactly when the free list has as many pages in the area as asked |
| PageCompress.RemoveFreePages | lib/k2hshmcomp.cc:778-810 | the free pages of the area are gone, all others stay, chains are not touched |
| PageCuts.AllSlotsFree | lib/k2hshmcomp.cc:744-838 | as many free pages in an area as it has slots means that all its slots are free |
| PageCuts.AllFreeIff | lib/k2hshmcomp.cc:744-776 | in an area that is made of pages there are as many free pages as it has slots exactly when all its pages are free |
| PageStore.WholeExpanded | lib/k2hshm.cc:604-653 | an area added for pages is made of pages from its start to its end, as all others are |
| ChainMoves.KeyedMoved | lib/k2hshmcomp.cc:573-676 | moving one chain changes what no key stands for |
| ChainMoves.OwnsMoved | lib/k2hshmcomp.cc:573-676 | the copy is owned where the original was |
| AreaCompress.ReplacePageInElement | lib/k2hshmcomp.cc:573-676 | a chain that starts in the area is copied out and freed; the map stays on every outcome |
| AreaCompress.ReplacePagesInElement | lib/k2hshmcomp.cc:678-701 | no chain of the ELEMENT starts in the area, if there was room |
| AreaCompress.ReplaceAllPages | lib/k2hshmcomp.cc:727-740 | no chain of any ELEMENT with a key starts in the area, if there was room |
| AreaCompress.AreaCompress | lib/k2hshmcomp.cc:703-939 | the map stays on every outcome; the last area goes exactly when every page that lies in it is free once the chains that start there have moved, and always when all were free before; then the pages and the free list left are exactly those outside it, and its entry is unused; it fails only when a chain that starts in the area has nowhere to go |
| HashRange.WindowIsArc | lib/k2hshmdirect.cc:117-131 | the window test accepts what lies no further behind the start than the end does |
| HashRange.ArcLength | lib/k2hshmdirect.cc:117-131 | how far the end computed in 64 bits lies behind the start |
| HashRange.WindowIsRange | lib/k2hshmdirect.cc:117-131 | without overflow the test accepts exactly (range - 1) mod max + 1 of max hashes |
| HashRange.RightExactly | lib/k2hshmdirect.cc:117-131 | when the test is right for every hash, with and without overflow |
| HashRange.RightBeyondExactly | lib/k2hshmdirect.cc:117-131 | the same for a start that is not below max |
| HashRange.TooWideRange | lib/k2hshmdirect.cc:117-131 | a range wider than the circle that the test takes for one hash |
| HashRange.OverflowingRange | lib/k2hshmdirect.cc:117-131 | a narrow range with overflow whose own hash the test refuses |
| HashScan.GetElementListToBinary | lib/k2hshmdirect.cc:103-257 | the flattened tree has exactly the chosen elements, each once |
| HashScan.GetElementsByHash | lib/k2hshmdirect.cc:280-328 | finds every chosen element up to the cursor it returns, only chosen ones, and none twice |
| HashScan.ScanAll | lib/k2hshmdirect.cc:280-328 | calls from 0 until the cursor is 0 again find every chosen live element, and no other, although they move elements |
| HashScan.FoundAgain | lib/k2hshmdirect.cc:280-328 | an element is found under its own masked hash and under the one whose slot it is in, which are different exactly when its own slot is not in use yet |
| HashScan.ChosenExactly | lib/k2hshmdirect.cc:117-189 | which elements are chosen, with times in nanoseconds: in the target window, not expired if that is checked, not later than the end, and in the old window not earlier than the start; a time that is not given excludes nothing |
| HashScan.ChosenPlainly | lib/k2hshmdirect.cc:117-189 | the same for ranges that do not overflow, as distances behind the start of a range |
| HashScan.MoreChosen | lib/k2hshmdirect.cc:173-189 | a later end, an earlier start, or none, only adds elements |
| Replication.SetElementByBinArray | lib/k2hshmdirect.cc:343-478 | the merge rule on the map; without room nothing is lost, and there is room unless the areas array is full |
| Replication.MergeRecords | lib/k2hshmdirect.cc:343-478 | a sequence of records merged into a store does to its map what merging them one by one does; it stops only when the areas array is full |
| Timestamps.BeforeIsLess | lib/k2hshmdirect.cc:402-420 | one time is before another exactly when it is fewer nanoseconds |
| Replication.MergedOne | lib/k2hshmdirect.cc:343-478 | what merging one record does, in nanoseconds: an entry that is there stays exactly if it carries a time and that is not before the limit, or the record carries no time or one that is not greater; otherwise the record takes its place, and one without data removes the key |
| Replication.MergedNewest | lib/k2hshmdirect.cc:343-478 | from any content, ties included: the record left under a key has the greatest time of its records in nanoseconds, unless what was held is not older and stays; other keys untouched |
| Replication.OrderFreeIff | lib/k2hshmdirect.cc:343-478 | every order of a set of dated records gives the same content if and only if each key is decided |
| Replication.OrderDoesNotMatter | lib/k2hshmdirect.cc:343-478 | with each key decided, any order and any repetition of the same records gives the same content |
| Replication.TieMatters | lib/k2hshmdirect.cc:343-478 | of two records of a key, merged into any content, the order matters exactly when their mtimes are equal, their entries differ and what is held is older |
| Attrs.Serialize | lib/k2hattrs.cc:58-119 | the bytes are the number and the records in order |
| Attrs.Load | lib/k2hattrs.cc:121-166 | the map of the complete records of any bytes, and whether a length check was misled |
| Attrs.WalkedRecords | lib/k2hattrs.cc:121-166 | what is taken from any bytes is what they spell from first to last: whole records, in order |
| Attrs.SerializedWalked | lib/k2hattrs.cc:58-166 | loading what was serialized takes all of it |
| Attrs.SerializedLoaded | lib/k2hattrs.cc:58-166 | and gives back the same vector |
| Attrs.SerializedPlainly | lib/k2hattrs.cc:58-119 | where in the bytes the number, both lengths and the data of the first attribute are |
| Attrs.PassesExactly | lib/k2hattrs.cc:140-164 | when the size_t check tells complete records from others |
| Attrs.MisledBuffer | lib/k2hattrs.cc:140-164 | 24 bytes for which it does not |
| MmapList.MmapInfos.Add | lib/k2hmmapinfo.h:64-86 | the list stays sorted by file offset, and has the new area |
| MmapList.MmapInfos.Unmap | lib/k2hmmapinfo.h:106-120 | the list has all areas but the one |
| MmapList.MmapInfos.CvtAbs | lib/k2hmmapinfo.cc:674-682 | the address of an offset |
| MmapList.MmapInfos.CvtRel | lib/k2hmmapinfo.cc:684-692 | the offset of an address |
| MmapList.AbsExactly | lib/k2hmmapinfo.cc:587-682 | an address lies as far behind the base of its area as the offset behind that of the area; null when no area has the offset |
| MmapList.RelExactly | lib/k2hmmapinfo.cc:616-692 | and the other way round; an address that is not mapped stays |
| MmapList.AbsThenRel | lib/k2hmmapinfo.cc:587-692 | a mapped offset other than 0 comes back exactly when its area is not mapped one byte below its offset |
| MmapList.RelThenAbs | lib/k2hmmapinfo.cc:587-692 | and so does an address |
| MmapList.AlignedPlain | lib/k2hmmapinfo.cc:587-614 | areas at page boundaries are never mapped so |
| MmapList.MmapInfos.Next | lib/k2hmmapinfo.cc:723-766 | the address one slot further in its area, or the start of the next area of the type, or null |
| MmapList.VisitAll | lib/k2hmmapinfo.cc:694-766 | begin and next visit the slots of all areas of a type, in the order of the file |
| MmapList.VisitedOnce | lib/k2hmmapinfo.cc:694-766 | no slot is visited twice |
| MmapList.VisitedExactly | lib/k2hmmapinfo.cc:694-766 | every slot of every area of the type is visited, and nothing else |
| MmapList.WholeSlots | lib/k2hmmapinfo.cc:723-766 | an area whose length is n slots has n slots |
| AreaMonitor.FileMonitor.CheckArea | lib/k2hfilemonitor.cc:449-472 | tells whether the counter is not the one kept |
| AreaMonitor.FileMonitor.UpdateArea | lib/k2hfilemonitor.cc:531-564 | moves the counter on by one byte and tells whether another process had moved it before |
| AreaMonitor.OrderlyStep | lib/k2hshm.cc:425-498 | in every interleaving one process at a time adds an area, and the header is ahead of the counter only while it does |
| AreaMonitor.NoAreaMissed | lib/k2hshm.cc:4160-4227 | over all interleavings: a process that the counter told of updates whenever it counted one itself, and tells now, and whose kept counter is the shared one, has mapped every area |
| AreaMonitor.CatchesUp | lib/k2hshm.cc:4160-4227 | while nobody adds an area a process whose kept counter is not the shared one can notice that and then has mapped exactly the areas of the header, and so has one that attaches |
| AreaMonitor.ExpandsUpToDate | lib/k2hshm.cc:425-498 | and a process that adds one, after it has mapped all areas if its counter was behind |
| AreaMonitor.ToldExactly | lib/k2hfilemonitor.cc:449-472 | a process that has mapped exactly what it has seen is right to trust an equal counter if and only if no multiple of 256 updates passed |
| AreaMonitor.CountExactly | lib/k2hfilemonitor.cc:531-564 | and so for the update it counts itself |
| AreaMonitor.UncheckedMisses | lib/k2hshm.cc:425-498 | a run in which an updater that ignores is_need_check misses an area although the counter tells it of every update |
| AreaMonitor.ByteComesRound | lib/k2hfilemonitor.cc:531-564 | for every number of updates a run after which the kept counter is the shared one exactly if the number is a multiple of 256 |
| History.MakeHistoryKey | lib/k2hshm.cc:121-139 | the history key, refused without a key or an id |
| History.ParseHistoryKey | lib/k2hshm.cc:141-177 | finds key and id of every history key, zeros in the key included, and refuses everything else |
| History.HistoryKeyUnique | lib/k2hshm.cc:121-177 | a history key belongs to one key and one id |
| History.HistoryStarts | lib/k2hshm.cc:2104-2118 | switching history on over what was stored before gives every key its one value |
| History.VersionAdded | lib/k2hshm.cc:2120-2344 | setting a key puts its value in front of those before it, and touches no other key |
| History.AllVersionsFollowed | lib/k2hshm.cc:3509-3718 | following the parent ids from a key meets every value it was given, newest first, and nothing more |
| History.FollowingAttrs | lib/k2hshm.cc:2210-2275 | a following version has the value and the subkeys asked for, two new ids, and otherwise the attributes there were but those of features that are off |
| HistoryStore.SetUniqId | lib/k2hattrbuiltin.cc:757-806 | a new id, and the old one as parent |
| HistoryStore.Update | lib/k2hattrbuiltin.cc:561-725 | with only history on: an id where there was none, and no attributes of features that are off |
| HistoryStore.Mark | lib/k2hshm.cc:3545-3590 | the attributes an archived version is written with, and its id |
| HistoryStore.RenameForHistory | lib/k2hshm.cc:3509-3718 | what was under the key is, marked, under its history key; all other keys stay on every outcome, and it fails only when at most one entry of the areas array is left |
| HistoryStore.Set | lib/k2hshm.cc:2104-2344 | a set with history on in the store: the versions it stands for are those the history asks for, so that all values can still be followed; the key keeps its subkeys and its other attributes, the archived version all it had with only its mark, and its id if it had none, added, and it fails only when at most one entry of the areas array is left |
| CommandArchive.Archive.Put | lib/k2hcommand.cc:69-201 | builds the buffer of a command, each part behind the ones before it; refuses a command without what its type needs |
| ArchiveFile.CommandRead | lib/k2harchive.cc:279-383 | from among other bytes the command written is read back, and the next one starts where it ends |
| ArchiveFile.FileLoaded | lib/k2harchive.cc:279-383 | a file of commands is walked command by command, each with its data, in order |
| ArchiveFile.FirstRefused | lib/k2harchive.cc:279-383 | the first refused command ends the load, or is passed over if that is wanted |
| ArchiveFile.CarriedApplied | lib/k2hcommand.cc:69-201 | what a command does not carry it does not use |
| ArchiveFile.CommandsDo | lib/k2harchive.cc:326-375 | type by type, the entry a command leaves under its key |
| ArchiveFile.SetAllLayout | lib/k2hcommand.cc:69-201 | byte by byte, the fields and data of the command that sets everything |
| ArchiveFile.SaveKey | lib/k2harchive.cc:161-241 | the file goes on with the commands for one key, a long value in chunks |
| ArchiveFile.ChunksApplied | lib/k2harchive.cc:86-257 | the overwrite chunks put a long value together again |
| ArchiveFile.SavedThenLoaded | lib/k2harchive.cc:86-383 | a list of keys with entries, as commands in a file and loaded into nothing, gives the same keys with the same entries |
| ArchiveLoad.ApplyTo | lib/k2harchive.cc:326-375 | each command does to the store what it does to the map |
| ArchiveLoad.Load | lib/k2harchive.cc:279-383 | loading any file into a store does to its map what the file says, up to the first failure or past it; it ends for want of room only when at most one entry of the areas array is left |
| ArchiveLoad.OverwriteValue | lib/k2harchive.cc:343-360 | an overwriting command makes the key and writes the value at the offset in its place |
| ArchiveSave.Save | lib/k2harchive.cc:86-257 | the walk over the ELEMENTs writes each key of the store once, with its entry, and leaves the map as it was |
| ArchiveSave.SavedRestored | lib/k2harchive.cc:86-383 | the archive of a store, loaded into an empty one with room, ends well and gives the same map |
| ArchiveSave.ArchiveAbout | lib/k2harchive.cc:86-383 | the commands in an archive name the keys saved and no others |
| ArchiveSave.SaveThenLoad | lib/k2harchive.cc:86-383 | saving one store and loading the archive into an empty one: both hold the same, unless there is no room, which means that at most one entry of the areas array is left |
| Findings.StrandedRun | lib/k2hshm.cc:1341-1368 | from an empty file: four keys of one hash and two subhashes, after which taking off the root leaves the index broken |
| Findings.LostRun | lib/k2hshm.cc:1110-1139 | from an empty file: a second element with the same subhash and another hash is in the tree and not found |

## Left out

- Locks and fullock, mmap, msync, file descriptors and monitor files: a process is modelled as having the whole file mapped; only `AreaMonitor` has several processes.
- Pages read and written through a descriptor (K2HPageFile); the pages are those of K2HPageMem.
- The parts of K2HDAccess that read, stream or set an offset behind the end of a value, but for the Truncate they use.
- Area-avoiding ReserveElement, ReplaceElement and the PAGELIST branch of AreaCompress: only areas of pages are given up.
- Ciphers, attribute plugins, hash libraries, transactions and their files, queues, the C interface, dumps: hashes are functions of the key, and ids, clocks and expiry are parameters.
- CheckInode and UpdateInode, whose counter follows the same pattern as the one for areas; repair branches for links that the invariants rule out.
- Set with isRemoveSubKeys, which removes recursively after it has inserted; `RecursiveRemoval` has that removal.
- The widths of hashes, counts and offsets, which are unbounded but for the size_t and 64-bit sums named above; ELEMENT members are kept as two maps, and the CKINDEX lists of a KINDEX are implicit.
- Elements are visited in an order that is given: `ArchiveSave.Save` and `AreaCompress.AreaCompress` take the addresses of all ELEMENTs, which `MmapList.VisitAll` finds one area after the other.
- ElementIndex.Index.HangElement: asks that no element of the CKINDEX has the same subhash with another hash; the program hangs such an element too. `Forest.CompatibleIff` says exactly when the index then goes on deciding the hash by the subhash, and `TreeSearch.AllFoundIff` what is found otherwise.
- K2HShm.Shm.Get: the checks of checkattr (expired, history marks, decryption) are omitted; the value is the stored one.
- K2HShm.Shm.Set: asks that no other key has both hashes of the key and that no key of its CKINDEX has its subhash with another hash; `ElementIndex.Index.UnhangElement`, `Forest.CompatibleIff` and `TreeSearch.AllFoundIff` say exactly what happens otherwise. Subkeys and attributes are given as bytes.
- K2HShm.Shm.RemoveKey: asks that no other key has both hashes of the key, which `K2HShm.Shm.RemoveFound` weakens to an ELEMENT that strands nothing.
- K2HShm.Shm.Overwrite: asks of the key what `K2HShm.Shm.Set` asks.
- K2HShm.Shm.Rename: asks for an absent new key, since the program does not look it up; a failure after the chain of the new key was reserved leaves that chain without owner, as in the program.
- PageTruncate.Truncate: asks for a length beyond the bytes there are, as all callers do; a shorter one would leave the first page naming a page that was freed. What the new bytes are is not said.
- DirectAccess.Write: asks for an offset within the value or at its end, and does not write the transaction.
- RecursiveRemoval.RemoveAll: asks that no two keys share both hashes, since any of them may be removed; where the length check of a subkey list is misled the program reads on behind the list, and the model stops.
- SubKeys.Load: where the length check is misled the program reads on behind the list; the model stops and reports it.
- Attrs.Load: where a length check is misled the program reads on behind the buffer; the model stops and reports it.
- AreaCompress.AreaCompress: asks that the last area is not one of ELEMENTs.
- PageCompress.CopyPageData: keeps offsets from the start of the chain where the program keeps page and position.
- HashScan.GetElementListToBinary: the binary records of the elements are not built; the elements stand for them.
- MmapList.MmapInfos.Next: asks that no area is mapped one byte below its file offset, as areas at page boundaries are not; lookups do not try again after an update.
- MmapList.VisitAll: asks the same.
- Replication.SetElementByBinArray: takes the hashes of a record from its key instead of from the record.
- Replication.MergeRecords: asks that no two keys, of those held and those merged, share a CKINDEX and a subhash, and stops at the first record without room.
- HistoryStore.Update: mtime, expiry and encryption are off, as only history is modelled.
- HistoryStore.RenameForHistory: asks that no two keys, history keys included, share a CKINDEX and a subhash.
- HistoryStore.Set: asks the same, and fresh ids and a key that is not the history key of another; the attributes chain of an archived version is reserved after its key chain; values are not encrypted and mtime and expiry are off.
- ArchiveLoad.ApplyTo: asks that no two keys, of those held and those the command names, share a CKINDEX and a subhash. Nothing is promised of the store once it had no room, for a write at an offset may then have left a recorded length behind, as in the program.
- ArchiveLoad.Load: asks the same of all keys that the walk over the file comes to; it ends where a write would leave a gap behind the value, where a rename names a key in use and where an offset has more than eight bytes, without saying what the program does.
- ArchiveSave.Save: elements that cannot be read, and failing writes to the file, are not modelled.
