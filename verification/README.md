# Prefix lookup: models and proofs

The repository implements one function many times over: given a set of IP prefixes, find the longest one
covering an address (the longest-match forwarding rule, section 5.1 of RFC 4632), and beside it membership
in the union of the prefixes and walks over the prefixes above and below one. Each implementation compiles
or maintains its own structure. This project states the function once, in `Prefixes`, and proves the
structures against it: for every table, every address and, where a structure is updated, every run of
updates.

An address is a number below 2^32 or 2^128; a prefix is a masked key and a length. The tries work on octet
strings, and `Octets` carries answers between the two views. A Go bitset is a sequence of booleans with
its rank, and the word-level forms the lookups use are proved to compute it (`Bitsets`, `ArtSearch`). Code
on two 64-bit words is modelled on two words and tied to the 128-bit number by `Words`.

What is modelled, cluster by cluster:

- **The compiled arena ART** (`internal/flatart`; modules `Flat*`): the build-time trie, the summaries that
  collapse single-prefix subtrees, the arenas with inherited defaults at ART index 1 and base-plus-rank
  value numbers, the shared root blocks, both lookups, exact match and enumeration. The proof carries, for
  every reference written, that it answers each key and finds each prefix below its subtree, and that later
  growth and patching cannot disturb it. A weight on the build nodes bounds what compiling adds, so that
  a build of few enough prefixes succeeds.
- **The path-compressed tries**: `aosart` under insertion (fringes, leaves, splits, freeze to ranked runs;
  modules `Aosart*`) with the managed table over it, and `artlpm` under insertion and deletion (pruning, the
  IPv4 front table, prefix queries, enumeration; modules `Art*`), each equal to a finite map.
- **The step function** (`slotlpm`; modules `Slot*`): the stack sweep, the slots, the second cut and both
  lookups. The second cut compares one octet and skips those above it, so a lookup is right for some keys
  and not for others; `SlotIndex.FindIsStepAt` says exactly which, and `SlotBuilder.SecondCutMisleads`
  is a table and a key for which every index the builder can make of it answers wrongly. That is a statement
  about the builder because a table has only one collapsed step array (`SlotSweep.CollapsedUnique`).
- **The parity set** (`parityset`; modules `Parity*`): merging to the least list of ranges, boundary parity,
  front codes, slots and sub-blocks, and the table that publishes nothing when the union cannot have
  changed. After a refused batch what is stored runs ahead of what is published; every method is specified
  in those states too.
- **The preorder catalogue** (`orderwalk`, `old/fiborderwalk`; modules `Preorder`, `OrderWalk`): the parent
  stack, predecessor and climb, exact search and both walks. The table keeps an IPv4-mapped prefix among
  its IPv6 routes while a query for it looks among the IPv4 ones, so an exact query finds what was inserted
  only for other prefixes (`OrderWalk.InsertedIsSought`, `OrderWalk.MappedIsLost`); the comment on
  normalising at orderwalk/table.go:292 says otherwise.
- **The leaf-pushed tables** (`old/blocklpm`, and `dirlpm` for IPv4; modules `Painting`, `Blocks4`,
  `Blocks6`, `BlockLpm`): shortest-first painting over 16-8-8 blocks and over IPv6 strides.
- **Managed generations** (`compiledfib` with `internal/routepages`; modules `FibProtocol`, `Catalogs`,
  `CompiledFib`, `FibTable`): the writer protocol as a state machine over its atomic steps, proved over all
  runs, and a class whose every method is one of those steps on real generations and pages.

Objects the source updates in place are classes whose methods say what the whole state becomes; the
compilers append to fields of a class as the source appends to its arenas; values (frozen trees, indexes,
prefixes) are datatypes. Ghost parameters of the query methods name the catalogue or the build state the
structure was made from. Ghost fields keep that catalogue beside the real fields, and `Valid()` ties the two
together.

## Model

| member | source | states |
|---|---|---|
| Prefixes.CoversIsRange | slotlpm/build.go:564-585 | a canonical prefix covers exactly the addresses from its key to its last address |
| Prefixes.Nested | aosart/tree.go:299-309 | the covering prefixes of an address are nested: a shorter one covers everything a longer one covers |
| Prefixes.AnswerUnique | aosart/tree.go:204-210 | at most one id is the answer for an address: the longest covering prefix is unique |
| Prefixes.LastCoverIsLongest | orderwalk/table.go:20-30 | in preorder (address, then shortest first) the last prefix covering an address is the longest one |
| Prefixes.LastPaintedIsLongest | old/blocklpm/table.go:68-72 | in shortest-first order the last prefix covering an address is the longest one |
| Requests.MaskIsCanonical | prefixentry/entry.go:25-31 | masking keeps the covered set: the masked prefix is canonical, covers exactly what agrees with the address on its length, and leaves a canonical prefix alone |
| Requests.NormalizeMeans | prefixentry/entry.go:25-31 | a prefix is accepted exactly when it has an address and at most 32 or 128 bits; the network keeps its family and length and covers exactly the addresses that agree with it on that many bits |
| Requests.DecomposeIsCanonical | parityset/table.go:318-350 | a request is refused or becomes a canonical network of its family, and a canonical one that is not mapped is kept as it is |
| Requests.DecomposeMeans | internal/addrkey/addrkey.go:76-104 | a request that is not mapped is accepted exactly when it has an address and at most 32 or 128 bits; its network has the request's family and length and covers exactly the addresses that agree with the request's on that many bits; a mapped one is accepted exactly from 96 to 128 bits, as the IPv4 network of the low 32 |
| Requests.UnmapKeepsCovers | parityset/table.go:324-330 | an IPv6 request inside ::ffff:0:0/96 is accepted as the IPv4 network that covers exactly the addresses whose mapped forms the request covers |
| Requests.CatalogMeans | orderwalk/table.go:73-84 | every entry is in the table unless a later one is read as the same network, and nothing else is |
| Octets.PosCoversIsCovers | internal/art/art.go:10-21 | covering by stride position (equal leading octets, then an ancestor ART index) is covering by address bits, for both ways of splitting a length |
| Octets.PosInjective | internal/art/art.go:17-30 | two canonical prefixes with the same path and ART index are the same prefix |
| Octets.IdxOctet | internal/art/art.go:27-31 | the octet of an ART index, with its length, rebuilds the index |
| Octets.AncOrder | internal/art/art.go:75-88 | among the ancestors of an octet, a larger ART index is a longer prefix |
| Octets.PosAnswersIsAnswers | internal/flatart/build.go:98-110 | a longest match over stride positions is a longest match over prefixes |
| ArtSearch.LpmTop | internal/art/lookuptbl.go:23-50 | the word-by-word intersection from the top word down finds the highest set ancestor of an octet, or none |
| ArtSearch.AncestorRow | internal/art/lookuptbl.go:12-20 | halving from the host index down to one fills the row with exactly the ancestors of the octet |
| ArtSearch.CoverRow | aosart/tree.go:70-79 | the 256-bit row has exactly the ancestors of an octet shorter than the whole octet |
| Bitsets.WordRank | aosart/tree.go:127-139 | precomputed word ranks plus the popcount of the partial word is the rank of the bit |
| Bitsets.RunningRanks | aosart/build.go:178-213 | the running popcounts stored with a frozen bitset are the ranks at its word boundaries |
| Bitsets.PutReads | artlpm/table.go:801-809 | after setting a bit and splicing its item in, every bit still reads its own item |
| Bitsets.RemoveReads | artlpm/table.go:811-816 | after clearing a bit and splicing its item out, every other bit still reads its own item |
| AosartBuild.BuildTree.SetPfx | aosart/build.go:65-75 | setting a node's prefix stores exactly that position with that id and keeps the tree's invariant |
| AosartBuild.BuildTree.SplitFringe | aosart/build.go:143-154 | pushing a fringe down into a new node changes nothing that is stored |
| AosartBuild.BuildTree.SplitLeaf | aosart/build.go:156-166 | pushing a leaf down one stride, as a prefix, a fringe or a leaf of the new node, changes nothing that is stored |
| AosartBuild.BuildTree.Insert | aosart/build.go:108-169 | from any node on the prefix's path, inserting stores exactly that prefix with its id, replaces an equal one, disturbs no other, and keeps every fringe and leaf the only prefix below its slot; at most one node and one leaf a remaining stride are added |
| AosartTree.Freeze | aosart/build.go:178-213 | the frozen tree holds each build node's bitsets, and its shared item runs, addressed by base and rank, hold each node's items |
| AosartTree.SliceReads | aosart/tree.go:127-139 | reading the shared run at base plus word rank gives the build node's own item |
| AosartTree.Lookup | aosart/tree.go:210-247 | the iterative descent returns the id of the longest stored position covering the address, and found is whether there is one |
| AosartTree.Exact | aosart/tree.go:253-290 | found is whether the prefix is stored, and then the id is the last one stored for it |
| AosartIndex.Builder.AddKey4 | aosart/build.go:232-237 | the IPv4 table gains the prefix with the next id, and the tree stays within four nodes and leaves an addition; asked of fewer than 2^26 - 1 earlier additions |
| AosartIndex.Builder.AddKey6 | aosart/build.go:240-244 | the IPv6 table gains the prefix with the next id, and the tree stays within sixteen nodes and leaves an addition; asked of fewer than 2^26 - 1 earlier additions |
| AosartIndex.Builder.Add | aosart/build.go:258-283 | a repeated prefix gets its first id back and changes nothing, a full builder refuses, and otherwise the family's table gains the prefix with the next id and the other family is untouched; a new prefix is asked of fewer than 2^26 - 1 earlier additions or a full builder |
| AosartIndex.Builder.Build | aosart/build.go:300-306 | both families' frozen trees hold what the builder stored |
| AosartIndex.LookupIndex | aosart/table.go:45-60 | after any insertions, the built index answers every address with the id of its longest covering prefix |
| AosartIndex.ExactIndex | aosart/table.go:64-75 | after any insertions, the built index finds a prefix exactly when it is in the table, with its id |
| PackedKeys.PackedOrder | parityset/table.go:273-276 | packed IPv4 keys unpack to what was packed and are ordered as the prefixes are |
| PackedKeys.EntryOrder | parityset/table.go:279-287 | IPv6 entries unpack to what was packed and are ordered as the prefixes are |
| PackedLists.Search | aosart/table.go:363-366 | the binary search stops at the first key not below the one sought |
| PackedLists.DedupSorted | parityset/table.go:290-315 | collapsing equal neighbours of a sorted slice leaves a strictly sorted slice with the same elements |
| PackedStore.Locate | aosart/table.go:411-447 | the slot found for a mutation is the one its key and value occupy, and exists says whether the prefix is stored |
| PackedStore.ApplyOne | aosart/table.go:477-521 | splicing one mutation into or out of the packed slices is putting it into or taking it out of the map, as `FoldMeans` spells out |
| PackedStore.FoldMeans | aosart/table.go:391-474 | after a batch a prefix has the value of the last mutation for it, or is absent if that deletes it; one no mutation is for is as it was |
| PackedStore.PatchKeeps | aosart/table.go:448-468 | overwriting one value in the packed values and at its slot of the published vector is one put, and the vector still lists the values in order |
| PackedStore.DomainKept | aosart/table.go:404-447 | a mutation that adds and removes nothing leaves the set of prefixes alone, and deleting an absent prefix changes nothing |
| Sorting.SortKeepsLast | aosart/table.go:304-340 | among elements of one kind and one key, the last before a stable sort is the last after it |
| StoreReset.SortKeepsValue | aosart/table.go:304-340 | the stable sort keeps, for every key, the value its last entry gives it |
| StoreReset.Collapse | aosart/table.go:304-340 | collapsing runs of equal keys keeps one of each key, bound to the last value given for it |
| StoreReset.Repack | aosart/table.go:288-344 | entries are refused exactly when one of them is bad; otherwise the packed slices hold the map in which the last value for each prefix wins |
| AosartTable.Index | aosart/table.go:538-557 | the rebuilt index numbers the prefixes in packed order, IPv4 then IPv6, and answers with those numbers |
| AosartTable.LocateAll | aosart/table.go:391-447 | a batch is bad exactly when one of its prefixes is, and structural exactly when one of its mutations would add or remove a prefix |
| AosartTable.Table.ApplyBatch | aosart/table.go:391-474 | a batch with a bad prefix changes nothing; otherwise the table denotes the old map with each prefix bound by the last mutation for it, absent if that deletes it, and as it was if there is none, whether it republished the values alone or rebuilt |
| AosartTable.Table.Delete | aosart/table.go:354-388 | deleted is whether the prefix was stored, and the table then denotes the map without it |
| AosartTable.Table.Reset | aosart/table.go:288-344 | bad entries change nothing; otherwise the table denotes exactly the entries, each prefix with the value of the last one for it |
| AosartTable.Table.Lookup4 | aosart/table.go:198-205 | after any run of batches, an IPv4 lookup returns the value of the longest covering prefix of the denoted map, or none |
| AosartTable.Table.Lookup6 | aosart/table.go:198-205 | the same for an IPv6 address given as two words |
| FlatIndex.PackedRank | internal/flatart/flatart.go:458-471 | a rank read from byte-packed word sums plus a partial popcount is the rank of the bit |
| FlatIndex.StrideAnswers | internal/flatart/flatart.go:368-445 | base plus rank over the host set, then over the short set with the default at index one, is the longest match among the stride's own prefixes, or the inherited default |
| FlatBuild.Family.Insert | internal/flatart/build.go:73-110 | a zero reference is refused; otherwise the family's table gains the prefix with that reference, by root key up to sixteen bits and by stride position beyond, and one insertion adds at most a prefix and a node a stride |
| FlatSummary.Summarize | internal/flatart/build.go:273-297 | every build node below the start learns how many prefixes lie at or below it, and a single one is known with its key rebuilt from the path |
| FlatWeight.KidsWeigh | internal/flatart/build.go:398-415 | the references a node reserves for its children are paid for by the weights of those still to be emitted |
| FlatWalk.WalkKept | internal/flatart/build.go:380-438 | growing the arenas, or patching them below a floor, leaves every descent that stays above the floor unchanged |
| FlatWalk.ExactWalkKept | internal/flatart/build.go:380-438 | the same growth leaves every descent to a stored prefix unchanged |
| FlatCompile.Compiler.AssignRun | internal/flatart/build.go:310-345 | a set of stride prefixes gets consecutive values in index order, so base plus rank is each one's value |
| FlatCompile.Compiler.EmitLeaf | internal/flatart/build.go:441-468 | the reference to a path-compressed leaf answers for the whole subtree: its only prefix where that covers, the default elsewhere |
| FlatCompile.Compiler.EmitStop | internal/flatart/build.go:361-377 | the reference to a childless stride answers for the whole subtree |
| FlatCompile.Compiler.EmitNode | internal/flatart/build.go:380-438 | the reference to a node, its child references reserved first and filled after, answers for the whole subtree |
| FlatCompile.Compiler.Flatten | internal/flatart/build.go:310-358 | the reference returned answers every key below the subtree's path with the longest prefix stored there, or the inherited default, finds every prefix stored there with its own value, and stays right when the arenas grow; what is added is within the subtree's weight, and only a budget past the arenas' bound can fail |
| FlatRoot.PaintRoot | internal/flatart/build.go:179-205 | pushing the short prefixes shortest first gives every root slot the value of its longest short prefix, and records each prefix's value once |
| FlatRoot.HangSubtrees | internal/flatart/build.go:207-223 | after hanging the subtrees every root slot is right for all keys below it |
| FlatRoot.SplitRoot | internal/flatart/build.go:234-258 | through the two-level root, shared blocks included, every one of the 65536 slots reads what the flat root held |
| FlatRoot.FamilyAnswer | internal/flatart/build.go:73-110 | the longest match over short and long prefixes together is the long one's where any covers and the short one's otherwise |
| FlatLookup.Builder.Build | internal/flatart/build.go:125-143 | with 1 + 7 IPv4 + 43 IPv6 insertions below 2^30 the build succeeds and no value reaches a tag; whenever it succeeds and no value reaches a tag, the built index answers every key of both families with a value whose reference belongs to the longest inserted prefix covering it, zero exactly when none does, and, if the exact table was asked for, every prefix is found with the value of its last reference exactly when it was inserted |
| FlatLookup.Lookup4 | internal/flatart/flatart.go:205-233 | the unrolled IPv4 lookup returns a value whose reference is the answer for the key, zero exactly when nothing covers it |
| FlatLookup.Lookup6 | internal/flatart/flatart.go:238-268 | the IPv6 loop returns a value whose reference is the answer for the key, zero exactly when nothing covers it |
| FlatExact.TableLookup | internal/flatart/exact.go:30-46 | the bisection over packed words finds the value recorded for the key, zero when there is none |
| FlatExact.TakeExact | internal/flatart/build.go:161-170 | the exact table is the recorded words in order |
| FlatExact.TakenRight | internal/flatart/build.go:161-170 | that table holds every short prefix once, under the value of its reference, and nothing else |
| FlatExact.ExactAtIsMember | internal/flatart/exact.go:123-136 | testing one ART index through the packed ranks gives the value of that very prefix of the stride, or zero |
| FlatExact.Exact | internal/flatart/exact.go:59-119 | over a built index an exact match is nonzero exactly when the prefix was inserted, and its value then belongs to the prefix's last reference |
| FlatAll.AllSets | internal/flatart/enumerate.go:92-127 | the set bits of a stride give each of its own prefixes once, rebuilt from path and index, with base plus rank as its value, and never the inherited default |
| FlatAll.AllRef | internal/flatart/enumerate.go:55-87 | from any reference the recursion lists every prefix stored below its path, each once, with its value |
| FlatAll.AllFamily | internal/flatart/enumerate.go:28-52 | the exact table and the subtrees below the root's slots together list exactly the prefixes an exact match finds, each once |
| FlatAll.All | internal/flatart/enumerate.go:20-25 | enumerating a built index yields each inserted prefix of either family once, with the value an exact match returns for it, which belongs to its last reference |
| Words.Cmp128IsOrder | slotlpm/build.go:284-298 | comparing word by word is comparing the 128-bit numbers |
| Words.Inc128IsNext | slotlpm/build.go:301-311 | the increment with carry is the next number, and fails exactly at the top address |
| Words.LastWordsIsLast | orderwalk/table.go:447-459 | the last address computed on two words is the prefix's last address |
| Words.Covers6IsCovers | orderwalk/table.go:270-276 | the two-word covering test is covering |
| Words.Byte6IsOctet | old/blocklpm/table.go:254-259 | the octet taken from either word is the octet of the 128-bit address |
| SlotSweep.EmitMeans | slotlpm/build.go:157-176 | emitting a step changes the step function exactly from its bound on, overwriting a step at the same bound and dropping one that repeats the id |
| SlotSweep.WinIsAnswer | slotlpm/build.go:151-156 | over ranges sorted by first address and widest first, the last range holding an address is its longest covering prefix |
| SlotSweep.Sweep | slotlpm/build.go:151-212 | the steps are strictly ascending from address zero, adjacent ids differ, there are at most two a route and one more, and the last step at or below any address carries the id of its longest covering prefix, or zero |
| SlotSweep.FewestSteps | slotlpm/build.go:157-176 | no step array that answers every address alike has fewer steps |
| SlotSweep.CollapsedUnique | slotlpm/build.go:151-212 | a table has one collapsed step array: two that answer every address alike are equal |
| SlotCut.BestShift | slotlpm/build.go:477-501 | the octet chosen for a second cut is reached through octets in which the slot's steps are constant, and no such octet has a lighter fullest bucket |
| SlotCut.AppendSubBlock | slotlpm/build.go:456-474 | each of the 256 entries has the first step at or past its octet and the id in force there |
| Slots.BuildSlotOffsets | slotlpm/build.go:441-453 | each slot's offset splits the sorted bounds at the first one whose top bits reach the slot |
| Slots.ChooseLevel1Bits | slotlpm/build.go:424-438 | sixteen bits are used exactly when enough distinct sixteen-bit slots occur |
| SlotIndex.Compile | slotlpm/build.go:327-364 | every slot has its steps, the id in force at its start, and, above the threshold, a second cut at the best octet |
| SlotIndex.FindIsStepAt | slotlpm/index.go:168-226 | the localised lookup finds the step the whole search finds for every key whose slot holds at most twelve steps and every key that agrees with its slot's steps above the octet of the second cut; that octet is the lightest eligible one, and for any other key the two answers are the winners at one end of its bucket and at that end of the slot |
| SlotIndex.SeekIsStepAt | slotlpm/index.go:196-226 | searching only between two offsets that split the bounds around the key finds the step the whole search finds |
| SlotLookup.Scan | slotlpm/index.go:198-206 | the short-run scan finds the last step at or below the key |
| SlotLookup.Bisect | slotlpm/index.go:207-226 | the branch-free bisection finds the same step as the scan, for arrays of at most 2^31 steps |
| SlotLookup.Lookup4 | slotlpm/index.go:168-226 | the IPv4 lookup returns the longest covering prefix's id for every key whose slot holds at most twelve steps, and in a fuller slot for every key that agrees with its steps above the cut octet, which a cut directly below the window makes all of them; for any other key it returns the winner at one end of its bucket and the longest match is the winner at that end of the slot; for arrays of at most 2^31 steps |
| SlotLookup.Lookup6 | slotlpm/index.go:229-306 | the same for an IPv6 address on two words, low words dropped when all zero |
| SlotBuilder.Builder.AddKey4 | slotlpm/build.go:564-572 | a new IPv4 prefix becomes a range with the next id |
| SlotBuilder.Builder.AddKey6 | slotlpm/build.go:575-589 | a new IPv6 prefix becomes a range with the next id |
| SlotBuilder.Builder.Build | slotlpm/build.go:126-131 | both families are compiled into steps that answer the table, start at zero, never repeat an id and number at most two a route and one more, with their cuts |
| SlotBuilder.SecondCutMisleads | slotlpm/build.go:477-501 | a table of thirteen /24s and a key outside them: every step array and index the builder can make of that table answer a route instead of none |
| Blocks4.PaintRoot | old/blocklpm/table.go:89-102 | every root cell has the value of the longest prefix of at most sixteen bits covering it |
| Blocks4.Needed | old/blocklpm/table.go:76-88 | blocks are allocated for exactly the cells with a longer prefix below them |
| Blocks4.Compile4 | old/blocklpm/table.go:72-153 | every cell of the three levels has its value or the block of its own key, whatever order the blocks come in, and the compilation refuses only a third level too big for its tag |
| Blocks4.Lookup4 | dirlpm/table.go:172-182 | following at most two tags returns the value of the last entry covering the key in shortest-first order |
| Blocks4.Lookup4Answers | dirlpm/build.go:46-160 | that value is the longest match of the table the entries list |
| Blocks6.InsertFollows | old/blocklpm/table.go:196-228 | inserting a prefix into the trie changes the value of exactly the addresses it covers, provided nothing longer is there yet |
| Blocks6.BuildTrie | old/blocklpm/table.go:170-180 | the trie built shortest first gives every address the value of its longest covering entry, and needs at most fourteen blocks an entry |
| Blocks6.InsertNeeds | old/blocklpm/table.go:196-228 | inserting a prefix adds at most one block a stride below the root to what the trie flattens into |
| Blocks6.FlattenRoot | old/blocklpm/table.go:231-251 | flattening appends exactly the blocks the trie needs and every root cell follows the trie |
| Blocks6.FlattenSlot | old/blocklpm/table.go:231-251 | a flattened cell answers every address below it as the trie does, and keeps doing so when blocks are appended |
| Blocks6.Lookup6 | old/blocklpm/table.go:301-312 | the loop over blocks returns the trie's value for the address, for arrays of at most 2^32 cells, which 2^32 / 3584 routes cannot exceed |
| BlockLpm.New | old/blocklpm/table.go:35-60 | the table is refused exactly when the value count would reach the tag bit; otherwise both families' tables answer for the routes, the last of equal prefixes winning |
| BlockLpm.TableMeans | old/blocklpm/table.go:35-60 | every route is in the table unless a later one has its network, and nothing else is |
| BlockLpm.Lookup | old/blocklpm/table.go:280-312 | a lookup of either family returns the id of the longest covering route, and found is whether there is one; of at most 2^32 / 3584 IPv6 routes |
| RoutePages.New | internal/routepages/pages.go:16-29 | every value given is read back |
| RoutePages.With | internal/routepages/pages.go:39-59 | an update reads back the new values and the untouched old ones, shares or copies every page, and changes no page of the mapping it started from |
| Catalogs.CoalesceApplies | compiledfib/table.go:263-290 | applying the coalesced batch, last mutation for each prefix, is applying every mutation in order |
| Catalogs.BatchMeans | compiledfib/table.go:263-268 | after a batch a network has the value of the last mutation in queue order for it, or is absent if that deletes it; one no mutation is for is as it was |
| Catalogs.AddsIsStructural | compiledfib/table.go:270-277 | the test for an added or removed prefix holds exactly when the set of prefixes changes |
| CompiledFib.BuildGeneration | compiledfib/table.go:338-370 | a build fails exactly at the tag bound; otherwise the generation's index, ids and pages stand for the catalogue |
| CompiledFib.Repay | compiledfib/table.go:292-309 | a payload-only publication keeps the index and ids and stands for the new catalogue |
| CompiledFib.Digest | compiledfib/table.go:261-327 | whichever path is taken, the next generation stands for the catalogue with the whole batch applied in order, numbered one higher, and the current one still stands for its own |
| FibProtocol.RunKeeps | compiledfib/table.go:146-333 | the protocol's invariant holds in every state reachable by any interleaving of submitters, close and writer |
| FibProtocol.AcceptedSubmitted | compiledfib/table.go:146-172 | over every run what is accepted is what took the lock, and every refusal answers a submission refused for its reason |
| FibProtocol.OneResultEach | compiledfib/table.go:146-172 | over any run no request gets two results, and an accepted request has its result exactly when the writer has replied that far in queue order |
| FibProtocol.NonePendingAfterClose | compiledfib/table.go:175-184 | once the writer has exited every accepted request has been answered and nothing is queued |
| FibProtocol.QuietAfterClose | compiledfib/table.go:175-184 | after that nothing is ever accepted, answered or published again |
| FibProtocol.PublishedDenotesFold | compiledfib/table.go:261-333 | over any run the published catalogue is the initial one with the accepted batches that were published folded in queue order, and the generation number counts the publications |
| FibProtocol.FoldPublishedMeans | compiledfib/table.go:263-327 | folding published requests binds each network by the last published mutation for it in queue order, and leaves one no published mutation is for as it was |
| FibProtocol.GenerationsRise | compiledfib/table.go:310-331 | results carry generation numbers that never fall along the queue |
| FibProtocol.NumberedKept | compiledfib/table.go:310-327 | the number rises by one exactly at a publication that does not fail |
| FibProtocol.ReplyDenotes | compiledfib/table.go:310-331 | over every run, a result numbered g names a generation the table had, and that generation's catalogue is the initial one with exactly the published requests numbered up to g folded in, the result's whole batch included |
| FibProtocol.GenerationDenotes | compiledfib/table.go:310-331 | a generation's catalogue, seen from any later state of the run, is the fold of the published requests whose results carry its number or an earlier one |
| FibProtocol.CountersTell | compiledfib/table.go:314-318 | a publication that changes the set of prefixes raises the structural counter by one, any other the payload counter, and nothing else raises either |
| FibProtocol.CloseEnds | compiledfib/table.go:197-216 | after close some writer step is enabled until the writer exits, each one brings the exit nearer, and no other step moves it away |
| FibProtocol.RoomComes | compiledfib/table.go:169-171 | a submitter blocked on a full queue always has a writer step that makes progress |
| FibTable.Table.Enter | compiledfib/table.go:162-168 | a submitter is refused exactly when the table is closed, with the current number, and otherwise its request holds the lock |
| FibTable.Table.Enqueue | compiledfib/table.go:169-170 | with room the held request goes to the end of the queue and counts as accepted |
| FibTable.Table.CloseOnce | compiledfib/table.go:175-184 | the table is closed, and nothing else changes |
| FibTable.Table.TakeFirst | compiledfib/table.go:197-216 | the first request of the queue starts the batch |
| FibTable.Table.TakeMore | compiledfib/table.go:219-258 | the next request of the queue joins the batch, up to the batch limit |
| FibTable.Table.PublishBatch | compiledfib/table.go:261-333 | a batch fails exactly when it changes the set of prefixes and the new one reaches the tag bound; every request of a batch that does not fail gets a published result with the number one above the old, which readers then see with the batch folded in, every request of one that fails gets the unchanged number, and the generation readers held still stands for its catalogue |
| FibTable.Table.Lookup | compiledfib/table.go:98-130 | in any reachable state with at most 2^32 / 3584 IPv6 prefixes a lookup returns the payload of the longest covering prefix of the published catalogue, or none |
| FibTable.New | compiledfib/table.go:71-95 | a new table is refused exactly when its entries reach the tag bound, and otherwise starts the protocol at its entries |
| ParityRanges.MergeInPlace | parityset/set.go:469-529 | sorting and merging in place leaves ranges with the same union, ascending, disjoint and with gaps between them |
| ParityRanges.CanonicalUnique | parityset/set.go:463-468 | two such lists have the same union exactly when they are the same list |
| ParityRanges.FewestRanges | parityset/set.go:463-468 | no list of ranges with that union is shorter |
| ParityBounds.ParityIsUnion | parityset/set.go:563-575 | an address is in the union exactly when an odd number of boundaries lie at or below it, ranges touching the top address included |
| ParityBounds.BoundsAreToggles | parityset/set.go:563-575 | the boundaries are exactly the addresses whose membership differs from the address before |
| ParityBounds.FormIsCanonical | parityset/set.go:563-637 | two lists of merged ranges compile to the same flag and boundaries exactly when they have the same union |
| ParityIndex.PackStep | parityset/set.go:642-655 | packing a two-bit code keeps every code packed before it |
| ParityIndex.BuildFront | parityset/set.go:642-655 | each slot's code says none, all or deeper as its boundaries do |
| ParityIndex.BuildSub | parityset/set.go:661-707 | each crowded slot's block splits its boundaries by the third octet, and there are no blocks exactly when no slot is crowded |
| ParityLookup.Compile4 | parityset/set.go:563-590 | the compiled IPv4 set stands for the union of the ranges |
| ParityLookup.Compile6 | parityset/set.go:595-637 | the compiled IPv6 set, low words dropped when all zero, stands for the union of the ranges |
| ParityLookup.CountAtOrBelow4 | parityset/table.go:387-398 | the bisection counts the boundaries at or below the key |
| ParityLookup.Contains4 | parityset/set.go:230-265 | contains holds exactly for the members of the union, through the whole-space flag, the front codes, the slots, the scan and the bisection |
| ParityLookup.Contains6 | parityset/set.go:270-348 | the same over two words, with the second cut and the elided low words |
| ParityTable.RangeCovered | parityset/table.go:354-384 | a range is covered exactly when its first address has odd parity and the next boundary lies past its last address |
| ParityTable.CoversRange4 | parityset/table.go:374-384 | coversRange holds exactly when every address of the range is in the union |
| ParityTable.CoversRange6 | parityset/table.go:401-417 | the same over two words |
| ParityTable.CoveredChangesNothing | parityset/table.go:112-127 | storing a covered prefix leaves the union, and so the published set, as it was |
| ParityTable.Table.Insert | parityset/table.go:112-127 | in any state, added is whether a good prefix was new and the stored set gains it; the published set then denotes the stored union if the prefix was not covered, and what was published with the prefix added if it was |
| ParityTable.Table.Delete | parityset/table.go:130-142 | in any state, found is whether the prefix was stored, the stored set loses it, and a found one leaves the published set denoting the stored union |
| ParityTable.FoldMeans | parityset/table.go:151-177 | of the mutations up to the first bad one, the last for a prefix decides whether it is stored; one none is for is as it was |
| ParityTable.Table.ApplyBatch | parityset/table.go:151-177 | in any state, a batch is good exactly when every prefix is; up to the first bad one each prefix is stored exactly when the last mutation for it is not a deletion, or there is none and it was stored; a good batch publishes the stored union or publishes nothing, and keeps the two in step if they were; a bad one leaves what was published |
| ParityTable.Table.Reset | parityset/table.go:84-108 | in any state, bad prefixes change nothing; otherwise exactly the given prefixes are stored and published |
| ParityTable.Table.Contains4 | parityset/table.go:66 | in any state the published set holds an address exactly when a prefix it was published for covers it: a stored prefix, while the two agree |
| ParityTable.Table.Contains6 | parityset/table.go:69 | the same for IPv6 |
| Preorder.LastIsLongest | orderwalk/table.go:20-30 | the last catalogue route containing an address is its longest match |
| Preorder.ParentSkipsNone | orderwalk/table.go:103-132 | no route between a route and its parent contains an address at or past the route |
| Preorder.PrepareRoutes | old/fiborderwalk/table.go:131-173 | one pass with a stack gives every route its nearest containing route and the end of its descendants |
| Preorder.IntervalIsDescendants | old/fiborderwalk/table.go:112-125 | the routes from a route up to its end are exactly those it contains |
| OrderWalk.New | orderwalk/table.go:73-132 | a table is refused exactly when an entry is bad; otherwise it indexes the map that holds every entry, the last for each prefix, and nothing else |
| OrderWalk.BuildFront | orderwalk/table.go:135-144 | each front slot counts the keys below it |
| OrderWalk.Predecessor4 | orderwalk/table.go:226-238 | the front table and the bisection find the last IPv4 route at or below the address |
| OrderWalk.Predecessor6 | orderwalk/table.go:241-262 | the same for a 128-bit address compared word by word |
| OrderWalk.Match4 | orderwalk/table.go:206-212 | climbing the parents from the predecessor ends at the last route containing the address, or none |
| OrderWalk.Match6 | orderwalk/table.go:215-221 | the same for IPv6 |
| OrderWalk.MatchIsLongest | orderwalk/table.go:181-188 | that route is the table's longest match and its value is the one stored for it; none exactly when nothing covers |
| OrderWalk.Exact4 | orderwalk/table.go:308-331 | a route number is returned exactly when the prefix is in the table, and it is that prefix's |
| OrderWalk.Exact6 | orderwalk/table.go:333-357 | the same for IPv6 |
| OrderWalk.Exact | orderwalk/table.go:290-358 | a query finds exactly the route of the network it asks for: the normalised prefix, unmapped |
| OrderWalk.InsertedIsSought | orderwalk/table.go:290-306 | asking for a prefix as it was inserted asks for what was stored exactly when it is not an IPv4-mapped prefix of 96 bits or more |
| OrderWalk.MappedIsLost | orderwalk/table.go:76-81 | a table of just ::ffff:0:0/96, which is stored as it comes, does not hold what a query for it asks for |
| OrderWalk.SupernetsShrink | orderwalk/table.go:361-369 | the walk's list has exactly the routes containing the address, strictly longest first |
| OrderWalk.WalkParents4 | orderwalk/table.go:361-369 | the climb yields routes containing the address, each shorter than the one before; a containing route left out is shorter than all of them and the caller had stopped |
| OrderWalk.WalkParents6 | orderwalk/table.go:361-369 | the same for IPv6 |
| OrderWalk.Descend4 | orderwalk/table.go:373-403 | the scan yields consecutive routes from the query on, each inside it, and unless the caller stops every route inside it |
| OrderWalk.Descend6 | orderwalk/table.go:405-424 | the same on two words |
| ArtTrie.Insert | artlpm/table.go:508-626 | inserting changes exactly that prefix's value, added is whether it was absent, and the trie keeps its invariant: leaf and child slots apart, slices as long as their popcounts, no empty node below the root |
| ArtTrie.Delete | artlpm/table.go:648-728 | deleting removes exactly that prefix and prunes the nodes it empties; an absent prefix changes nothing |
| ArtLookup.Descend | artlpm/table.go:274-296 | from any node and best value so far, one pass down ends with the longest hit below the node, or the value it came with |
| ArtLookup.Get | artlpm/table.go:467-490 | get finds exactly what is stored at the prefix's position |
| ArtMap.BestIsLongest | artlpm/table.go:201-232 | the descent from the root is the longest match of the stored map |
| ArtPrefix.Lpm | internal/art/art.go:78-88 | halving the index finds the longest set ancestor of at most the given length |
| ArtPrefix.LookupPrefix | artlpm/table.go:415-462 | the descent with a stack, unwound from the top, finds the longest stored prefix that contains the query |
| ArtPrefix.BestIsContaining | artlpm/table.go:410-415 | in terms of the map: the value of its longest prefix containing the query, none exactly when no prefix does |
| ArtWalk.Walk | artlpm/table.go:751-793 | the walk lists every prefix below the node with its value and none twice, each rebuilt from the octets on the path |
| ArtTable.Table.Insert | artlpm/table.go:508-577 | the family's map gains the prefix, the other is untouched, added is whether it was new, sizes stay exact and the front table is dropped |
| ArtTable.Table.Delete | artlpm/table.go:648-705 | the family's map loses the prefix, found is whether it was there, sizes stay exact and the front table is dropped |
| ArtTable.Table.BuildFront | artlpm/table.go:307-347 | every entry of the front table resumes or ends the descent as the root would |
| ArtTable.Table.Get | artlpm/table.go:467-490 | get returns exactly the map's value for the masked prefix |
| ArtTable.Table.LookupPrefix | artlpm/table.go:415-462 | in any reachable state, the value of the longest stored prefix containing the query |
| ArtTable.Table.All | artlpm/table.go:738-745 | every stored prefix with its value, none twice |
| ArtTable.Table.Lookup4 | artlpm/table.go:254-271 | with or without a front table, an IPv4 lookup returns the map's longest match |
| ArtTable.Table.Lookup6 | artlpm/table.go:201-232 | an IPv6 lookup returns the map's longest match |

## Left out

- FlatLookup.Builder.Build: the answers are stated for value indices below the tag bit, which the source's own comment assumes; a number of insertions that ensures it, and that the build succeeds, is stated, but not the exact number at which it stops being so
- FlatAll.All: a callback that stops the enumeration early is not modelled
- ArtTable.Table.All: a callback that stops the walk early is not modelled
- AosartIndex.Builder.AddKey4: asks for fewer than 2^26 - 1 earlier additions, so that the 30-bit references of the build tree, which the source does not check, cannot overflow
- AosartIndex.Builder.AddKey6: asks for the same
- AosartIndex.Builder.Add: asks for the same when the prefix is new and the builder is not full
- AosartTable.Index: asks for fewer than 2^26 prefixes, for the same reason
- AosartTable.Table.ApplyBatch: asks for fewer than 2^26 prefixes after the batch, for the same reason
- AosartTable.Table.Delete: asks for fewer than 2^26 prefixes, for the same reason
- AosartTable.Table.Reset: asks for fewer than 2^26 entries, for the same reason
- SlotBuilder.Builder.AddKey4: asks for a prefix not added before and a free id below the tag bit; the source's keyed additions leave both to their caller
- SlotBuilder.Builder.AddKey6: asks for the same
- SlotLookup.Bisect: asks for at most 2^31 steps, the bound at which the source's unsigned midpoint would wrap; Builder.Build bounds the steps by twice the routes and one
- SlotLookup.Lookup4: asks for the same
- SlotLookup.Lookup6: asks for the same
- Blocks6.Lookup6: asks for at most 2^32 IPv6 cells, the width of the source's cell index
- BlockLpm.Lookup: asks for at most 2^32 / 3584 IPv6 routes, which keeps the cells within that width
- FibTable.Table.Lookup: asks for the same of the published catalogue
- Requests.DecomposeIsCanonical: a netip.Prefix cannot carry a zone, so the source's zone tests, which never fail, are not modelled
- ArtTrie.Insert: artlpm's trie is a value rebuilt along the path, not linked nodes updated in place, so aliasing is not modelled; the source's two insertion routines differ only in counting the size, which ArtTable does
- OrderWalk.Descend4: yields a list cut at the number of routes the caller takes, which stands for a yield function that returns false
- FlatRoot.HangSubtrees: visits the root keys in order and skips those without a subtree, where the source sorts the keys that have one
- Blocks6.FlattenSlot: Go evaluates the index and the recursive call on both sides of an assignment in an order of its own; the model stores after the recursion
- `flatart`'s Contains and member index, and the packages that only wrap its index (`flatlpm`, `flatset`, `flatwalk`)
- `aosart`'s supernet and subnet walks
- `groupartset`, `artset`, `old/arenaartset` and `old/arenaartlpm`
- `splitribfib`, `dirlpm`'s exact table, payload path and writer, and its IPv6 half
- `slotlpm`'s managed table, whose packed slices and batches are those of `aosart`'s
- `netip` parsing: requests start as a family, an address and a length, valid or not; lookups start from the 32-bit key or the two words, after mapped addresses (section 2.5.5.2 of RFC 4291) were unmapped
- timers, which become a free choice of when a batch stops growing, and the memory model: an atomic pointer or a locked section is one step
- map iteration order and library sorts, which become an arbitrary order and a stable sort
- 32-bit offsets and route numbers where the source stores counts that fit in memory
- masks and exclusive-or tests, stated as equality of shifted keys
- byte counts, sizes of retained memory and statistics other than the publication counters
