# Redis 3.0, modelled and proved in Dafny

This project models the parts of the bundled Redis 3.0 server whose correctness
is hardest to see from the code, and proves what they promise. Verify it with
`dafny verify dfyconfig.toml`.

- **Hash table** (`Words`, `Cursor`, `DictState`, `Scan`, `ScanGaps`,
  `ScanSchedules`, `Dict`).
  A class with two tables that migrate bucket by bucket refines a finite map
  under adds, replaces, deletes, lookups, resizes and rehash steps; every
  operation moves a rehash on, so that it ends, and while resizing is allowed
  there are never more keys than buckets to put them in. The scan with its
  reversed cursor visits every key that stays and ends under any resize
  schedule; which schedules leave no key behind is stated as an
  if-and-only-if. The comment above `dictScan` in `dict.c` promises that no
  element present from start to end is missed; the code does not keep this
  promise when a shrink begins in the middle of a scan, and `ScanSchedules`
  gives the dictionary, the calls and the lost key. Hashes have 32 bits, and a
  bucket number is returned as an `int`: in a table of more than 2^31 buckets,
  which the code would make, an absent key can be refused or stored outside the
  table, and the contracts say exactly when.
- **Cluster** (`ClusterEpochs`, `ClusterHandlers`, `ClusterElection`,
  `ClusterStaleVotes`, `ClusterCollision`, `ClusterCollisionRuns`,
  `ClusterWinners`, `ClusterViews`, `ClusterSlots`, `ClusterConvergence`).
  A step system of servers and messages in flight, whose transitions are the
  handlers of `cluster.c`, and classes that update the same state in place.
  Proved over all runs: the epoch invariant, votes and counts, at most one
  winner per epoch, no winner against too many refusals, winners that keep
  their epoch, a sharp bound on collision steps, agreement of slot table and
  bitmaps, convergence of slot ownership. Two of the promises hold
  only under a condition. An ack that is counted between the reset of an attempt
  and the start of the next one counts for the next (the count is reset at line
  2783, the epoch it is compared with changes only at line 2844); two replicas
  can both win one epoch if and only if they may count 2 * quorum - voters late
  acks between them, which is 2 for an even number of voters and 1 for an odd
  one; the failing run is built for every set of voters. A node ignores an
  UPDATE about a claim whose epoch it has already seen in a header that came
  without slots; which claims are taken in is stated exactly.
- **HyperLogLog** (`HllDense`, `HllSparse`, `HllSum`, `Hll`, `HllObject`). Two
  byte encodings refine a vector of 16384 registers, through every split,
  merge, promotion and cached estimate, and the registers are the pointwise
  maximum over the set of elements added.
- **Append only file** (`Octets`, `AofBuffer`, `AofRewrite`, `AofLoad`,
  `AofFaults`, `AofEmit`, `AofReplay`). The block list and the pipe protocol of
  a rewrite lose and repeat no byte; the loader runs exactly the whole commands
  of a file that was cut anywhere, and cuts off only what could have become a
  command; the chunked emitters rebuild what they were given; together, loading
  a rewritten log restores the dataset.
- **Integer sets** (`IntsetBytes`, `Intset`). A sorted byte array, widened in
  place, refines a finite set.
- **Bit strings** (`BitStrings`, `BitCount`, `BitSearch`, `BitCombine`).
  Population count, first-bit search and BITOP refine their bit-by-bit
  definitions.
- **Key space** (`SortedKeys`, `Keyspace`). The expires table and the
  slot-to-key list agree with the main dictionary.

`Basics` holds what several of them share.

Bit-level code works on `bv8`, `bv32` and `bv64` values or, for the dictionary
cursor, on sequences of 64 bits with the least significant bit first. Many
proofs name a bit-vector operation by a small function and then `hide` it, so
that a lemma about one operation does not drag the others in.

## Model

| member | source | states |
|---|---|---|
| Words.Rev | Redis-3.0/src/dict.c:772-780 | The parallel-swap loop computes exact bit reversal for the whole 64-bit word. |
| Words.RevValConcat | Redis-3.0/src/dict.c:772-780 | The reversed value of a word splits at any bit into the reversed values of its two parts, the low part weighing most; this is the order in which the cursor counts. |
| Words.IndexLow | Redis-3.0/src/dict.c:866-935 | A bucket index under a size mask is the value of the low bits of the hash. |
| Cursor.CursorAdvances | Redis-3.0/src/dict.c:922-935 | For every cursor and every mask, the next cursor is 0 or has a strictly larger bit reversal. |
| Cursor.NextCursorValue | Redis-3.0/src/dict.c:922-935 | Where exactly the next cursor stands: the reversed low bits plus one, scaled, or 0 when they were all ones. |
| Cursor.GapIsBucket | Redis-3.0/src/dict.c:866-935 | The hashes that a call must cover, those between its cursor and the next one in reversed order, are exactly those of the cursor's bucket from the cursor on. |
| Cursor.CallCoversGap | Redis-3.0/src/dict.c:910-922 | A call that sees two tables covers every hash of its gap if and only if the cursor bits between the two masks read 1...10...0 from the low end; both directions for every cursor and every pair of sizes. |
| Cursor.MissedHash | Redis-3.0/src/dict.c:910-922 | In the other case there is a hash in the gap whose bucket in the larger table is not visited, with zeros above the larger mask. |
| Cursor.FreshCursorIsLowRun | Redis-3.0/src/dict.c:910-935 | A cursor produced under a mask that is not larger than today's smaller mask satisfies that condition. |
| Cursor.MaskDifference | Redis-3.0/src/dict.c:921 | The loop condition on the mask difference is that the bits between the masks are zero. |
| DictState.LinkEntry | Redis-3.0/src/dict.c:375-380 | Linking an entry at the head of its chain keeps a table well formed with an exact count, and adds that key alone. |
| DictState.UnlinkEntry | Redis-3.0/src/dict.c:439-450 | Unlinking an entry keeps a table well formed with an exact count, and removes that key alone. |
| DictState.StoreValue | Redis-3.0/src/dict.c:404-408 | Overwriting a value in place changes what that key maps to and nothing else. |
| DictState.MoveEntry | Redis-3.0/src/dict.c:269-285 | Moving one entry from the old bucket to the new table leaves every lookup as it was and keeps the key in one table only. |
| DictState.PassEmptyBucket | Redis-3.0/src/dict.c:265-268 | Passing an empty bucket keeps the invariant that all buckets below rehashidx are empty. |
| DictState.OldTableNotExhausted | Redis-3.0/src/dict.c:262-264 | While the old table has entries, rehashidx is inside it: the assertion of dictRehash holds and no step indexes past the table. |
| DictState.OldTableEmpty | Redis-3.0/src/dict.c:290-296 | When the count reaches zero the old table holds no key, so dropping it loses none. |
| Scan.CallEmitsGap | Redis-3.0/src/dict.c:866-935 | A call emits every present key whose reversed hash lies between its cursor and the next. |
| Scan.ScanCompleteness | Redis-3.0/src/dict.c:866-935 | Every key present throughout a complete scan is emitted, whatever was inserted, deleted, resized or rehashed between calls, if each call made while rehashing sees bits 1...10...0 between the masks. |
| Scan.ScanCompletenessWithoutShrinking | Redis-3.0/src/dict.c:866-935 | The same when the smaller table never shrinks between calls. |
| Scan.ScanProgress | Redis-3.0/src/dict.c:922-935 | In any scan, shrinking included, the reversed cursor grows with every call. |
| Scan.ScanTerminates | Redis-3.0/src/dict.c:922-935 | Under any resize schedule no scan takes more calls than the largest smaller table that it meets has buckets. |
| Scan.FixedScanVisitsOnce | Redis-3.0/src/dict.c:866-935 | On a table that keeps its 2^k buckets a scan takes exactly 2^k calls and visits every bucket exactly once. |
| ScanGaps.CallMissesExactlyWhen | Redis-3.0/src/dict.c:910-922 | A call on two tables of up to 2^32 buckets can lose a present key if and only if the cursor bits between the masks are not 1...10...0: an iff over all cursors and sizes, with real dictionary states and 32-bit hashes as witnesses. |
| ScanSchedules.OtherCallsPass | Redis-3.0/src/dict.c:866-935 | A hash in the gap of one call is in the bucket of no earlier call of the scan, and of no later call whose smaller table is not smaller. |
| ScanSchedules.ScanComesUpon | Redis-3.0/src/dict.c:866-935 | A key whose hash is in the way of some call of the schedule is emitted if it stays, in any dictionaries and under any hash function. |
| ScanSchedules.UnsafeCallLosesKey | Redis-3.0/src/dict.c:910-922 | For every schedule of sizes and cursors with an unsafe call, after which the smaller table never gets smaller than it was then, there are dictionaries with these sizes and a key present at every call that the whole scan never emits. |
| ScanSchedules.NeverMissesIffNoneSlips | Redis-3.0/src/dict.c:866-935 | For every schedule of sizes and cursors, shrinking tables included: if no 32-bit hash lies outside what each call visits, every key that stays is emitted, in dictionaries of any keys and values under any 32-bit hash function; if some hash does, there are dictionaries with these sizes that lose a key. |
| ScanSchedules.NeverMissesExactlyWhen | Redis-3.0/src/dict.c:866-935 | The same call by call, for schedules whose smaller table, after an unsafe call, never gets smaller than it was then: if every call is safe, every key that stays is emitted, whatever the dictionaries hold and however they hash it; if one is not, some dictionaries lose a key. |
| ScanSchedules.ShrinkMidScanLosesKey | Redis-3.0/src/dict.c:783-864 | A complete scan, from cursor 0 back to 0, of a dictionary whose shrink from 16 to 4 buckets begins after the first call: a key present throughout is never emitted, against the comment above dictScan. |
| Dict.NextPower | Redis-3.0/src/dict.c:962-972 | Returns the least power of two that is at least 4 and at least the size, or LONG_MAX for a size that is not below it. |
| Dict.LeastPowerIsUnique | Redis-3.0/src/dict.c:962-972 | There is only one such power, so a size determines the table. |
| Dict.SearchChain | Redis-3.0/src/dict.c:991-998 | Finds the key's entry in a chain, or says that there is none. |
| Dict.Dict.constructor | Redis-3.0/src/dict.c:176-196 | A new dictionary has no table and represents the empty map. |
| Dict.Dict.Expand | Redis-3.0/src/dict.c:212-242 | Changes nothing if and only if a rehash is running, the keys do not fit or the size would be the same; otherwise installs an empty table of the least power of two, and no key is lost or gained; a size of at most 2^31 keeps tables that an int can index, and above 2^60 the bytes asked for exceed 64 bits. |
| Dict.Dict.MoveBucket | Redis-3.0/src/dict.c:269-288 | Moves a whole bucket: the map represented is the same, rehashidx moves by one. |
| Dict.Dict.Rehash | Redis-3.0/src/dict.c:253-301 | n steps keep the map represented; while more is left they move exactly n buckets that hold entries, or stop after 10n empty ones; they finish exactly when nothing is left, and the new table then replaces the old one. |
| Dict.Dict.RehashStep | Redis-3.0/src/dict.c:334-336 | Without an iterator a rehash ends or goes on by at least one bucket; with one nothing moves; the map is the same. |
| Dict.RehashEnds | Redis-3.0/src/dict.c:334-336 | From the progress that each of Add, Find, Replace and Delete guarantees: a rehash is over after at most as many operations as there are old buckets left, when no iterator is bound. |
| Dict.Dict.LoadAtMostOne | Redis-3.0/src/dict.c:940-959 | The invariant that adds (with resizing allowed and no iterator), replaces, finds and deletes keep from the empty dictionary on gives that there are never more keys than buckets in the table that takes new ones, in the middle of a rehash too. |
| Dict.Dict.ExpandIfNeeded | Redis-3.0/src/dict.c:940-959 | Exactly when a table is created, when it starts to grow and to which size; otherwise nothing changes. If no growth is under way afterwards, there are fewer keys than buckets, or than six times as many when resizing is to be avoided. |
| Dict.Dict.Locate | Redis-3.0/src/dict.c:980-1002 | Looks in both tables while rehashing, and finds the key if and only if the map has it; otherwise gives the key's bucket in the table that takes new keys. |
| Dict.IndexFitsInt | Redis-3.0/src/dict.c:980-1002 | The int that _dictKeyIndex returns is the bucket for every 32-bit hash if and only if the table has at most 2^31 buckets; from 2^32 on the hash of all ones gives -1, the answer for a key that is present. |
| Dict.AbsentKeyRefused | Redis-3.0/src/dict.c:980-1002 | For each size from 2^32 buckets on there is a dictionary in which the index of an absent key is -1. |
| Dict.Dict.KeyIndex | Redis-3.0/src/dict.c:980-1002 | For tables of any size: -1 if the key is present, else the key's bucket in the table that takes new keys, turned into a 32-bit int. |
| Dict.Dict.Add | Redis-3.0/src/dict.c:339-386 | For tables of any size: a present key is refused; an absent one is added, refused, or stored outside the table, according to its bucket number as an int; it is added, in the middle of a rehash too, whenever the table that takes new keys has at most 2^31 buckets. The map gains exactly the pair that was added. |
| Dict.Dict.Find | Redis-3.0/src/dict.c:506-525 | Returns what the map says, and the rehash step it performs changes no answer and moves the rehash on. |
| Dict.Dict.Replace | Redis-3.0/src/dict.c:392-411 | For tables of any size: the map takes the new value, and the result tells whether the key was new, unless the bucket number of an absent key is no int; never so when the table that takes new keys has at most 2^31 buckets. |
| Dict.Dict.Delete | Redis-3.0/src/dict.c:426-461 | Fails if and only if the key is absent; otherwise exactly that key goes; a rehash moves on. |
| Dict.Dict.ScanCall | Redis-3.0/src/dict.c:866-935 | The bit operations and the two loops of dictScan emit the chains and return the cursor that the scan theorems are about. |
| Dict.Dict.EmitExpansions | Redis-3.0/src/dict.c:910-922 | The do-while loop visits the expansions from the cursor's own high bits to the last, and terminates. |
| Dict.ExpansionStep | Redis-3.0/src/dict.c:918 | The increment of the bits above the smaller mask adds one to the number between the masks and leaves the low bits alone. |
| HllDense.GetAfterSet | Redis-3.0/src/hyperloglog.c:337-359 | Setting register i and reading register k gives the new value when k = i and the old one otherwise, across byte boundaries and at the last register. |
| HllDense.UnpackSet | Redis-3.0/src/hyperloglog.c:349-359 | On the vector of 16384 registers, the macro is a pointwise update. |
| HllSparse.XZeroBytesDecode | Redis-3.0/src/hyperloglog.c:363-390 | The XZERO macros write a run length of up to 16384 that the reading macros return. |
| HllSparse.ValByteDecodes | Redis-3.0/src/hyperloglog.c:363-390 | The VAL macros write a value and a run length that the reading macros return. |
| HllSparse.OpcodeBytes | Redis-3.0/src/hyperloglog.c:363-390 | The three opcodes are told apart by the ranges of their first byte, and lengths and values are its low bits. |
| HllSparse.DecodeConcat | Redis-3.0/src/hyperloglog.c:584-605 | Decoding opcode strings is compatible with concatenation. |
| HllSparse.DecodeSplice | Redis-3.0/src/hyperloglog.c:810-823 | Replacing whole opcodes in the middle of a string replaces exactly the registers they stand for. |
| HllSparse.LocateOp | Redis-3.0/src/hyperloglog.c:652-690 | Step 1 stops at the opcode that covers the register, with its first register, its span and the opcode before it. |
| HllSparse.SplitOp | Redis-3.0/src/hyperloglog.c:768-808 | The split run decodes to the old run with one register changed, in at most 5 bytes for an XZERO and 3 otherwise. |
| HllSparse.MergeVals | Redis-3.0/src/hyperloglog.c:841-857 | Replacing two neighbouring VAL opcodes of one value by one opcode decodes to the same registers. |
| HllSparse.MergeAdjacent | Redis-3.0/src/hyperloglog.c:825-866 | Step 4 leaves a well-formed string, not longer, that decodes to the same registers. |
| HllSum.DenseSum | Redis-3.0/src/hyperloglog.c:504-558 | The loop unrolled over 12 bytes adds up exactly the registers: the same sum and zero count as register by register. |
| HllSum.SparseSum | Redis-3.0/src/hyperloglog.c:888-918 | The run-length sum gives the sum and zero count of the decoded registers. |
| HllSum.RawSum | Redis-3.0/src/hyperloglog.c:928-954 | The loop that skips zero words gives the sum and zero count of the bytes. |
| Hll.ComputePatLen | Redis-3.0/src/hyperloglog.c:444-470 | The shifting loop ends and gives the register index and the pattern length, whose bits are stated: zeros from bit 14 on and then a 1, unless only the top bit is left. |
| Hll.RegIndexMeans | Redis-3.0/src/hyperloglog.c:444-470 | The register of an element is the number in the 14 low bits of its hash. |
| Hll.PatternMeans | Redis-3.0/src/hyperloglog.c:444-470 | A register value is n, below the greatest, if and only if the n-th bit above the index bits is the first 1 there. |
| Hll.ObserveIsMaximum | Redis-3.0/src/hyperloglog.c:485-498 | Observing an element turns the pointwise maximum over a set into the one over the set and the element. |
| Hll.MaximumIsUnique | Redis-3.0/src/hyperloglog.c:485-498 | The pointwise maximum over a set of elements is one vector. |
| Hll.UnionIsMaximum | Redis-3.0/src/hyperloglog.c:1044-1083 | The pointwise maximum of two vectors is the vector of the union of their sets. |
| Hll.AddsReachMaximum | Redis-3.0/src/hyperloglog.c:1155-1192 | Any sequence of adds ends in the maximum over the set of the elements added. |
| Hll.AddsCommute | Redis-3.0/src/hyperloglog.c:1155-1192 | Order and repetitions of adds do not matter. |
| HllObject.SparseToDense | Redis-3.0/src/hyperloglog.c:568-620 | The dense bytes written while walking the opcodes hold the registers that the opcodes decode to. |
| HllObject.DenseAdd | Redis-3.0/src/hyperloglog.c:485-498 | The packed bytes become those of the observed vector; returns 1 if and only if the register rose. |
| HllObject.ReplaceOp | Redis-3.0/src/hyperloglog.c:727-823 | Cases B, C and D: the opcodes that take the place of the located one decode to its run with one register changed. |
| HllObject.SparseEdit | Redis-3.0/src/hyperloglog.c:638-882 | The edit in place decodes to the observed vector and reports a rise if and only if there is one; it asks for promotion only for a value above 32 or a size above the limit, and never grows the string by more than the 3 bytes reserved. |
| HllObject.HllObject.constructor | Redis-3.0/src/hyperloglog.c:1089-1119 | A new object is sparse, well formed, and the maximum over no elements, with a cache that is right for it. |
| HllObject.HllObject.AddElement | Redis-3.0/src/hyperloglog.c:1027-1034 | In either encoding, and across a promotion, an add observes the element and returns 1 if and only if a register rose. |
| HllObject.HllObject.PfAdd | Redis-3.0/src/hyperloglog.c:1170-1190 | On an existing key the registers are the maximum over all elements ever added, whatever the size limit was; some element is reported as a change if and only if some register changed. |
| HllObject.PfAddCommand | Redis-3.0/src/hyperloglog.c:1155-1192 | PFADD creates a missing key; the reply is 1 if and only if it did or some register changed, and the cached estimate is invalid then. |
| HllObject.HllObject.PfCount | Redis-3.0/src/hyperloglog.c:1220-1282 | The reply is the estimate of the present registers whether it came from the cache or not: the cache is never stale. |
| HllObject.HllObject.MergeInto | Redis-3.0/src/hyperloglog.c:1044-1083 | hllMerge computes the pointwise maximum with the object's registers, from either encoding. |
| HllObject.PfMerge | Redis-3.0/src/hyperloglog.c:1285-1343 | The destination ends as the maximum over the union of the elements of all objects. |
| HllObject.PfCountUnion | Redis-3.0/src/hyperloglog.c:1200-1228 | PFCOUNT of several keys uses the registers of the union. |
| ClusterEpochs.GetMaxEpoch | Redis-3.0/src/cluster.c:946-959 | The loop returns the greatest of currentEpoch and all known config epochs. |
| ClusterEpochs.StepKeepsEpochInv | Redis-3.0/src/cluster.c:1606-1619 | Every step keeps: each node's currentEpoch is at least every config epoch in its table, and each message's currentEpoch is at least every config epoch it carries. |
| ClusterEpochs.EpochInvariant | Redis-3.0/src/cluster.c:1606-1619 | That holds in every state of every run. |
| ClusterEpochs.BumpExceedsKnown | Redis-3.0/src/cluster.c:990-1007 | In every reachable state the maximum epoch equals currentEpoch, and a bump either does nothing (its exact condition is stated) or exceeds every epoch known locally. |
| ClusterHandlers.Server.ProcessHeader | Redis-3.0/src/cluster.c:1606-1619 | The epochs of a known sender's header are taken over if they are later, and nothing else changes; this is the transition of the step system. |
| ClusterHandlers.Server.ProcessPing | Redis-3.0/src/cluster.c:1878-1885 | Header, then collision handling, in place: the own epoch moves if and only if both are masters, the sender has the greater name and the epochs are equal. |
| ClusterHandlers.Server.ResolveCollision | Redis-3.0/src/cluster.c:1055-1070 | Only the node with the smaller name moves, to a new current epoch. |
| ClusterHandlers.Server.ProcessUpdate | Redis-3.0/src/cluster.c:1959-1975 | A reported epoch is taken over if and only if it is newer, from known senders about known nodes. |
| ClusterHandlers.Server.VoteIfNeeded | Redis-3.0/src/cluster.c:2474-2574 | The tests in source order and the loop over the claimed slots grant a vote if and only if the voter may vote, has not voted in this epoch, the request is not behind, the sender's master is known to fail or forces it, no vote for that master is recent, and no claimed slot has an owner with a later epoch, in terms of the slot table. |
| ClusterHandlers.Server.ProcessAuthRequest | Redis-3.0/src/cluster.c:1931-1933 | Header and vote together are the transition of the step system; the same condition for granting, after the header was seen. |
| ClusterHandlers.Server.ProcessAuthAck | Redis-3.0/src/cluster.c:1934-1947 | An ack is counted if and only if it comes from a known voting master whose epoch is not behind the election. |
| ClusterHandlers.Server.HandleSlaveFailover | Redis-3.0/src/cluster.c:2760-2875 | Exactly when an attempt is reset, an election starts, it is won, or nothing happens, and what each does: a start takes a new epoch, a win lifts the own configEpoch to the epoch won. |
| ClusterHandlers.Server.BumpWithoutConsensus | Redis-3.0/src/cluster.c:990-1007 | Bumps if and only if the own epoch is 0 or not the maximum. |
| ClusterHandlers.Server.AssignConfigEpoch | Redis-3.0/src/cluster.c:4256-4290 | Allowed exactly on a node that knows no other and has no epoch. |
| ClusterElection.VoteIsNew | Redis-3.0/src/cluster.c:2474-2574 | A granted vote is for a strictly greater epoch than all votes of that master before, and the first in its epoch. |
| ClusterElection.CountedAckIsCurrent | Redis-3.0/src/cluster.c:1934-1947 | Every counted ack carries exactly the candidate's election epoch, comes from a master that voted for this candidate, and is counted once. |
| ClusterElection.ElectionInvariant | Redis-3.0/src/cluster.c:2474-2574 | In every state of every run votes, requests, acks in flight, counts and wins fit together. |
| ClusterElection.ElectionSafety | Redis-3.0/src/cluster.c:2842-2866 | If the counted voters form one fixed set of the size used for the quorum, two wins of one epoch are by the same replica as long as the two counted fewer than 2 * quorum - voters late acks between them. |
| ClusterElection.OneWinnerPerEpoch | Redis-3.0/src/cluster.c:2842-2866 | In whole runs in which no ack is counted between a retry reset and the next start, no epoch has two winners. |
| ClusterElection.CountIsExactlyTheVotes | Redis-3.0/src/cluster.c:1934-1947 | The vote count equals the number of voters of the present election if and only if no late ack was counted since the reset. |
| ClusterStaleVotes.Poll | Redis-3.0/src/cluster.c:1931-1947 | By induction over any set of voters behind the epoch: all of them vote and all their acks are counted, as votes of the election that began or as late ones. |
| ClusterStaleVotes.Campaign | Redis-3.0/src/cluster.c:2780-2866 | A candidate that counts the acks of one set of voters after giving up epoch 1, and those of another in epoch 2, wins epoch 2 if the two sets are a quorum together. |
| ClusterStaleVotes.LateAcksElectTwo | Redis-3.0/src/cluster.c:2780-2866 | For every non-empty set of voters and any two replicas there is a run, a forced takeover with all masters up, in which both win one epoch with exactly 2 * quorum - voters late acks. |
| ClusterStaleVotes.SafeExactlyBelowBudget | Redis-3.0/src/cluster.c:1934-1947 | The exact condition of election safety over all runs, for every non-empty set of voters: no epoch has two winners with at most n late acks between them if and only if n < 2 * quorum - voters. |
| ClusterWinners.RefusedCandidateLoses | Redis-3.0/src/cluster.c:2474-2574 | Over all runs: a candidate that more voters always refuse than the quorum leaves over, for instance because they know later owners of the slots it claims, wins only with late acks in their place. |
| ClusterWinners.WinnersKeepTheirEpoch | Redis-3.0/src/cluster.c:2860-2869 | In every state of every run each winner so far has a configEpoch of at least the epoch it won. |
| ClusterWinners.WinnerAnnounces | Redis-3.0/src/cluster.c:2860-2869 | Whatever a winner sends for itself from then on carries at least that epoch. |
| ClusterViews.NobodyIsAhead | Redis-3.0/src/cluster.c:1606-1619 | In every run of masters that send their own epoch in their headers, nobody knows a later epoch of a server than the server has, and no message in flight reports one. |
| ClusterCollision.LeftCounted | Redis-3.0/src/cluster.c:1055-1070 | The epochs a node left by collisions are all different, below its present one, and each was held by a node with a greater name. |
| ClusterCollision.EpochsAbove | Redis-3.0/src/cluster.c:1055-1070 | The nodes above a node hold at most k different epochs over the whole run, k being their number. |
| ClusterCollision.CollisionsEnd | Redis-3.0/src/cluster.c:1055-1070 | A node with k greater names moves at most k times in any run of collision steps. |
| ClusterCollisionRuns.EveryBoundReached | Redis-3.0/src/cluster.c:1055-1070 | The bound is sharp: for any masters that begin with one config epoch there is a run in which each of them moves exactly as often as there are greater names. |
| ClusterCollision.SettledMeansDistinct | Redis-3.0/src/cluster.c:1878-1885 | With current views, no collision step is enabled if and only if all config epochs are pairwise distinct. |
| ClusterSlots.BitAfterUpdate | Redis-3.0/src/cluster.c:3323-3341 | Setting or clearing one bit of the bitmap leaves every other bit. |
| ClusterSlots.AssignAgrees | Redis-3.0/src/cluster.c:3368-3373 | Assigning a free slot keeps table, bitmaps and counts in agreement. |
| ClusterSlots.ReleaseAgrees | Redis-3.0/src/cluster.c:3378-3385 | Releasing a slot keeps them in agreement. |
| ClusterSlots.DelSlotAssertionHolds | Redis-3.0/src/cluster.c:3378-3385 | The assertion in clusterDelSlot never fires, and the count it decrements is positive. |
| ClusterSlots.SlotState.AddSlot | Redis-3.0/src/cluster.c:3368-3373 | Fails if and only if the slot is assigned; otherwise that slot alone changes owner. |
| ClusterSlots.SlotState.DelSlot | Redis-3.0/src/cluster.c:3378-3385 | Fails if and only if the slot is unassigned; otherwise that slot alone is released. |
| ClusterSlots.SlotState.DelNodeSlots | Redis-3.0/src/cluster.c:3389-3397 | Releases exactly the slots of the node, and leaves every other slot's owner. |
| ClusterSlots.SlotState.ReplaceMaster | Redis-3.0/src/cluster.c:2681-2687 | All slots of the old master, and no other, become the new master's. |
| ClusterSlots.SlotState.UpdateSlotsConfigWith | Redis-3.0/src/cluster.c:1454-1538 | Slot by slot: rebinds exactly the claimed slots that are not being imported and are free or held under an older epoch; reports, in ascending order, exactly the slots lost with keys in them; follows the sender if and only if the own master lost a slot and has none left, else drops the keys of the slots lost. A replica whose master is unknown reads through NULL if and only if a free slot is rebound. |
| ClusterConvergence.EqualBitmapsMatch | Redis-3.0/src/cluster.c:1820-1832 | Comparing the sender's bitmap with its claim is comparing the slot table with it. |
| ClusterConvergence.SkipChangesNothing | Redis-3.0/src/cluster.c:1820-1832 | Skipping the scan when the bitmaps are equal changes nothing. |
| ClusterConvergence.ReceivePing | Redis-3.0/src/cluster.c:1806-1832 | Header, bitmap comparison and rebinding in place are the transition of the convergence model. |
| ClusterConvergence.ReceiveUpdate | Redis-3.0/src/cluster.c:1959-1980 | The UPDATE handler in place is the transition of the convergence model. |
| ClusterConvergence.RightTableIsUnique | Redis-3.0/src/cluster.c:1477-1514 | A set of fixed claims calls for one slot table. |
| ClusterConvergence.GreatestClaimOwns | Redis-3.0/src/cluster.c:1454-1514 | After any run of messages each slot belongs to the claimer with the greatest epoch among the claims bound. |
| ClusterConvergence.Convergence | Redis-3.0/src/cluster.c:1454-1514 | Two nodes that bound the same claims have the same table, whatever the order, repetitions and kinds of messages. |
| ClusterConvergence.ServedExactly | Redis-3.0/src/cluster.c:1454-1514 | The final slot table of any run of messages, slot by slot: a node is given the slot if and only if its claim to it was taught and no claim taught to the slot has a later epoch; the slot is free if and only if no claim to it was taught. Taught means: own, or of a known node and either a PING of it came or the first message about it was an UPDATE under a positive epoch. |
| ClusterConvergence.AllDeliveredAreLearned | Redis-3.0/src/cluster.c:1959-1980 | Without header-only messages and epoch 0, the claims bound are exactly those delivered. |
| ClusterConvergence.HeaderHidesUpdate | Redis-3.0/src/cluster.c:1964-1969 | A message that carries only a header makes a node ignore the UPDATE that would have taught it the slots: the order matters then. |
| AofBuffer.RewriteBuffer.Append | Redis-3.0/src/aof.c:133-178 | The bytes come behind the others, each once and in order; no block is begun before those in front are full. |
| AofBuffer.RewriteBuffer.SendToChild | Redis-3.0/src/aof.c:102-130 | The bytes sent are the front of the buffer and the rest stays; each write that the pipe accepts takes at least a byte, until the buffer is empty; nothing is sent after the stop. |
| AofBuffer.RewriteBuffer.WriteTo | Redis-3.0/src/aof.c:183-203 | Succeeds if and only if no write is short, and then writes the whole contents; otherwise a proper prefix. |
| AofBuffer.Block.Drop | Redis-3.0/src/aof.c:122-127 | Moving the rest of a block to its front keeps the bytes and their order. |
| AofRewrite.StepConserves | Redis-3.0/src/aof.c:102-203 | Every step keeps: what the child read, what is in the pipe and what is in the buffer are together the bytes fed since the fork. |
| AofRewrite.RewriteConservation | Redis-3.0/src/aof.c:1414-1451 | Whenever a rewrite succeeds, the new log is the snapshot followed by exactly the bytes fed since the fork. |
| AofRewrite.LogIsExpected | Redis-3.0/src/aof.c:1414-1617 | Over whole runs with many rewrites, failed and killed ones included, the log is the last successful snapshot and all that was fed after its fork. |
| AofRewrite.NothingSentAfterAnswer | Redis-3.0/src/aof.c:1151-1165 | Once the child saw the answer, no byte enters the pipe, so its final read is complete. |
| AofRewrite.AnswerStopsSending | Redis-3.0/src/aof.c:1204-1226 | Once the server saw the request to stop, it sends no more, whether its answer arrives or not. |
| AofRewrite.NextRewriteStartsEmpty | Redis-3.0/src/aof.c:1609 | A failed or killed rewrite leaves nothing in the buffer for the next one. |
| AofRewrite.ReadDiffFromParent | Redis-3.0/src/aof.c:1018-1028 | The read loop takes all that is in the pipe, in order. |
| AofRewrite.LogServer.FeedLog | Redis-3.0/src/aof.c:550-558 | Feeding is the step of the protocol, over the real block list. |
| AofRewrite.LogServer.PipeWritable | Redis-3.0/src/aof.c:102-130 | A writable pipe is a send step of the protocol. |
| AofRewrite.LogServer.RewriteDone | Redis-3.0/src/aof.c:1414-1617 | Collecting the child is the last step of the protocol: success exactly when the child succeeded and no write was short. |
| Octets.ParseDecimal | Redis-3.0/src/aof.c:663-677 | Parsing a printed number gives the number back, whatever non-digit follows. |
| AofLoad.CatGenericCommand | Redis-3.0/src/aof.c:451-474 | The loop writes the command in the protocol's encoding. |
| AofLoad.LoadAppendOnlyFile | Redis-3.0/src/aof.c:615-764 | On any bytes at all, the two nested loops run the commands, report the offset and take the exits that the reading function says; for a negative bulk length, whose block cannot be had, nothing is promised after the commands before it. |
| AofLoad.NextCommand | Redis-3.0/src/aof.c:655-691 | One turn of the loop reads one command, or says why it cannot: the file ended, the format is wrong, a read failed, or a length is negative. |
| AofLoad.ReadWholeCommand | Redis-3.0/src/aof.c:655-691 | An encoded command, payloads with CR LF included, is read back as it was, and reading uses exactly its bytes. |
| AofLoad.ReadCutCommand | Redis-3.0/src/aof.c:655-691 | Every proper non-empty prefix of an encoded command is a short read, never a format error. |
| AofLoad.LoadCut | Redis-3.0/src/aof.c:615-764 | A file cut after any number of bytes loads exactly the commands that are whole and reports the end of the last one; it is never taken for a badly formatted file. |
| AofLoad.CutOnlyEnds | Redis-3.0/src/aof.c:615-764 | No cut of an encoded file is taken for anything but a file that ends: no format error, no unknown command, no negative length. |
| AofLoad.LoadWhole | Redis-3.0/src/aof.c:615-764 | The complete encoding loads all commands. |
| AofLoad.TruncatingHeals | Redis-3.0/src/aof.c:733-756 | For any file, however its loading ended: cut behind the last command that was run, it loads the same commands again and is complete. |
| AofFaults.JunkIsBadFormat | Redis-3.0/src/aof.c:655-664 | After whole commands, any rest that does not begin with '*' is a format error, and nothing is cut off. |
| AofFaults.NoArgumentsIsBadFormat | Redis-3.0/src/aof.c:661-664 | So is a command that announces no arguments or fewer. |
| AofFaults.NoLengthIsBadFormat | Redis-3.0/src/aof.c:670-675 | So is a command with an argument, after any good ones, whose line does not begin with '$'. |
| AofFaults.NegativeLengthOverruns | Redis-3.0/src/aof.c:675-679 | An argument of negative length is the case in which nothing is promised but the commands before it. |
| AofFaults.UnknownIsReported | Redis-3.0/src/aof.c:692-697 | A whole command with an unknown name ends the loading behind the commands before it. |
| AofFaults.NulAfterStar | Redis-3.0/src/aof.c:661-664 | A NUL behind the '*' is taken for a cut file if the file ends within that line, and else for a read error. |
| AofFaults.ShortCanBeCompleted | Redis-3.0/src/aof.c:655-691 | What is taken for a cut command has a continuation that makes it a command, but for that NUL. |
| AofFaults.OnlyCutCommandsAreCutOff | Redis-3.0/src/aof.c:733-756 | So whenever any file is cut, what is cut off could have become a command, or has that NUL. |
| AofEmit.BegunIsWhole | Redis-3.0/src/aof.c:797-812 | When all announced items are written, the header's count is the number of arguments written. |
| AofEmit.ChunkSizes | Redis-3.0/src/aof.c:786-1013 | Every command but the last of a collection holds exactly as many items as the limit allows, and the last one no more. |
| AofEmit.RewriteCollection | Redis-3.0/src/aof.c:786-1013 | The loop with its running counters writes whole commands of at most the chunk limit, for any size and any positive limit. |
| AofEmit.RewriteEntry | Redis-3.0/src/aof.c:1077-1116 | One key: skipped if expired, else its value and its expire time. |
| AofEmit.RewriteDataset | Redis-3.0/src/aof.c:1061-1125 | All databases: a SELECT before each that is not empty. |
| AofReplay.ChunksGrow | Redis-3.0/src/aof.c:786-1013 | Replaying the chunks of a collection adds all its items, whatever the limit. |
| AofReplay.CommandsByName | Redis-3.0/src/aof.c:786-1013 | RPUSH, SADD, ZADD and HMSET, spelled out, make of a missing key the list, set, scores or fields of their arguments in the order they take them. |
| AofReplay.CommandsOnKey | Redis-3.0/src/aof.c:1077-1116 | Adding to a key keeps its expire time, SET makes it persistent, PEXPIREAT changes its expire time alone. |
| AofReplay.CollectionRebuilt | Redis-3.0/src/aof.c:786-1013 | Replaying what was emitted rebuilds the same list in order, set, sorted set or hash. |
| AofReplay.EntryRebuilt | Redis-3.0/src/aof.c:1077-1116 | Replaying one key's commands rebuilds its value and expire time, or nothing if it had expired. |
| AofReplay.DatasetRebuilt | Redis-3.0/src/aof.c:1061-1125 | Replaying the commands of a rewrite rebuilds every database without its expired keys. |
| AofReplay.FeedAppendOnlyFile | Redis-3.0/src/aof.c:513-561 | Feeding writes a SELECT if and only if the database differs from the last one, then the command. |
| AofReplay.FedReplays | Redis-3.0/src/aof.c:1352-1357 | What was fed since the fork can follow any log: replayed from any selected database it does what the server did. |
| AofReplay.RewrittenLogRestores | Redis-3.0/src/aof.c:1037-1195 | End to end: after any run of the rewrite protocol that succeeds, loading the new log into an empty server gives the dataset at the fork, without expired keys, with all commands since applied. |
| IntsetBytes.DecodeEncode | Redis-3.0/src/intset.c:59-98 | A stored value is read back as it was if and only if it fits the width. |
| IntsetBytes.ValueEncoding | Redis-3.0/src/intset.c:49-56 | The width chosen is the least that the value fits. |
| IntsetBytes.StoreElement | Redis-3.0/src/intset.c:85-98 | Storing one element changes that element alone. |
| IntsetBytes.WidenedStoreIsAbove | Redis-3.0/src/intset.c:171-175 | Storing a widened element at its new place touches no element that is still to be read. |
| IntsetBytes.MovedElement | Redis-3.0/src/intset.c:186-205 | Moving the tail's bytes moves its elements. |
| Intset.UpgradeStep | Redis-3.0/src/intset.c:171-175 | One turn of the widening loop: the elements below are still narrow and unharmed, those above are wide and in place. |
| Intset.OutsideAll | Redis-3.0/src/intset.c:177-181 | A value that needs a wider encoding lies below or above all elements, according to its sign. |
| Intset.InsertKeepsOrder | Redis-3.0/src/intset.c:208-235 | Inserting at the place found keeps the order strict and adds one value to the set. |
| Intset.RemoveKeepsOrder | Redis-3.0/src/intset.c:238-255 | Removing a position keeps the order strict and takes one value from the set. |
| Intset.InsertBytes | Redis-3.0/src/intset.c:228-234 | Moving the tail and storing the value, in the bytes, is inserting the element. |
| Intset.RemoveBytes | Redis-3.0/src/intset.c:246-253 | Moving the tail and cutting the end, in the bytes, is removing the element. |
| Intset.IntSet.Search | Redis-3.0/src/intset.c:119-158 | Finds the value if and only if it is an element, and else the place where it belongs. |
| Intset.IntSet.UpgradeAndAdd | Redis-3.0/src/intset.c:161-184 | Widens in place from back to front and adds the value at the right end; all elements keep their values. |
| Intset.IntSet.Add | Redis-3.0/src/intset.c:208-235 | Fails if and only if the value is a member; the bytes then decode to a strictly increasing sequence of the old set and the value. |
| Intset.IntSet.Remove | Redis-3.0/src/intset.c:238-255 | Succeeds if and only if the value is a member; exactly that value goes. |
| Intset.IntSet.Find | Redis-3.0/src/intset.c:258-261 | Is membership. |
| BitCount.CountIsPopulation | Redis-3.0/src/bitops.c:61-113 | Adding up bytes counts the set bits one by one. |
| BitCount.LanesCount | Redis-3.0/src/bitops.c:87-103 | The three masking steps leave in each byte of a word the number of its bits: nothing crosses a byte boundary. |
| BitCount.AddNumbers | Redis-3.0/src/bitops.c:101-107 | Adding up to seven such words never overflows a byte. |
| BitCount.TopOfSpread | Redis-3.0/src/bitops.c:101-107 | The multiplication leaves the sum of the four bytes in the top one. |
| BitCount.SevenWordsCount | Redis-3.0/src/bitops.c:74-108 | The 28-byte step counts the bits of its 28 bytes. |
| BitCount.PopCount | Redis-3.0/src/bitops.c:61-113 | The whole function, for every length and start address, returns the number of set bits. |
| BitSearch.HitsByte | Redis-3.0/src/bitops.c:182-194 | The probe of step k tests bit k of the loaded word, counted from the left. |
| BitSearch.Skip | Redis-3.0/src/bitops.c:138-156 | What the byte loop and the word loop pass over holds no bit of the wanted value. |
| BitSearch.BitPos | Redis-3.0/src/bitops.c:122-200 | Returns the first bit with the value in the zero-padded string; -1 if and only if a set bit is asked for and there is none; the panic is not reached. |
| BitCombine.WordsByByte | Redis-3.0/src/bitops.c:371-421 | A word operation works on each of the word's bytes by itself. |
| BitCombine.FastLoop | Redis-3.0/src/bitops.c:372-411 | The four-word loop with its running pointers combines exactly the bytes it passes. |
| BitCombine.BitOp | Redis-3.0/src/bitops.c:319-439 | Fast path and byte tail together give the bytewise result over the zero-padded strings, for every number and length of strings. |
| BitCombine.ResultBit | Redis-3.0/src/bitops.c:423-438 | Bit by bit: all strings, some string, an odd number of strings, or not the one string. |
| SortedKeys.InsertKeeps | Redis-3.0/src/t_zset.c:114-168 | Inserting a node keeps the list ordered and adds that node. |
| SortedKeys.DeleteKeeps | Redis-3.0/src/t_zset.c:192-214 | Deleting a node keeps the list ordered and removes that node alone. |
| SortedKeys.FirstInRange | Redis-3.0/src/t_zset.c:243-265 | The first node of a slot, if there is one. |
| SortedKeys.LastInRange | Redis-3.0/src/t_zset.c:269-290 | The last node of a slot, if there is one. |
| SortedKeys.RankIsPosition | Redis-3.0/src/t_zset.c:390-411 | The rank of a node is its position counted from 1. |
| Keyspace.RangeHoldsSlot | Redis-3.0/src/db.c:1201-1228 | The stretch of a slot in the list holds the slot's keys, each once. |
| Keyspace.Database.Add | Redis-3.0/src/db.c:96-104 | The key is in the dictionary and in the index. |
| Keyspace.Database.Delete | Redis-3.0/src/db.c:165-175 | The key leaves the dictionary, the expires table and the index. |
| Keyspace.Database.ExpireIfNeeded | Redis-3.0/src/db.c:836-870 | Says whether the key's time has passed, and deletes it unless the server is loading or a replica. |
| Keyspace.Database.SetKey | Redis-3.0/src/db.c:123-132 | The key gets the value and becomes persistent, whether it was there, expired or new; no other key changes. |
| Keyspace.Database.SetExpire | Redis-3.0/src/db.c:787-795 | Only keys get expire times. |
| Keyspace.Database.Rename | Redis-3.0/src/db.c:675-711 | The value moves with its expire time, what the destination had is gone, and every other key keeps both; or an error leaves the keys alone; the indexes stay exact. |
| Keyspace.Database.Flush | Redis-3.0/src/db.c:215-226 | Dictionary, expires table and index are emptied together. |
| Keyspace.Database.CountKeysInSlot | Redis-3.0/src/db.c:1201-1228 | The rank arithmetic gives the number of the slot's keys. |
| Keyspace.Database.GetKeysInSlot | Redis-3.0/src/db.c:1163-1177 | As many different keys of the slot as asked for, as far as there are. |
| Keyspace.Database.DelKeysInSlot | Redis-3.0/src/db.c:1181-1199 | Removes exactly the keys of the slot from all three structures, although it deletes the nodes it walks over, and returns their number. |

## Left out

- Widths: epochs, counts, file offsets and most lengths are unbounded numbers; a 64-bit epoch or counter that wraps is not modelled. Dictionary hashes have 32 bits, cursors and masks 64; bucket indexes returned by `_dictKeyIndex`, the length kept in a string, registers, popcount lanes and the elements of integer sets have their real widths.
- Dict.Dict.Add: asks for at most 2^59 keys, more than a 64-bit address space has room for; what a store outside the table does is not modelled.
- Dict.Dict.Replace: the same.
- Dict.Dict.KeyIndex: the same number of keys.
- Dict.Dict.ExpandIfNeeded: the same number of keys.
- Dict.Dict.Expand: what the server does when the bytes of a table of more than 2^60 buckets are asked for is not modelled.
- Heap chains: a bucket is a sequence of entries in chain order rather than a linked list; the tables, counters and rehashidx are fields updated in place. Key equality is Dafny's equality and the hash is any function with 32-bit values.
- Dict.Dict.Rehash: the early return in a forked Windows process is not modelled.
- ScanSchedules.NeverMissesExactlyWhen: call by call, for schedules whose smaller table never shrinks below what it was at an unsafe call; for all schedules the condition is about hashes, in `ScanSchedules.NeverMissesIffNoneSlips`.
- ClusterElection.ElectionSafety: assumes that the counted voters are a fixed set of the size used for the quorum.
- ClusterHandlers.Server.HandleSlaveFailover: clocks, ranks, data age and the reasons to fail over are arguments; what a win does to the slot table is `ClusterSlots.SlotState.ReplaceMaster`.
- ClusterConvergence.Convergence: assumes one claim per node, one node per epoch, no importing slots, and that a node's own claim is bound from the start.
- ClusterCollision.CollisionsEnd: runs in which only collision steps change epochs, with fixed roles.
- ClusterEpochs.EpochInvariant: roles, failure flags, clocks, offsets and slot owners enter a step as arguments; restarts, CLUSTER RESET HARD, TAKEOVER, handshakes, gossip and link management are not modelled.
- ClusterSlots.SlotState.UpdateSlotsConfigWith: says that the node becomes a replica or drops keys, and leaves doing it to the caller; `Keyspace.Database.DelKeysInSlot` is the dropping.
- HllObject.HllObject.Estimate: the logarithm and the bias polynomial are one function of the exact sum and the number of zero registers; sums are over reals, so rounding is not modelled.
- HllObject.PfMerge: a destination that does not exist yet is a fresh object passed in; corrupted payloads and the hash function are outside the model.
- HllObject.SparseToDense: byte strings are values, so the memmove of a longer opcode sequence is a concatenation.
- AofLoad.LoadAppendOnlyFile: running a command is recording it; MULTI, a positive length for which memory does not suffice (here the file ends first), and I/O errors that are not the end of the file are not modelled.
- AofReplay.RewrittenLogRestores: scores are their printed text; commands other than SELECT, SET, RPUSH, SADD, ZADD, HMSET and PEXPIREAT are any function of the databases; the translation of EXPIRE and SETEX before feeding is left out.
- AofEmit.RewriteCollection: one loop stands for the seven copies of it in the source, with the number of arguments per item as a parameter.
- AofRewrite.LogServer.RewriteDone: files and pipes are byte strings; flushing, fsync and renames are left out, and the bytes still in aof_buf count as part of the log.
- Intset.IntSet.Add: the 32-bit size computation is not modelled; sets are far smaller.
- Intset.IntSet.Set: storing is little-endian on every machine, so the byte swaps of big-endian ones are left out.
- BitCount.PopCount: the table of 256 bit counts is a function.
- Keyspace.Database.Rename: reference counts, events and replication are left out; one database, as in cluster mode.
- SortedKeys.FirstInRange: the skip list is the sequence of its nodes; its levels and spans are not modelled.
- Event loop, networking, configuration, the Windows port's process emulation and the text-only files.
