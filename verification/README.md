# pdlfs-common: a verified model

This project models the ten hardest parts of pdlfs-common in Dafny and proves what they are for.
`dafny verify dfyconfig.toml` checks all of it.

| part | files |
|---|---|
| entropy-coded trie: bit vectors, Huffman, exp-Golomb and sign-interleave codes, the trie and the index over it | `BitVector`, `HuffmanOptimal`, `HuffmanCode`, `HuffmanTables`, `NodeCodes`, `Trie`, `TrieIndex` |
| GIGA+ directory index: routing, splits, migration, merging of indices | `GigaPlus`, `GigaBitmap` |
| object file system: write-ahead logs, snapshots, recovery after any crash, down to the bytes of the logs; what each call does; survival of the objects | `Ofs`, `OfsOperations`, `OfsDurability`, `OfsRecovery` |
| skip list: one writer and lock-free readers, as interleaved atomic steps and as the class itself | `SkipList` |
| LRU cache with reference counts over a resizing hash table | `HashTable`, `Lru` |
| record log: writer, reader, any cut of the file | `Log` |
| blocks and tables: prefix compression, restart points, comparator, Bloom filter, filter block, builder and get | `Comparator`, `Block`, `Bloom`, `FilterBlock`, `Table`, `TableBuilder`, `TableReader` |
| merging iterator | `Cursors`, `Merger` |
| three-way CRC-32C, its polynomial and its standard values | `Crc32c`, `Crc32cPolynomial`, `Crc32cValues` |
| random sequence: a quadratic-residue permutation | `Residues`, `Modulus`, `RandomSequence` |

`Coding`, `ByteBits`, `Registers`, `Rotations`, `Binary` and `Arithmetic` are shared: byte encodings, bits of bytes
and of machine words, rotations, binary numbers, division.

Code that changes things step by step is a class or a method with loops, proved against a specification;
pure code is functions and lemmas. Each class keeps an abstract value (a set of keys, a map, a list of
entries, a bit string), and the theorems are about that value. The concurrent skip list and the crashing
file system are state machines: a run is any sequence of enabled steps.

## What the proofs found

- Object file system: the snapshot that heads a new log at mount is not synced, and mounting once more
  truncates the other log. With `sync_log_on_close` off, a set that is mounted and unmounted twice with nothing
  logged in between can be lost by a crash (`OfsSafety.RemountCanLoseTheSet`). A mount is safe exactly when the
  log it recovers from has a synced first record or replays to nothing (`OfsSafety.MountIsSafeIff`), and always
  when unmounting syncs (`OfsSafety.SyncOnCloseIsSafe`). Recovery is proved for all runs in which mounts are safe.
- Object file system: an object that a put, create or copy is about to write is logged as garbage first, and a mount
  deletes garbage without asking whether a file is linked to it. Overwriting a file and crashing before the write is
  linked loses the file (`OfsDurability.OverwritingCanLose`). So does writing to a name whose object has moved along with
  a rename (`OfsDurability.RenamedNameIsTaken`), and deleting one of two names that a crash in mid-rename has left on one
  object. A call is free of this exactly if the object it goes to belongs to no (other) file (`OfsDurability.GentleIff`);
  in runs of such calls no file ever loses its object (`OfsDurability.NoFileIsLost`).
- GIGA+: the bound that `HashToIndex` asserts holds in every run of splits if and only if the number of virtual
  servers is a power of two (`GigaSplits.BoundIsSafeIff`); three servers and two splits break it
  (`GigaSplits.ThreeServersFail`). Routing itself is right for any number of servers.
- Huffman: `decode` returns no symbol when the buffer is used up, so messages over an alphabet of one symbol, whose
  codeword is empty, do not come back at the end of a buffer. All others do (`HuffmanMessages.Transmit`).
- Table: a filter denies by the bytes of a key. A key that compares equal to a stored one under the comparator is found
  whenever there is no filter or the policy respects the order, that is, no filter of rising keys denies a key that
  compares equal to one of them (`TableReading.Lookup`). Otherwise the keys of any such filter make a table that loses the
  key (`TableFilters.LoseKey`). A comparator that looks at lengths only and the Bloom policy are such a case
  (`TableFilters.BloomCanMiss`); under the bytewise comparator there is none (`TableFilters.BytewiseIsRespected`).
- Merging iterator: any mix of calls is answered as by one cursor over the union if no key is in two children
  (`MergingIterators.MergingIterator.Run`). If one is, seeking it and stepping forth and back loses it, which no list
  explains (`MergingIterators.SharedKeyIsLost`). Turning the direction moves the other children past the current key.

## Model

| member | source | states |
|---|---|---|
| `SkipListRuns.StepInv` | src/leveldb/skiplist.h:274-382 | every load and store of every thread keeps the invariant (each level a sorted sublist of the one below, the unfinished node where it may be), and nothing a reader could reach disappears |
| `SkipListRuns.RunInv` | src/leveldb/skiplist.h:274-382 | every state of every interleaved run satisfies the invariant |
| `SkipListRuns.NeverStuck` | src/leveldb/skiplist.h:274-382 | no load or store ever goes through a NULL or uninitialised pointer |
| `SkipListRuns.RunGrows` | src/leveldb/skiplist.h:349-382 | over any stretch of a run, levels only gain nodes and reachable keys stay |
| `SkipListRuns.ContentsGrow` | src/leveldb/skiplist.h:349-382 | the keys of the bottom list only grow along a run |
| `SkipListRuns.ReadsAreLinearisable` | src/leveldb/skiplist.h:274-334 | a concurrent FindGreaterOrEqual, FindLessThan or FindLast returns the right answer for the bottom list as of its last load, which holds every key that was there when the search began |
| `SkipListRuns.ContainsIsLinearisable` | src/leveldb/skiplist.h:385-392 | a search finds its key exactly if the key is in the bottom list at the last load, and surely if it was linked before the search began |
| `SkipListRuns.InsertTakesEffectOnce` | src/leveldb/skiplist.h:366-382 | exactly one store of an Insert, the bottom-level publish, changes what readers can find, and it adds exactly the new key |
| `SkipListRuns.InsertKeepsRequest` | src/leveldb/skiplist.h:349-382 | an Insert works on the key and height it was asked for to the end, and its node ends up on every level of that height |
| `SkipListSearch.TurnIsRight` | src/leveldb/skiplist.h:274-334 | one turn of any of the three searches keeps the search invariant, and a turn that returns gives the right answer |
| `SkipListSearch.TurnFindsPlaces` | src/leveldb/skiplist.h:274-294 | the prev array that a search leaves is the insertion place on every level |
| `SkipListMemory.WalkIsSorted` | src/leveldb/skiplist.h:317-334 | following the links of a level visits exactly its members, in key order |
| `SkipListOperations.SkipList.FindGreaterOrEqual` | src/leveldb/skiplist.h:274-294 | the node found is the first one not below the key, and prev holds the insertion places |
| `SkipListOperations.SkipList.FindLessThan` | src/leveldb/skiplist.h:297-314 | the node found is the last one below the key, or the head |
| `SkipListOperations.SkipList.FindLast` | src/leveldb/skiplist.h:317-334 | the node found is the last one, or the head |
| `SkipListOperations.SkipList.Contains` | src/leveldb/skiplist.h:385-392 | true exactly if the key is an element |
| `SkipListOperations.SkipList.Insert` | src/leveldb/skiplist.h:349-382 | the elements gain exactly the key, and every level stays a sorted sublist of the one below |
| `SkipListOperations.SkipList.LinkNode` | src/leveldb/skiplist.h:371-382 | linking a node level by level from the bottom adds its key and keeps the list well-formed |
| `Coding.FixedRoundTrip` | src/coding.cc:21-54 | decoding a fixed-width number gives back the number |
| `Coding.FixedByte` | src/coding.cc:21-54 | byte i of a fixed-width number is the one of weight 256^i |
| `Coding.Fixed32At` | src/coding.cc:56-60 | entry j of an array of 32-bit numbers is found at byte 4j |
| `Coding.EncodeVarint32IsVarint` | src/coding.cc:68-94 | the unrolled encoder writes exactly the base-128 digits |
| `Coding.EncodeVarint64` | src/coding.cc:102-111 | the encoding loop writes exactly the base-128 digits |
| `Coding.GetVarint32` | src/coding.cc:140-156 | the decoding loop computes the number of at most five digits, in 32-bit arithmetic, or fails |
| `Coding.GetVarint64` | src/coding.cc:170-185 | the same for ten digits and 64 bits |
| `Coding.Varint32RoundTrip` | src/coding.cc:68-100 | a 32-bit varint is read back, leaving what follows |
| `Coding.Varint64RoundTrip` | src/coding.cc:102-117 | a 64-bit varint is read back, leaving what follows |
| `Coding.LengthPrefixedRoundTrip` | src/coding.cc:126-129 | a length-prefixed string is read back, leaving what follows |
| `OfsRecords.SnapshotIdentity` | src/ofs_impl.cc:205-241 | replaying a snapshot gives exactly the files and garbage it was made from, whatever order the tables were visited in |
| `OfsBytes.RedoUndo` | src/ofs_impl.cc:124-152 | the loop over the ops of a record computes the replay of the record, or reports corruption; what replaying makes of files and garbage is stated by OfsOperations |
| `OfsBytes.ExecuteOps` | src/ofs_impl.cc:138-150 | the loop runs exactly the counted number of ops and fails with the first that fails |
| `OfsBytes.PutOpRoundTrip` | src/ofs_impl.cc:69-122 | an op is read back from its bytes exactly when the names it needs are not empty, and is an error otherwise |
| `OfsBytes.RecordRoundTrip` | src/ofs_impl.cc:124-152 | redoing an encoded record executes its ops, and its time is read back |
| `OfsBytes.ReplayFromBytes` | src/ofs_impl.cc:182-202 | replaying a log from its bytes equals replaying its records |
| `OfsSafety.StepInv` | src/ofs_impl.cc:154-616 | every step of mount, unmount, put, create, copy, rename, delete, store failure and crash keeps the recovery invariant, as long as mounts are safe |
| `OfsSafety.CrashRecovers` | src/ofs_impl.cc:154-203 | at any point of any operation and between sessions, whatever unsynced records a crash keeps, recovery succeeds, rebuilds the files as of the last surviving record and knows every object of the set |
| `OfsSafety.EveryCrashRecovers` | src/ofs_impl.cc:154-616 | the same at every point of every run in which mounts are safe, mounted or not, including a half-written log switch |
| `OfsSafety.OnlySyncChangesFiles` | src/ofs_impl.cc:154-616 | in every such run the files change only where a record is synced, or where a crash strikes while one is; mounting, unmounting, other crashes and other steps keep them (what they change to: OfsOperations.EveryChangeIsAnAction) |
| `OfsSafety.MountIsSafeIff` | src/ofs_impl.cc:243-379 | a mount can be followed by a crash that loses what it just recovered exactly when the chosen log's first record was never synced and its replay is not empty |
| `OfsSafety.SyncOnCloseIsSafe` | src/ofs_impl.cc:381-415 | when every unmount syncs its log, every mount of every run is safe |
| `OfsSafety.RemountCanLoseTheSet` | src/ofs_impl.cc:348-379 | without that, a run with a linked file and two idle remounts exists after which a crash recovers an empty set |
| `OfsDisk.EveryLogReadsBack` | src/ofs_impl.cc:182-202 | whatever a crash leaves of a log of any run decodes, and replays to what the machine's recovery works with |
| `OfsRecovery.LogRecord` | src/ofs_impl.cc:253-259 | a record appended through the log writer to the file of a log gives the file of the longer log |
| `OfsRecovery.Access` | src/ofs_impl.cc:43-67 | from any cut of the file of a log, the time of the first record that is whole, or 0 |
| `OfsRecovery.ReplayFile` | src/ofs_impl.cc:190-193 | from any cut of the file of a log, the loop over the reader replays exactly the records that are whole |
| `OfsRecovery.RecoverFileSet` | src/ofs_impl.cc:154-203 | from any cuts of both log files, what is found is what the machine recovers from the records that are whole |
| `OfsRecovery.RecoverAfterCrash` | src/ofs_impl.cc:154-203 | at every point of every run in which mounts are safe, both log files cut at any byte past what was synced: recovery from the bytes rebuilds the files as of the last whole record and knows every object |
| `OfsOperations.ActionsAreAtomic` | src/ofs_impl.h:72-157 | in every run, a call that logs is followed by its sync or a crash; once synced, files and garbage are what that call should make of them (linked, unlinked, collectable, collected), and after a crash the files are those or the old ones |
| `OfsOperations.EveryChangeIsAnAction` | src/ofs_impl.cc:417-616 | in every run, every change of the files is that of one commit, rename, unlink or delete whose record was just synced or kept by a crash; nothing else changes them |
| `OfsOperations.CreateLinks` | src/ofs_impl.cc:417-450 | after a put, create or copy with its syncs, the files are the old ones with the name linked to its old object, or to the set's name, an underscore and the file's name; that object is in the store and not garbage |
| `OfsOperations.RenameMoves` | src/ofs_impl.cc:556-577 | after a rename with its syncs, the destination has the object of the source, the source is gone, and all else is as before |
| `OfsOperations.DeleteUnlinks` | src/ofs_impl.cc:452-481 | after a delete and its sync, exactly that name is gone and its object is garbage |
| `OfsOperations.DeleteCompletes` | src/ofs_impl.cc:452-481 | once the store has deleted the object and that is marked, the object is neither in the store nor garbage |
| `OfsOperations.CollectedIsForgotten` | src/ofs_impl.cc:264-286 | garbage that a mount has collected and marked is garbage no more, and no file has changed |
| `OfsDurability.NoFileIsLost` | src/ofs_impl.cc:154-616 | in every run of gentle calls (no put, create or copy to an object in use, no delete of a shared object) with safe mounts, every file has its object in the store, and after a crash at any point so does every recovered file, and the next mount leaves these objects alone |
| `OfsDurability.GentleIff` | src/ofs_impl.cc:243-616 | the condition is exact: a call is gentle if and only if no crashes, safe mounts and gentle calls after it can lead to a file without its object |
| `OfsDurability.UngentleLoses` | src/ofs_impl.cc:417-616 | from every reachable state, every call that is not gentle has a continuation that loses a file |
| `OfsDurability.LinkedGarbageIsLost` | src/ofs_impl.cc:243-287 | a mount deletes an object that is garbage even if a file is linked to it |
| `OfsDurability.RenamedNameIsTaken` | src/ofs_impl.cc:419-577 | after a rename, creating a file of the old name is not gentle: its object would be the one that moved along |
| `OfsDurability.OverwritingCanLose` | src/ofs_impl.cc:417-450 | a run that writes a file, overwrites it and crashes during that ends with the file there and its object gone |
| `HuffmanOptimal.KraftInequality` | src/ectrie/huffman.h:106-127 | every prefix-free binary code satisfies the Kraft inequality |
| `HuffmanOptimal.HuffmanIsOptimal` | src/ectrie/huffman.h:106-127 | the generated tree has the least weighted path length among all prefix-free binary codes |
| `HuffmanCodes.CodeRoundTrip` | src/ectrie/huffman.h:286-301 | walking the tree along a codeword gives back its symbol and leaves what follows |
| `HuffmanCodes.CodesPrefixFree` | src/ectrie/huffman.h:174-190 | no codeword is a prefix of another |
| `HuffmanCodes.CostIsTotal` | src/ectrie/huffman.h:115-126 | the sum of the joined weights is the weighted path length |
| `HuffmanCodes.HuffmanTreeOk` | src/ectrie/huffman.h:106-127 | the generated tree has each symbol on exactly one leaf, with its weight |
| `HuffmanCodes.HuffmanCodeIsOptimal` | src/ectrie/huffman.h:134-190 | the code table is prefix-free and no prefix-free code is cheaper |
| `HuffmanCodes.HuffmanCodeIsComplete` | src/ectrie/huffman.h:174-190 | the Kraft sum of the code table is exactly one |
| `HuffmanTables.Generate` | src/ectrie/huffman.h:106-127 | the node array describes the Huffman tree of the weights, ties broken as the multimap does |
| `HuffmanTables.GenerateCodes` | src/ectrie/huffman.h:174-190 | with a shared prefix buffer, every symbol below a node gets the path to it, and nothing else changes |
| `HuffmanTables.CodeTable` | src/ectrie/huffman.h:141-152 | the table holds the Huffman code |
| `HuffmanTables.FindMaxLength` | src/ectrie/huffman.h:233-241 | the length found is the height of the tree |
| `HuffmanTables.RevEntryIsWalk` | src/ectrie/huffman.h:243-257 | the padded entry for a bit pattern is what the tree walk finds, with the bits it uses |
| `HuffmanTables.FillTable` | src/ectrie/huffman.h:243-257 | the range of a subtree is filled with its entries and nothing else changes |
| `HuffmanTables.ReverseTable` | src/ectrie/huffman.h:205-213 | on every bit pattern of the maximal length the reverse table agrees with the tree walk |
| `HuffmanTables.Decode` | src/ectrie/huffman.h:286-301 | decoding from a bit vector is the tree walk, and a used-up buffer gives no symbol |
| `HuffmanTables.SplitWeights` | src/ectrie/huffman.h:315-320 | the running product gives the binomial coefficients, every division being exact |
| `HuffmanMessages.AppendCode` | src/ectrie/huffman.h:277-283 | the vector gains exactly the bits of the code |
| `HuffmanMessages.EncodeAll` | src/ectrie/huffman.h:277-283 | a message is written as its codewords, one after another, across block boundaries |
| `HuffmanMessages.DecodeAll` | src/ectrie/huffman.h:285-301 | a message is read back, except exactly when a one-symbol alphabet meets the end of the buffer |
| `HuffmanMessages.Transmit` | src/ectrie/huffman.h:265-307 | from any weights, a message comes back exactly when the alphabet has two symbols or more or the message is empty |
| `BitAccess.CopySet` | src/ectrie/bit_access.h:77-127 | into cleared bits, any stretch of bits is copied between blocks of any two widths, and nothing else changes |
| `BitVectors.BitVector.Resize` | src/ectrie/bit_vector.cc:48-73 | the bits stay and the capacity is the one asked for |
| `BitVectors.BitVector.Reserve` | src/ectrie/bit_vector.h:72-77 | the bits stay and there is room |
| `BitVectors.BitVector.PushBack` | src/ectrie/bit_vector.h:34-44 | the bits gain one |
| `BitVectors.BitVector.AppendBlocks` | src/ectrie/bit_vector.h:71-81 | the bits gain a stretch of another array of blocks |
| `BitVectors.BitVector.AppendLow` | src/ectrie/bit_vector.h:84-95 | the bits gain the low bits of a word |
| `BitVectors.BitVector.Get` | src/ectrie/bit_vector.h:51-53 | bit i |
| `BitVectors.BitVector.GetWord` | src/ectrie/bit_vector.h:98-103 | a stretch of bits as a word |
| `SignInterleave.RoundTrip` | src/ectrie/sign_interleave.h:20-41 | encoding and decoding undo each other on all 64-bit words |
| `SignInterleave.EncodeIs` | src/ectrie/sign_interleave.h:20-28 | 0, 1, 2, .. become 0, 2, 4, .. and -1, -2, .. become 1, 3, .. |
| `SignInterleave.OffsetRoundTrip` | src/ectrie/trie.h:71-110 | the distance of a split from the middle, in wrapped arithmetic, survives the code and never reaches the value that exp-Golomb cannot hold |
| `ExpGolomb.RoundTrip` | src/ectrie/exp_golomb.h:23-75 | order 0: a number is read back from its code, leaving what follows |
| `ExpGolomb.CodeIs` | src/ectrie/exp_golomb.h:23-50 | order 0: for n + 1 between 2^k and 2^(k + 1), the code is k zeros, a one and the k low bits of n + 1 |
| `ExpGolomb.Encode` | src/ectrie/exp_golomb.h:23-50 | order 0: the vector gains exactly the code |
| `ExpGolomb.Decode` | src/ectrie/exp_golomb.h:52-75 | order 0: the number read is the one parsed, and the position moves over its code |
| `ExpGolombOrders.OrderRoundTrip` | src/ectrie/exp_golomb.h:23-75 | for every order, a number is read back from its code, leaving what follows |
| `ExpGolombOrders.EncodeOrder` | src/ectrie/exp_golomb.h:23-50 | for every order, the vector gains exactly the code |
| `ExpGolombOrders.DecodeOrder` | src/ectrie/exp_golomb.h:52-75 | for every order, the number read is the one parsed, and the position moves over its code |
| `TrieCode.SizeRoundTrip` | src/ectrie/trie.h:71-110 | the size of a left subtree is read back from whichever of the two codes is used for it |
| `TrieCode.DepthInRange` | src/ectrie/trie.h:50-72 | two different keys differ before the depth passes their length |
| `TrieCode.Halves` | src/ectrie/trie.h:65-70 | keys that agree up to a depth split into those with a zero there and those with a one |
| `TrieLocate.SkipIsExact` | src/ectrie/trie.h:127-157 | skipping a subtree consumes exactly the bits that encoding it produced |
| `TrieLocate.LocateDescends` | src/ectrie/trie.h:85-124 | a lookup on the bits does what a walk down the trie does, and reads only bits of the encoding |
| `TrieTheorems.StoredKeyIsFound` | src/ectrie/trie.h:50-157 | a stored key is located in the block of its true rank, and at its rank when blocks hold one key |
| `TrieTheorems.AnyKeyIsPlaced` | src/ectrie/trie.h:85-124 | for any key, with one key per block, r <= rank <= r + 1; with larger blocks, r lies in the block of the last smaller key |
| `TrieTheorems.NoBitsForOneBlock` | src/ectrie/trie.h:50-60 | the keys of a subtree take no bits exactly if they all lie in one block |
| `TrieMethods.BuildTable` | src/ectrie/huffman.h:315-323 | the table of a node size holds the Huffman tree and code of its binomial weights |
| `TrieMethods.BuildBuffer` | src/ectrie/huffman.h:312-325 | there is a table for every node size up to the limit |
| `TrieMethods.EncodeSize` | src/ectrie/trie.h:71-77 | the vector gains the code of the left size |
| `TrieMethods.DecodeSize` | src/ectrie/trie.h:101-110 | the left size is read back and the position moves over its code |
| `TrieMethods.CountLeft` | src/ectrie/trie.h:65-70 | the number of leading keys with a zero bit is the split |
| `TrieMethods.EncodeRec` | src/ectrie/trie.h:50-83 | the vector gains exactly the encoding of the trie of the keys |
| `TrieMethods.SkipRec` | src/ectrie/trie.h:127-157 | the position moves exactly over the encoding of the subtree |
| `TrieMethods.LocateRec` | src/ectrie/trie.h:85-124 | the rank returned is the one of the walk down the trie |
| `TrieMethods.EncodeAndLocate` | src/ectrie/trie.h:31-157 | for any sorted keys, block size and Huffman limit: encoding the keys and locating one in the bits gives its block, or its rank when blocks hold one key, and places any other key; the trie is shown to exist |
| `TrieKeys.KeyOrder` | src/ectrie/trie.h:50-83 | the order of bit strings is the order of memcmp on keys of one length |
| `TrieIndex.Index.InsertKeys` | src/ect.cc:69-74 | after encoding, the index stands for the sorted keys |
| `TrieIndex.Index.Find` | src/ect.cc:61-67 | a stored key gives its exact rank; any other key gives its rank or one less |
| `Crc32cSpec.CastagnoliLinear` | src/crc32c/crc32c_sse42.cc:59-60 | the one-bit step of the CRC-32C polynomial is linear over GF(2) |
| `Crc32cSpec.CrcConcat` | src/crc32c/crc32c_sse42.cc:168-265 | the serial crc of a concatenation goes through the crc of the first part |
| `Crc32cSpec.CrcSplits` | src/crc32c/crc32c_sse42.cc:140-144 | a crc is the zero-extended start value xor the crc from zero |
| `Crc32cSpec.ThreeStreams` | src/crc32c/crc32c_sse42.cc:210-211 | three crcs of adjacent stretches combine, by two shifts and two xors, to the serial crc |
| `Crc32cInstructions.Crc32bIsSerial` | src/crc32c/crc32c_sse42.cc:181-189 | the byte instruction, defined by polynomial division, is the serial crc of a byte |
| `Crc32cInstructions.Crc32qIsSerial` | src/crc32c/crc32c_sse42.cc:242-249 | the eight-byte instruction is the serial crc of eight bytes |
| `Crc32cTables.TimesApplies` | src/crc32c/crc32c_sse42.cc:66-76 | multiplying by the matrix of n zero bits applies n zero bits |
| `Crc32cTables.MatrixTimes` | src/crc32c/crc32c_sse42.cc:66-76 | the loop computes the product over GF(2) |
| `Crc32cTables.MatrixSquare` | src/crc32c/crc32c_sse42.cc:80-84 | the square of the matrix of n zero bits is that of 2n |
| `Crc32cTables.OneZeroBit` | src/crc32c/crc32c_sse42.cc:96-102 | the first matrix is that of one zero bit |
| `Crc32cTables.ZerosOp` | src/crc32c/crc32c_sse42.cc:91-123 | the operator is that of as many zero bytes as the largest power of two up to len, one for len 0 |
| `Crc32cHardware.ZerosTables` | src/crc32c/crc32c_sse42.cc:127-138 | four table look-ups and xors apply the zeros operator |
| `Crc32cHardware.Shift` | src/crc32c/crc32c_sse42.cc:141-144 | shifting a crc by tables applies the zero bits |
| `Crc32cHardware.InitTables` | src/crc32c/crc32c_sse42.cc:162-165 | the two tables shift by 8192 and 256 zero bytes |
| `Crc32cHardware.Round` | src/crc32c/crc32c_sse42.cc:195-214 | one three-way round extends the serial crc over its three stretches |
| `Crc32cHardware.Blocks` | src/crc32c/crc32c_sse42.cc:195-237 | the loop of rounds keeps the serial crc of all that was consumed |
| `Crc32cHardware.Crc32cHw` | src/crc32c/crc32c_sse42.cc:168-265 | for every start value, buffer and alignment the result is Extend, the byte-serial CRC-32C with both inversions, whose meaning Crc32cPolynomial.ExtendIsRemainder and the values of RFC 3720 fix |
| `Crc32cHardware.ExtendConcat` | include/pdlfs-common/crc32c.h:25-34 | the crc of a concatenation is the crc of the second part started from that of the first |
| `Crc32cPolynomial.PolyBits` | src/crc32c/crc32c_sse42.cc:59-60 | the constant holds, in reflected order, exactly the exponents of the Castagnoli polynomial below 32 |
| `Crc32cPolynomial.CrcIsRemainder` | src/crc32c/crc32c_sse42.cc:168-265 | the serial crc is the remainder of start value and data as a polynomial, times x^32, divided by the Castagnoli polynomial |
| `Crc32cPolynomial.ExtendIsRemainder` | src/crc32c/crc32c_sse42.cc:168-265 | Extend, inverted, is the one remainder of the inverted start value above the data |
| `Polynomials.RemainderIsUnique` | src/crc32c/crc32c_sse42.cc:59-60 | a polynomial over GF(2) leaves one remainder below the degree of the divisor |
| `Crc32cValues.ZerosValue` | src/crc32c/crc32c_test.cc:59-60 | 32 zero bytes give 0x8a9136aa (RFC 3720, section B.4) |
| `Crc32cValues.OnesValue` | src/crc32c/crc32c_test.cc:62-63 | 32 bytes of 0xff give 0x62a8ab43 |
| `Crc32cValues.RisingValue` | src/crc32c/crc32c_test.cc:65-68 | the bytes 0, 1, .., 31 give 0x46dd794e |
| `Residues.Certificate` | src/random.cc:16-24 | an element whose powers pass the test for every prime factor of n - 1 generates all residues, so n is prime |
| `Modulus.TwoGenerates` | src/random.cc:17-17 | 2 generates the residues modulo 4294967291, so that number is prime |
| `RandomSequence.SquaresDoNotCancel` | src/random.cc:21-23 | modulo a prime that is 3 mod 4 no two squares of units add up to zero |
| `RandomSequence.PermuteIs` | src/random.cc:16-24 | below half the prime, Permute is the square modulo the prime; above, minus the square; the five numbers from the prime on stay |
| `RandomSequence.MaskIsXor` | src/random.cc:31-33 | the mask is the exclusive or of 32-bit words with 0x5bf03635 |
| `RandomSequence.PermuteInjective` | src/random.cc:16-24 | Permute maps different numbers to different numbers |
| `RandomSequence.PermuteInRange` | src/random.cc:16-24 | Permute stays within 32 bits |
| `RandomSequence.PermuteOnto` | src/random.cc:16-24 | every 32-bit number is hit |
| `RandomSequence.OutputsDiffer` | src/random.cc:31-33 | outputs at different indices differ |
| `RandomSequence.OutputsRepeat` | src/random.cc:31-33 | two outputs of a sequence are the same exactly when a multiple of 2^32 calls lies between them, across the wrap of the index |
| `RandomSequence.Sequence.Draw` | src/random.cc:31-33 | of the outputs of any number of calls, two are the same exactly when their positions agree modulo 2^32: any 2^32 consecutive ones are pairwise distinct |
| `RandomSequence.Sequence.Next` | src/random.cc:31-33 | the index moves on by one, modulo 2^32, and the output is that of the old index |
| `GigaIndex.ParentOfChild` | src/gigaplus.cc:78-98 | the parent of a child is the partition it was split from |
| `GigaIndex.ChildOfParent` | src/gigaplus.cc:78-98 | every partition but zero is a child of its smaller parent |
| `GigaIndex.ParentIsLow` | src/gigaplus.cc:95-98 | the parent keeps all but the top bit |
| `GigaRouting.OwnerIsUnique` | src/gigaplus.cc:546-555 | at most one partition owns a hash |
| `GigaRouting.RouteIsOwner` | src/gigaplus.cc:546-555 | the parent walk ends at the partition that owns the hash |
| `GigaRouting.StaleRouteIsAncestor` | src/gigaplus.cc:546-555 | a client with a subset of the server's partitions is sent to an ancestor of the server's partition |
| `GigaRouting.ClosedUnion` | src/gigaplus.cc:305-324 | the union of parent-closed sets is parent-closed |
| `GigaRouting.MergedRoute` | src/gigaplus.cc:422-437 | an owner in the union of a subset with the whole is the owner in the whole |
| `GigaRouting.ParentOwnsMigrated` | src/gigaplus.cc:571-573 | what a split moves was owned by the parent |
| `GigaRouting.SplitMovesExactly` | src/gigaplus.cc:571-573 | a split moves exactly the hashes for which ToBeMigrated holds, from the parent to the child, and no other hash |
| `GigaClients.EveryClientRoutes` | src/gigaplus.cc:422-555 | in every run of splits at a server and fetches by any number of clients, each client sends a hash to its partition or an ancestor, and to the partition itself exactly if it has heard of it |
| `GigaClients.FreshClientRoutes` | src/gigaplus.cc:422-450 | in every such run, a client that has just fetched sends every hash where the server would |
| `GigaSplits.SplitInv` | src/gigaplus.cc:502-534 | a split adds a fresh child of the partition, stays parent-closed and in bounds, and raises the radix by at most one |
| `GigaSplits.EveryRun` | src/gigaplus.cc:502-555 | after any run of splits from partition zero, every hash is routed to the one partition that owns it |
| `GigaSplits.BoundHoldsIff` | src/gigaplus.cc:546-550 | the bound that HashToIndex asserts holds for all hashes exactly if 2^radix is at most the number of virtual servers |
| `GigaSplits.BoundIsSafeIff` | src/gigaplus.cc:546-550 | that bound holds in every run of splits exactly if the number of virtual servers is a power of two |
| `GigaSplits.ThreeServersFail` | src/gigaplus.cc:546-550 | with three virtual servers two splits and one hash break it |
| `GigaHash.ReverseTrickReverses` | src/gigaplus.cc:44-47 | the multiply-and-mask trick reverses the bits of a byte, on 64-bit words |
| `GigaHash.ComputeIndex` | src/gigaplus.cc:108-138 | with the trick applied byte by byte: bit k of the index is set exactly if k < n and bit 7 - k % 8 of byte k / 8 of the hash is |
| `GigaHash.NumberBits` | src/gigaplus.cc:108-138 | bit k of the number that routing speaks of is bit 7 - k % 8 of byte k / 8 of the hash |
| `GigaDirIndex.HighestBit` | src/gigaplus.cc:256-266 | the bit found is the highest one set |
| `GigaDirIndex.ParseDirIndex` | src/gigaplus.cc:200-218 | an encoded index is accepted exactly under the stated checks, and then viewed as it was encoded |
| `GigaDirIndex.UnionOfBytes` | src/gigaplus.cc:311-313 | or-ing the bytes unites the bit sets |
| `GigaDirIndex.Rep.TurnOnBit` | src/gigaplus.cc:285-302 | the set gains exactly the bit, through any growth of the bitmap, and the radix is that of the highest bit |
| `GigaDirIndex.Rep.ScaleToSize` | src/gigaplus.cc:353-373 | the set stays and there is room |
| `GigaDirIndex.Rep.Merge` | src/gigaplus.cc:305-319 | the set becomes the union and the radix the larger one |
| `GigaDirIndex.Rep.ToSlice` | src/gigaplus.cc:227-230 | the encoding parses back, under paranoid checks, to the same set |
| `GigaDirIndex.DirIndex.HashToIndex` | src/gigaplus.cc:546-555 | the partition found is set and owns the hash: it is the walk from the first radix bits of the hash, read as ComputeIndex reads them |
| `GigaDirIndex.DirIndex.IsSplittable` | src/gigaplus.cc:502-519 | true exactly if the next free child is below the bounds |
| `GigaDirIndex.DirIndex.NewIndexForSplitting` | src/gigaplus.cc:524-534 | the index found is the next free child |
| `GigaDirIndex.DirIndex.Split` | src/gigaplus.cc:467-471 | turning on the bit of the next free child keeps the invariant and raises the radix by at most one |
| `GigaDirIndex.DirIndex.Update` | src/gigaplus.cc:422-437 | an index of the same directory is merged as a union; anything else is refused and changes nothing |
| `GigaDirIndex.RefreshAndRoute` | src/gigaplus.cc:422-555 | on the classes: after a client with a subset of the server's partitions has merged the server's encoded index, both find the same owner of any hash; before, the client's answer was an ancestor, and right exactly if it knew the owner |
| `HashTables.SearchFinds` | include/pdlfs-common/hashmap.h:67-73 | where a search ends, the table holds the key exactly if the slot points at an entry |
| `HashTables.Insertion` | include/pdlfs-common/hashmap.h:77-89 | writing a slot makes the map hold the new entry for its key and returns the old one |
| `HashTables.Removal` | include/pdlfs-common/hashmap.h:101-121 | unlinking at a slot removes exactly that key |
| `HashTables.MoveEntry` | include/pdlfs-common/hashmap.h:149-157 | relinking one entry keeps the moved and the remaining chains well-formed |
| `HashTables.FinishMove` | include/pdlfs-common/hashmap.h:139-163 | once every chain is moved, the map is the same |
| `HashTables.HashTable.FindPointer` | include/pdlfs-common/hashmap.h:67-73 | the slot found is that of the key, or the end of its chain |
| `HashTables.HashTable.Lookup` | include/pdlfs-common/hashmap.h:67-73 | the entry found is the one the map has for the key |
| `HashTables.HashTable.Insert` | include/pdlfs-common/hashmap.h:94-97 | the map holds the entry for its key, through any resize, and the replaced entry is returned; there stay at least as many buckets as entries |
| `HashTables.HashTable.Remove` | include/pdlfs-common/hashmap.h:113-121 | the map loses the key and its entry is returned |
| `HashTables.HashTable.RemoveEntry` | include/pdlfs-common/hashmap.h:101-110 | the key is removed exactly if it maps to that very entry |
| `HashTables.HashTable.Resize` | include/pdlfs-common/hashmap.h:139-163 | rehashing every chain in place keeps the map; the buckets are at least as many as the entries and fewer than twice as many, or four |
| `LruLists.Remove` | include/pdlfs-common/lru.h:192-195 | two pointer stores take an entry out of its circular list and leave both lists intact |
| `LruLists.Append` | include/pdlfs-common/lru.h:197-203 | four pointer stores make an entry the newest of a list and leave both lists intact |
| `LruInvariant.CreateOk` | include/pdlfs-common/lru.h:273-283 | a new entry with one handle keeps the cache invariant |
| `LruInvariant.ChangeListOk` | include/pdlfs-common/lru.h:185-189 | changing lists with the reference count keeps the cache invariant |
| `LruInvariant.DeleteOk` | include/pdlfs-common/lru.h:179-184 | freeing an entry at its last reference keeps the cache invariant, its deleter having run once |
| `LruCaches.UnrefReleases` | include/pdlfs-common/lru.h:176-190 | withdrawing a client's reference does what the release of a handle should, which LruCaches.ReleaseStep states |
| `LruCaches.ReleaseStep` | include/pdlfs-common/lru.h:176-190 | one handle and one reference less; a cached entry without handles becomes the newest of the lru list, an uncached one is deleted once and its charge taken off; no other entry, handle, key or list place changes |
| `LruCaches.UnrefEvicts` | include/pdlfs-common/lru.h:210-215 | withdrawing the cache's reference does what an eviction should |
| `LruCaches.LRUCache.Unref` | include/pdlfs-common/lru.h:176-190 | fields, counters and the deleter's record change as the reference count demands; its two uses are stated by ReleaseStep and UnrefEvicts |
| `LruCaches.LRUCache.Release` | include/pdlfs-common/lru.h:375-378 | exactly one handle and one reference less; the last handle of a cached entry makes it the newest idle one, the last reference deletes it once; nothing else changes |
| `LruCaches.LRUCache.Ref` | include/pdlfs-common/lru.h:385-392 | one handle more for that entry and nothing else changed |
| `LruCaches.LRUCache.Lookup` | include/pdlfs-common/lru.h:320-326 | the cached entry of the key, with one handle more, or nothing |
| `LruCaches.LRUCache.Erase` | include/pdlfs-common/lru.h:345-350 | exactly that key leaves the cache; its entry lives on while clients hold it, or leaves its place in the lru list |
| `LruCaches.LRUCache.EraseEntry` | include/pdlfs-common/lru.h:354-359 | exactly that entry leaves the cache, if it is in it, and the order of the others stays |
| `LruCaches.LRUCache.Prune` | include/pdlfs-common/lru.h:329-337 | exactly the idle entries go; every other key, entry and list stays |
| `LruCaches.LRUCache.MakeRoom` | include/pdlfs-common/lru.h:298-304 | exactly the oldest idle entries go, as few as it takes for usage to fit, or all of them; every other key, entry and list stays |
| `LruCaches.LRUCache.Insert` | include/pdlfs-common/lru.h:271-314 | the old entry of the key leaves the cache; then the fewest oldest idle entries go that make room, or all; every other key maps to what it did; the key maps to the new entry exactly if it then fits; no held entry is touched, and usage is exact and within capacity |
| `LogFormat.UnmaskMask` | include/pdlfs-common/crc32c.h:44-53 | unmasking undoes masking |
| `LogFormat.MaskRotates` | include/pdlfs-common/crc32c.h:44-47 | masking is the rotation of a 32-bit word by 15 bits plus 0xa282ead8 |
| `LogFormat.LogLaid` | src/log_writer.cc:45-94 | the fragments of any list of records stand one after another, never across a block boundary |
| `LogFormat.FragmentsCarry` | src/log_writer.cc:45-94 | the fragments of a record hold its bytes in order, are marked first, middle, last or full, and all but the last reach to the end of their block |
| `LogFormat.AddedRecord` | src/log_writer.cc:45-94 | appending the fragments of one more record to the file of some records gives the file of all of them |
| `LogWriter.Writer.EmitPhysicalRecord` | src/log_writer.cc:96-122 | the file gains the seven bytes of the header and the payload, as the format says |
| `LogWriter.FormatHeader` | src/log_writer.cc:100-110 | the header built byte by byte is the one the format defines: masked checksum of type and payload, length, type |
| `LogWriter.Writer.AddRecord` | src/log_writer.cc:45-94 | the file gains the fragments of the record, cut at block boundaries, an empty record included |
| `LogWriter.Writer.FillTrailer` | src/log_writer.cc:55-66 | a trailer too small for a header is filled with zeros |
| `LogAssembly.AssembleLog` | src/log_reader.cc:68-193 | reading fragments from between records gives the first record from the initial offset on that lies within the cut |
| `LogAssembly.AssembleFromMiddle` | src/log_reader.cc:68-193 | the same when the read starts in the middle of a record, whose rest is skipped |
| `LogAssembly.KeptIsPrefix` | src/log_reader.cc:68-193 | read from the start, any cut of a log gives a prefix of its records, those that are whole |
| `LogAssembly.WholeAtLeast` | src/log_reader.cc:68-193 | a cut that holds the bytes of the first k records gives at least these |
| `LogAssembly.LogClean` | src/log_reader.cc:106-187 | the fragments of a written log never look corrupt |
| `LogReader.HeaderReads` | src/log_reader.cc:237-279 | what the writer put in a header is what the reader takes from it, checksum included |
| `LogReader.JumpTo` | src/log_reader.cc:44-66 | starting at a later block loses no record from the initial offset on |
| `LogReader.Reader.SkipToInitialBlock` | src/log_reader.cc:44-66 | skipping to the initial block does not change what will be read |
| `LogReader.Reader.ReadPhysicalRecord` | src/log_reader.cc:210-292 | on an intact log the next fragment is delivered, or the end, and nothing is reported |
| `LogReader.Reader.ReadRecord` | src/log_reader.cc:68-193 | on an intact log the record returned, its offset and what remains are those of the specification |
| `LogReader.ReadAll` | src/log_reader.cc:68-193 | for any records, any cut of the file and any initial offset, exactly the records that start from the offset on and lie within the cut come back, in order; from offset 0 nothing is reported |
| `MergeUnion.UnionSorted` | src/leveldb/merger.cc:160-188 | sorted children without a common key have one sorted union |
| `MergeUnion.UnionHas` | src/leveldb/merger.cc:160-188 | the union holds exactly the keys of the children |
| `MergePlaces.SmallestIsSeek` | src/leveldb/merger.cc:160-173 | when every child stands at its first key from t on, the smallest is where the union passes t |
| `MergePlaces.LargestIsBefore` | src/leveldb/merger.cc:175-188 | when every child stands at its last key below t, the largest is the last key of the union below t |
| `MergingIterators.MergingIterator.FindSmallest` | src/leveldb/merger.cc:160-173 | the child chosen stands at the smallest key, or none stands |
| `MergingIterators.MergingIterator.FindLargest` | src/leveldb/merger.cc:175-188 | the child chosen stands at the largest key, or none stands |
| `MergingIterators.MergingIterator.SeekToFirst` | src/leveldb/merger.cc:43-49 | the place is the first of the union |
| `MergingIterators.MergingIterator.SeekToLast` | src/leveldb/merger.cc:51-57 | the place is the last of the union |
| `MergingIterators.MergingIterator.Seek` | src/leveldb/merger.cc:59-65 | the place is the first key of the union from the target on |
| `MergingIterators.MergingIterator.Next` | src/leveldb/merger.cc:67-91 | in either direction, the place moves to the next key of the union, if no key is shared; going forward, one child steps and the smallest is current in any case |
| `MergingIterators.MergingIterator.TurnForward` | src/leveldb/merger.cc:75-87 | turning forward puts the other children behind the current key, and leaves the place if no key is shared |
| `MergingIterators.MergingIterator.Prev` | src/leveldb/merger.cc:93-120 | in either direction, the place moves to the previous key of the union, if no key is shared; on a turn the other children stand before the current key in any case |
| `MergingIterators.MergingIterator.TurnBack` | src/leveldb/merger.cc:101-116 | turning back puts the other children before the current key, and leaves the place if no key is shared |
| `MergingIterators.Shows` | src/leveldb/merger.cc:122-130 | valid and key are those of the union at the place |
| `MergingIterators.MergingIterator.Run` | src/leveldb/merger.cc:43-120 | for children that share no key, any mix of calls with any direction changes is answered as by one cursor over the sorted union |
| `MergingIterators.SharedKeyIsLost` | src/leveldb/merger.cc:59-120 | the condition is exact: for any two children that share a key, seeking it and stepping forth and back loses it, which no cursor in any list would do |
| `BlockFormat.EntryRoundTrip` | src/leveldb/block.cc:66-86 | what the builder writes for an entry is what the reader decodes, on the fast and the slow path |
| `BlockImages.EntryReads` | src/leveldb/block.cc:66-86 | decoding at the offset of an entry finds the rest of its key and its value |
| `BlockImages.PointReads` | src/leveldb/block.cc:111-114 | restart point j is the offset of the entry it marks |
| `BlockImages.CountReads` | src/leveldb/block.cc:31-51 | the number of restart points is read back |
| `BlockBuilding.BlockBuilder.Add` | src/leveldb/block_builder.cc:186-222 | the entries gain one, the shared prefix is dropped, and there is a restart point at every interval-th entry |
| `BlockBuilding.BlockBuilder.ShareWith` | src/leveldb/block_builder.cc:192-198 | the count is the length of the longest common prefix |
| `BlockBuilding.BlockBuilder.Finish` | src/leveldb/block_builder.cc:150-161 | the contents are the entries, the restart points and their number |
| `BlockBuilding.BlockBuilder.CurrentSizeEstimate` | src/leveldb/block_builder.cc:140-148 | the estimate is exactly the size that Finish will return |
| `BlockIterators.LeadSplits` | src/leveldb/block.cc:175-213 | in ordered entries, the keys below a target are exactly those before the place that Seek lands on |
| `BlockIterators.Iter.Read` | src/leveldb/block.cc:138-147 | valid, key and value are those of the entry at the place |
| `BlockIterators.Iter.ParseNextKey` | src/leveldb/block.cc:236-263 | the next entry is read, its key rebuilt from the last one, or the iterator goes off the end |
| `BlockIterators.Iter.Next` | src/leveldb/block.cc:149-152 | the place moves on by one |
| `BlockIterators.Iter.Prev` | src/leveldb/block.cc:154-173 | the place moves back by one, or off the start |
| `BlockIterators.Iter.RestartBefore` | src/leveldb/block.cc:157-167 | the restart point found lies before the entry, and there is none exactly for the first entry |
| `BlockIterators.Iter.Seek` | src/leveldb/block.cc:175-213 | the place is the first key that is not below the target |
| `BlockIterators.Iter.FindRestart` | src/leveldb/block.cc:176-201 | everything before the restart point that the binary search picks is below the target |
| `BlockIterators.Iter.SeekToFirst` | src/leveldb/block.cc:215-218 | the place is the first entry |
| `BlockIterators.Iter.SeekToLast` | src/leveldb/block.cc:220-225 | the place is the last entry |
| `BlockIterators.Iter.Run` | src/leveldb/block.cc:149-225 | any sequence of calls is answered as by a cursor over the entries |
| `BlockIterators.Open` | src/leveldb/block.cc:266-276 | an iterator over the contents of a built block stands for its entries |
| `BlockIterators.FinishAndRead` | src/leveldb/block_builder.cc:150-222 | a block that is finished and read back is a cursor over the entries that were added, for any restart interval |
| `ByteOrder.Transitive` | src/leveldb/comparator.cc:37-39 | bytewise comparison is transitive |
| `ByteOrder.Reversed` | src/leveldb/comparator.cc:37-39 | bytewise comparison is antisymmetric |
| `ByteOrder.SeparatorBetween` | src/leveldb/comparator.cc:41-62 | a separator lies from start on and below limit and is no longer than start |
| `ByteOrder.SeparatorIs` | src/leveldb/comparator.cc:41-62 | with the first difference at d, the separator is start cut after d with that byte incremented, of length d + 1, if the bytes there are more than one apart, and start itself otherwise |
| `ByteOrder.FindShortestSeparator` | src/leveldb/comparator.cc:41-62 | the string is cut at the first difference, incremented there, exactly if that stays below limit |
| `ByteOrder.SuccessorAbove` | src/leveldb/comparator.cc:64-76 | a successor is not below the key, no longer than it, and the key itself exactly for a run of 0xff |
| `ByteOrder.SuccessorIs` | src/leveldb/comparator.cc:64-76 | the successor is cut right after the first byte that is not 0xff, incremented there |
| `ByteOrder.FindShortSuccessor` | src/leveldb/comparator.cc:64-76 | the loop computes the successor |
| `KeyOrder.BytewiseIsLawful` | src/leveldb/comparator.cc:31-77 | the bytewise comparator is a total order with separators and successors as a table needs them |
| `Bloom.CreateFilter` | src/leveldb/bloom.cc:44-70 | the loops compute the filter of the keys |
| `Bloom.DeltaRotates` | src/leveldb/bloom.cc:63-63 | the step between probes is the hash rotated right by 17 bits, on 32-bit words |
| `Bloom.FilterSizes` | src/leveldb/bloom.cc:35-53 | a filter has the bits asked for, at least 64, up to the next byte; the probes are 0.69 times the bits per key, rounded down, from 1 to 30 |
| `Bloom.KeyMayMatch` | src/leveldb/bloom.cc:72-96 | true exactly if all probes of the key are set, or the number of probes is reserved; false for a filter too short |
| `Bloom.RaiseAllIs` | src/leveldb/bloom.cc:59-69 | a filter has exactly the bits that some key probes |
| `Bloom.NoFalseNegative` | src/leveldb/bloom.cc:44-96 | a key of the filter may match, for any hash function and any bits per key |
| `Bloom.MatchIsCovered` | src/leveldb/bloom.cc:72-96 | a key that may match has each of its bits from some key of the filter |
| `FilterBlocks.BloomNeverMisses` | src/leveldb/bloom.cc:44-96 | the Bloom policy is one that a filter block may use |
| `FilterBlocks.FilterBlockBuilder.AddKey` | src/leveldb/filter_block.cc:42-46 | the pending keys gain one |
| `FilterBlocks.FilterBlockBuilder.StartBlock` | src/leveldb/filter_block.cc:34-40 | filters are generated up to the 2 KB range of the new block, the pending keys going to the first of them |
| `FilterBlocks.FilterBlockBuilder.GenerateFilter` | src/leveldb/filter_block.cc:64-88 | the pending keys, recovered from their flat form, become the next group |
| `FilterBlocks.FilterBlockBuilder.Finish` | src/leveldb/filter_block.cc:48-62 | the contents are the filters of all groups, their offsets, the offset of these and the base |
| `FilterBlocks.OpenFilter` | src/leveldb/filter_block.cc:90-101 | the reader finds the offsets of what the builder wrote |
| `FilterBlocks.KeyMayMatch` | src/leveldb/filter_block.cc:103-117 | the answer is that of the policy on the filter of the block's 2 KB range, and yes beyond the last |
| `TableFormat.HandleRoundTrip` | src/leveldb/format.cc:28-42 | a block handle is read back |
| `TableFormat.ReadBlock` | src/leveldb/format.cc:78-153 | a stored block is read back, with or without verifying its checksum |
| `TableFormat.FooterRoundTrip` | src/leveldb/format.cc:44-76 | the two handles of a footer are read back and the magic number is accepted |
| `TablePlans.UpToSep` | src/leveldb/index_block.cc:15-28 | no key of a block is above its index key |
| `TablePlans.BeyondSep` | src/leveldb/index_block.cc:15-28 | every key of a later block is above an index key |
| `TablePlans.SearchSplits` | src/leveldb/table.cc:267-295 | the block that the index names and the place found in it split all keys of the table by the target |
| `TablePlans.SearchFinds` | src/leveldb/table.cc:267-295 | a stored key is where the search ends |
| `TableBuilding.TableBuilder.Add` | src/leveldb/table_builder.cc:122-158 | the added entries gain one, and blocks, index keys, pending index entry and filter stay in step; an open block stays below the block size |
| `TableBuilding.TableBuilder.AddIndexEntry` | src/leveldb/index_block.cc:15-28 | the index gains a key from the last key of the block on and below the next key |
| `TableBuilding.TableBuilder.FlushIfFull` | src/leveldb/table_builder.cc:154-157 | a block whose size estimate reaches the block size is written, and no other |
| `TableBuilding.TableBuilder.Flush` | src/leveldb/table_builder.cc:160-177 | at any point, the data block is written, its index entry left pending and the filter started for the next block; an empty block changes nothing |
| `TableBuilding.TableBuilder.WriteRawBlock` | src/leveldb/table_builder.cc:219-237 | the file gains the contents and the trailer, and the handle says where |
| `TableBuilding.TableBuilder.WriteMeta` | src/leveldb/table_builder.cc:265-285 | the metaindex block maps the filter's name and the properties to their handles |
| `TableBuilding.TableBuilder.Finish` | src/leveldb/table_builder.cc:239-309 | the file is a table of exactly the added entries, and its filter covers every key of every block |
| `TableReading.Open` | src/leveldb/table.cc:58-139 | the index block and, under a filter policy, the filter are those that the builder wrote |
| `TableReading.InternalGet` | src/leveldb/table.cc:267-295 | unless the filter of its block denies it, something is handed back exactly if the block whose index keys span the key has a key from it on, and then the first such entry: a stored key with the same bytes, one that compares equal if there is no filter or the policy respects the order, or the next key when it is in the block of the one before |
| `TableReading.SearchDecides` | src/leveldb/table.cc:267-295 | the seek in the index and in the block stops at an entry exactly if there is a block that spans the key and an entry in it from the key on |
| `TableReading.Denied` | src/leveldb/table.cc:276-279 | a filter that denies a key does so only when no stored key has its bytes, and, if the policy respects the order, none that compares equal |
| `TableReading.Lookup` | src/leveldb/table.cc:58-295 | the same from the bytes of the file: stored keys, keys in between and keys beyond |
| `TableReading.FinishAndLookup` | src/leveldb/table_builder.cc:239-309 | a table that is finished and read back hands back every key that was added, with its value, every key that compares equal to one if the policy respects the order, and for a key between two of one block, unless the filter denies it, the next one |
| `TableFilters.LoseKey` | include/pdlfs-common/leveldb/filter_policy.h:33-40 | the condition is exact: if the filter of some rising keys denies a key that compares equal to one of them, the table built of these keys, if they fit one block, does not find it |
| `TableFilters.BloomCanMiss` | include/pdlfs-common/leveldb/filter_policy.h:33-40 | compared by length, two keys of one byte compare equal, and whenever their hashes are 0 and 1 the Bloom filter of the one denies the other, at any bits per key |
| `TableFilters.ByLengthIsLawful` | include/pdlfs-common/leveldb/comparator.h:22-58 | that comparator meets every law a comparator must |
| `TableFilters.BytewiseIsRespected` | src/leveldb/comparator.cc:31-74 | under the bytewise comparator every policy without false negatives respects the order |

## Left out

- RPC, sockets, POSIX, RADOS, Mercury and Margo code: input, output and foreign libraries.
- Hash functions: any function of the key will do in `Bloom`, `HashTables`, `LruCaches` and `GigaDirIndex`.
- Snappy: blocks are stored uncompressed, and a block of another type is an error in `TableFormat.ReadBlock`.
- src/leveldb/db: memtable, versions, compaction and the internal key comparator are not part of this model.
- src/crc32c/crc32c_sw.cc: the 1024 literals of the software tables.
- Checksums in the log and the tables are any function of the bytes; `Crc32cHardware` is about the real one.
- Memory order: the skip list's loads and stores are sequentially consistent steps; its iterators are not modelled.
- Keys of the skip list and the merging iterator are numbers, their places in the comparator's order.
- SkipListOperations.SkipList.Insert: the random height is a parameter.
- Appends and reads of files do not fail in `LogWriter`, `LogReader`, `TableBuilding` and `TableReading`; log appends do not fail in `OfsSafety`, where store operations may.
- Object file system: the bytes in objects (that an object is there is modelled), unmounting with deletion, renaming across sets and read-only mounts; data object names differ from log names; the clock strictly increases.
- OfsRecovery.RecoverAfterCrash: times, counts and names of the logged records fit their fields, and then they can be read back (`OfsDisk.EveryLogReadsBack`); files with other damage than a cut are not modelled.
- Huffman weights do not overflow 64 bits, and node references do not overflow their type; codewords are strings of bits rather than packed blocks in the table.
- The `append` of one bit vector to another, `pop_back`, `compact`, and `twolevel_bucketing`.
- GIGA+: `SetAll`, `TurnOffBit` and the test-only resets; `log2` is exact; radices that do not fit the shift in `ParseDirIndex`.
- GigaDirIndex.DirIndex.Update: an accepted index has the radix of its highest bit and at most 8192 bytes of bits, as DoMerge and Reset assert.
- The `HashMap` wrapper and its linked list, `HashSet`.
- LruCaches.LRUCache.Insert: identities of entries are never reused; `SetCapacity` on a cache in use and the destructor are not modelled.
- LogWriter.Writer.AddRecord: `CurrentOffset` is not modelled, its field being uninitialised after the one-argument constructor.
- LogReader.ReadAll: what is reported when the initial offset is not zero is not stated, and neither is the mode that keeps reading after a clean end.
- MergingIterators.MergingIterator.Run: for children that share a key only the failure is stated, not which entries a scan in one direction gives; statuses of children, and the special cases for no child and one child.
- BlockBuilding.BlockBuilder.Add: an entry must end below the 32-bit limit on offsets in a block; changing the restart interval in mid-block and the test-only buffers are not modelled.
- BlockIterators.Iter.Seek: corrupt blocks are reported as in the source, but nothing is stated about what is read from them.
- Bloom.CreateFilter: the number of probes is computed with the real number 0.69.
- TableBuilding.TableBuilder.Add: properties are opaque bytes given to Finish, and options do not change in between.
- TableReading.InternalGet: the block cache, which only keeps blocks that were read, and the limit option; the value is always handed back.
- Two-level iteration over a table.
