# HFS+ volumes, flash translation and crypto kernels, verified

A model in Dafny of the writable HFS+ file system, the flash translation layer and the small
crypto and compression kernels of `dump-imessages/iphone-dataprotection`, with proofs of what
they promise. Code that changes state is modelled as classes, arrays and loops; each method is
proved against a function of the old state, and the promises are lemmas about those functions.

- `BTree`, over `TreeShape`, `NodeLists`, `SortedRecords` and `Bitmap`: the B-tree of
  Apple Technical Note TN1150 as an array of nodes with a free-node map, refining a sorted map. The
  ghost field `levels` lists each level's node numbers; `TreeViews` shows that the list says no more
  than walking the tree, and carries the Python reader. Keys are integer ranks (`ExtentKeys`).
- `Page` and `PageNodes`: a node as raw bytes, refining a record sequence.
- `Extents`, `RawFile` and `ExtentRecords`: block allocation, fragmented files, stored extent lists.
- `Catalog`, `FolderContents` and `UnicodeCompare`: catalog records and threads, listings, name order.
- `HfsCompress`: compressed files behind a one-piece cache.
- `Vsvfl` (with `Bitwise`) and `Yaftl`: page translation with bad blocks, and the rebuilt map.
- `SBox`, `Rijndael` and `RijndaelCode`: the block cipher and its equivalent inverse.
- `GcmField` and `Gcm`; `KeyWrap` and `KeyWrapAes`; `Kdf`; `Sha1` and `Pbkdf2`; `Lzss`.
- `Options`, `Bytes` and `Arithmetic` are shared helpers.

Where the code falls short of what it is for, the model follows the code, and a lemma says exactly
when it does what it should: `RawFile.ZerosLand`, `ExtentRecords.RoundTrip` and `SecondWrite`,
`Catalog.CreateExactly` and `MoveExactly`, `Vsvfl.RulesAgree` and `DividedApart`,
`Yaftl.InvalidMapped` and `TocSameMap`, `KeyWrap.WrapThenUnwrap` and `Sha1.CountRight`. In
`vsvfl.py` the method names are crossed: vendor 0x150011 gets the method named after 0x100014, and
the other way round (lines 61-64); the model follows the assignment.

## Model

| member | source | states |
|---|---|---|
| BTree.BTree.AddToBTree | dump-imessages/iphone-dataprotection/emf_decrypter/hfs/btree.c:1322-1372 | from any well-formed tree: an absent key gives exactly the sorted leaf sequence with that record added, a present key changes nothing; uniform height, separators equal to first keys, sibling links on every level, ends of the leaf chain, leafRecords, and the node map with freeNodes all still hold; as a map, one binding is added |
| BTree.BTree.RemoveFromBTree | dump-imessages/iphone-dataprotection/emf_decrypter/hfs/btree.c:1542-1556 | exactly the record of the key goes, down to the empty tree, with the same invariant; the caller needs a key whose leaf ends at or beyond it, which every stored key has (PresentStops) |
| BTree.BTree.Search | dump-imessages/iphone-dataprotection/emf_decrypter/hfs/btree.c:177-265 | exact precisely when the key is stored, then with its data and position; else the data of the greatest smaller key, None when there is none; the position is the key's rank among all leaf records |
| BTree.BTree.AddRecord | dump-imessages/iphone-dataprotection/emf_decrypter/hfs/btree.c:1123-1257 | one level of insertion: the subtree's level gains the record, at most one new right neighbour appears beside the node on its level, everything left of and below the path is as before |
| BTree.BTree.RemoveRecord | dump-imessages/iphone-dataprotection/emf_decrypter/hfs/btree.c:1374-1540 | one level of removal: separators along the path follow a changed first key, and a node that loses its last record is unlinked and freed |
| BTree.BTree.IncreaseHeight | dump-imessages/iphone-dataprotection/emf_decrypter/hfs/btree.c:1259-1320 | a new root over two nodes, contents unchanged, height up by one |
| BTree.BTree.SplitNode | dump-imessages/iphone-dataprotection/emf_decrypter/hfs/btree.c:916-996 | the upper half of the records moves to a fresh right neighbour; the level's record sequence and all links hold |
| BTree.BTree.DoAddRecord | dump-imessages/iphone-dataprotection/emf_decrypter/hfs/btree.c:1043-1121 | inserts at the key's rank into a node with room; refuses a key the node has |
| BTree.BTree.RemoveNode | dump-imessages/iphone-dataprotection/emf_decrypter/hfs/btree.c:847-914 | the node leaves its sibling list and the map, and the ends of the leaf chain follow |
| BTree.BTree.FindFree | dump-imessages/iphone-dataprotection/emf_decrypter/hfs/btree.c:676-722 | the lowest clear bit of the header map record is taken and counted |
| BTree.BTree.PositionsFit | dump-imessages/iphone-dataprotection/emf_decrypter/hfs/btree.c:125-140 | the 32-bit product that places a node is exact for every node when nodes have at most 16 KB |
| BTree.BTree.GrowBTree | dump-imessages/iphone-dataprotection/emf_decrypter/hfs/btree.c:755-837 | a clump of clear nodes is added |
| BTree.BTree.GetNewNode | dump-imessages/iphone-dataprotection/emf_decrypter/hfs/btree.c:839-845 | a node number that was not in use, growing the file when none is free |
| BTree.PresentStops | dump-imessages/iphone-dataprotection/emf_decrypter/hfs/btree.c:1457-1458 | every stored key meets the condition under which removal stops in its leaf |
| SortedRecords.InsAsMap | dump-imessages/iphone-dataprotection/emf_decrypter/hfs/btree.c:1322-1372 | sorted insertion adds one binding to the map a record sequence stands for, and no other |
| SortedRecords.DelAsMap | dump-imessages/iphone-dataprotection/emf_decrypter/hfs/btree.c:1542-1556 | deletion removes one binding and no other |
| Bitmap.UpdateBit | dump-imessages/iphone-dataprotection/emf_decrypter/hfs/btree.c:724-753 | setting or clearing a bit changes that bit and no other |
| Bitmap.UpdateCount | dump-imessages/iphone-dataprotection/emf_decrypter/hfs/btree.c:676-722 | the count of clear bits moves by exactly one |
| TreeViews.WalkIsContents | dump-imessages/iphone-dataprotection/emf_decrypter/hfs/btree.c:377-527 | walking down from the root, knowing nothing of the levels, visits exactly the leaf records in order |
| TreeViews.ChainIsLeaves | dump-imessages/iphone-dataprotection/emf_decrypter/hfs/btree.c:267-375 | following forward links from the first leaf meets exactly the leaves in order |
| TreeViews.MarkedIsReachable | dump-imessages/iphone-dataprotection/emf_decrypter/hfs/btree.c:529-604 | the header map record marks exactly the header node and the nodes reachable from the root |
| TreeViews.TreeReader.Search | dump-imessages/iphone-dataprotection/python_scripts/hfs/btree.py:99-123 | over nodes in the reader's key order the Python search finds what a linear scan finds, and remembers the leaf position of the key's rank |
| TreeViews.TreeReader.SearchMultiple | dump-imessages/iphone-dataprotection/python_scripts/hfs/btree.py:158-172 | collects, across leaf boundaries, the longest run of accepted records from the key on |
| TreeViews.RangeIsTaken | dump-imessages/iphone-dataprotection/python_scripts/hfs/btree.py:158-172 | that run is exactly the records of a key range when the filter is the range |
| FolderContents.GetFolderContents | dump-imessages/iphone-dataprotection/emf_decrypter/hfs/catalog.c:346-434 | lists exactly the records of a folder, in order and without its thread, across leaves; None exactly when no key is that small |
| ExtentKeys.CompareIsRankOrder | dump-imessages/iphone-dataprotection/emf_decrypter/hfs/extents.c:24-58 | the comparator of the extents tree orders well-formed keys as integers, and ties only equal keys: the keys of the tree model are these ranks |
| ExtentKeys.ReaderOrder | dump-imessages/iphone-dataprotection/python_scripts/hfs/btree.py:240-248 | the order of the Python reader, file id first, is the tree's order on a set of keys if and only if no two keys are ordered oppositely by fork type and file id; so always within one fork type |
| ExtentKeys.OrdersDiffer | dump-imessages/iphone-dataprotection/python_scripts/hfs/btree.py:240-248 | two keys on which the orders differ |
| Page.Page.InsertRecord | dump-imessages/iphone-dataprotection/emf_decrypter/hfs/btree.c:1084-1108 | byte moves and offset rewriting insert one record into the record sequence, and the layout stays: records in order, clear of the offset table |
| Page.Page.DeleteRecord | dump-imessages/iphone-dataprotection/emf_decrypter/hfs/btree.c:1411-1423 | byte moves delete exactly one record of the sequence |
| Page.Page.SplitInto | dump-imessages/iphone-dataprotection/emf_decrypter/hfs/btree.c:916-996 | the sequence is cut at half: this page keeps the head, the other page holds the tail |
| Page.Page.MoveRecordsDown | dump-imessages/iphone-dataprotection/emf_decrypter/hfs/btree.c:998-1041 | records from an index on move by a distance and their entries by a slot, for both directions |
| Page.OpenedRecords | dump-imessages/iphone-dataprotection/emf_decrypter/hfs/btree.c:1043-1121 | a page whose bytes are opened at an offset holds the record sequence with one record inserted |
| Page.ClosedRecords | dump-imessages/iphone-dataprotection/emf_decrypter/hfs/btree.c:1411-1423 | a page whose bytes are closed over a record holds the sequence without it |
| Page.OffIsSize | dump-imessages/iphone-dataprotection/emf_decrypter/hfs/btree.c:125-140 | the two bytes of table entry i, most significant first, are 14 plus the size of the first i records |
| PageNodes.FreeSpaceAgrees | dump-imessages/iphone-dataprotection/emf_decrypter/hfs/btree.c:142-163 | the free bytes read from the page are what the tree model computes from the record count |
| PageNodes.InsertAgrees | dump-imessages/iphone-dataprotection/emf_decrypter/hfs/btree.c:1043-1121 | inserting the encoded record at its rank turns a page of a node into a page of the node with the record |
| PageNodes.SplitAgrees | dump-imessages/iphone-dataprotection/emf_decrypter/hfs/btree.c:916-996 | splitting a page of a node leaves a page of its lower half and a page of its upper half |
| PageNodes.DeleteAgrees | dump-imessages/iphone-dataprotection/emf_decrypter/hfs/btree.c:1411-1423 | deleting record i of the page deletes record i of the node |
| RawFile.File.Allocate | dump-imessages/iphone-dataprotection/emf_decrypter/hfs/rawfile.c:29-161 | fails, changing nothing, exactly when too few blocks are free for the 32-bit block count, which is right if and only if the size needs fewer than 2^32 blocks; below that it fails exactly when all blocks of the file and all free ones together are too small, and else leaves room for the size with less than a block to spare; used plus free blocks are conserved, the block list grows behind the old one or is cut to a prefix and takes no block of another file; the image is the old one with the zeros where the code writes them, and while the new blocks begin below 4 GB (always on a volume of at most 4 GB) kept bytes stay, new ones read as zero and no other file changes |
| RawFile.RoomFor | dump-imessages/iphone-dataprotection/emf_decrypter/hfs/rawfile.c:29-45 | a number of blocks has room for a size exactly when it is at least the block count, which leaves less than a block to spare |
| RawFile.File.Grow | dump-imessages/iphone-dataprotection/emf_decrypter/hfs/rawfile.c:46-105 | distinct free blocks are appended, each extent contiguous, and a block of zeros is written for each at its 32-bit position; the roving search ends because blocks left, or else the cyclic distance to a free block, falls |
| RawFile.Volume.Claim | dump-imessages/iphone-dataprotection/emf_decrypter/hfs/rawfile.c:89-94 | one free block is marked and counted, and the zeros go to block number times block size modulo 2^32 |
| RawFile.ZerosLand | dump-imessages/iphone-dataprotection/emf_decrypter/hfs/rawfile.c:90-92 | on every volume the zeros for a list of blocks land on these blocks and on no other, whatever the volume holds, if and only if all of them begin below 4 GB |
| RawFile.HighKeeps | dump-imessages/iphone-dataprotection/emf_decrypter/hfs/rawfile.c:90-92 | a block that begins at 4 GB or above keeps its old bytes when it is taken |
| RawFile.TakeHighBlock | dump-imessages/iphone-dataprotection/emf_decrypter/hfs/rawfile.c:90-92 | with 4096-byte blocks, taking block 2^20 zeroes block 0 and leaves block 2^20 as it was |
| RawFile.HighVolume | dump-imessages/iphone-dataprotection/emf_decrypter/hfs/rawfile.c:90-92 | a volume on which a file that takes block 2^20 does not read as zero and the file in block 0 is zeroed |
| RawFile.File.Shrink | dump-imessages/iphone-dataprotection/emf_decrypter/hfs/rawfile.c:106-147 | the blocks from a position on are given back and the list is cut there |
| RawFile.File.Read | dump-imessages/iphone-dataprotection/emf_decrypter/hfs/rawfile.c:163-216 | reading across extents returns the slice of the flat file; exactly when it fails |
| RawFile.File.Write | dump-imessages/iphone-dataprotection/emf_decrypter/hfs/rawfile.c:218-272 | fails, changing nothing, exactly when the end of the write is beyond all blocks of the file and all free ones together; the file then has less than a block to spare; the data go over exactly their slice of the flat file; the other bytes of this file and those of other files are as before, or zero where new, while the blocks that made room begin below 4 GB, and otherwise are those left by the zeros for them |
| RawFile.Volume.IsBlockUsed | dump-imessages/iphone-dataprotection/emf_decrypter/hfs/rawfile.c:7-13 | the block's bit |
| RawFile.Volume.SetBlockUsed | dump-imessages/iphone-dataprotection/emf_decrypter/hfs/rawfile.c:15-27 | the block's bit is as asked for and every other bit as before |
| RawFile.OtherFile | dump-imessages/iphone-dataprotection/emf_decrypter/hfs/rawfile.c:29-272 | any file with no block in the changed file keeps its bytes, and stays apart from it |
| RawFile.GrowResult | dump-imessages/iphone-dataprotection/emf_decrypter/hfs/rawfile.c:46-105 | growth puts free blocks behind the old ones; when they begin below 4 GB it extends the flat file by zeros and changes no other file |
| RawFile.ShrinkResult | dump-imessages/iphone-dataprotection/emf_decrypter/hfs/rawfile.c:106-147 | shrinking cuts the flat file |
| Extents.FileIsBlocks | dump-imessages/iphone-dataprotection/emf_decrypter/hfs/rawfile.c:163-272 | a file's bytes depend on its block list alone, not on its grouping into extents |
| Extents.WriteInExtent | dump-imessages/iphone-dataprotection/emf_decrypter/hfs/rawfile.c:218-272 | a write inside one extent is a write at the extent's place in the file |
| Extents.WriteAtIs | dump-imessages/iphone-dataprotection/emf_decrypter/hfs/rawfile.c:218-272 | written data are read back, and every other byte is as before |
| ExtentRecords.WriteExtents | dump-imessages/iphone-dataprotection/emf_decrypter/hfs/rawfile.c:353-404 | the old list's records go, then eight inline descriptors and overflow records keyed by disk block are written beside what is left; none when an old record is missing, which ends the program |
| ExtentRecords.WrittenIs | dump-imessages/iphone-dataprotection/emf_decrypter/hfs/rawfile.c:360-404 | descriptor by descriptor: the eight in the fork, and every record added under the disk block it starts at unless that key is taken, with what the record before it had in descriptors the list does not fill |
| ExtentRecords.RemoveExtents | dump-imessages/iphone-dataprotection/emf_decrypter/hfs/rawfile.c:292-351 | the records left after removing those found by file block |
| ExtentRecords.ReadExtents | dump-imessages/iphone-dataprotection/emf_decrypter/hfs/rawfile.c:406-477 | the extents read back, looked up by file block, or none when a record is missing |
| ExtentRecords.RoundTrip | dump-imessages/iphone-dataprotection/emf_decrypter/hfs/rawfile.c:353-477 | what a file's first write stores is read back exactly when every overflow record starts at the disk block equal to its place in the file; so always for eight extents |
| ExtentRecords.WriteBack | dump-imessages/iphone-dataprotection/emf_decrypter/hfs/rawfile.c:353-477 | beside any records still in the tree a list is read back exactly when its keys agree and no record in its way says otherwise |
| ExtentRecords.SecondWrite | dump-imessages/iphone-dataprotection/emf_decrypter/hfs/rawfile.c:292-477 | over a list whose keys agree all old records are removed; a second list is read back exactly when its keys agree and no record that removal missed is in its way |
| ExtentRecords.NineExtents | dump-imessages/iphone-dataprotection/emf_decrypter/hfs/rawfile.c:292-444 | nine one-block extents that are not read back, and over which any write ends the program |
| Catalog.Volume.GetRecordByCnid | dump-imessages/iphone-dataprotection/emf_decrypter/hfs/catalog.c:312-344 | what the thread of the id leads to, if anything |
| Catalog.ByIdIsScan | dump-imessages/iphone-dataprotection/emf_decrypter/hfs/catalog.c:312-344 | under the invariant that is the one record with the id found by scanning all records, and none when no record has it |
| Catalog.Volume.Create | dump-imessages/iphone-dataprotection/emf_decrypter/hfs/catalog.c:914-1101 | refused exactly when the parent is no folder; else the whole new tree, key by key, for every name, taken or empty ones included: the record, its thread, and the parent with its counts; the volume stays valid if and only if the name is free, and under a taken name the file or folder count is one above the records there are |
| Catalog.Volume.RemoveFile | dump-imessages/iphone-dataprotection/emf_decrypter/hfs/catalog.c:794-881 | the tree without the record and its thread and with the parent's counts; exactly when it is refused |
| Catalog.Volume.Move | dump-imessages/iphone-dataprotection/emf_decrypter/hfs/catalog.c:669-792 | the whole new tree, key by key when the new key is free; the invariant survives exactly when the folder is another one and the key is free; records that lie in themselves included |
| Catalog.Volume.UpdateCatalog | dump-imessages/iphone-dataprotection/emf_decrypter/hfs/catalog.c:620-667 | the record with that id is replaced under the key its thread names, and nothing else changes |
| Catalog.CreateKeeps | dump-imessages/iphone-dataprotection/emf_decrypter/hfs/catalog.c:914-1101 | creation with a free name keeps threads and records mutually inverse and every valence equal to the number of children |
| Catalog.CreateExactly | dump-imessages/iphone-dataprotection/emf_decrypter/hfs/catalog.c:914-1101 | creation keeps the invariant if and only if the name is free |
| Catalog.TakenNameBreaks | dump-imessages/iphone-dataprotection/emf_decrypter/hfs/catalog.c:986-999 | under a taken name the new thread names a key that does not hold the new id, and the parent's valence ends one above the number of its children |
| Catalog.TakenNameExample | dump-imessages/iphone-dataprotection/emf_decrypter/hfs/catalog.c:914-1002 | the root with one file: a folder created under the file's name, or under the empty name of a path with a trailing slash, breaks the catalog |
| Catalog.DeleteKeeps | dump-imessages/iphone-dataprotection/emf_decrypter/hfs/catalog.c:794-881 | so does removal of a file or an empty folder |
| Catalog.MoveExactly | dump-imessages/iphone-dataprotection/emf_decrypter/hfs/catalog.c:669-792 | a move keeps the invariant if and only if it leads to another folder and a free key |
| Catalog.UnnamedMove | dump-imessages/iphone-dataprotection/emf_decrypter/hfs/catalog.c:727-775 | under the empty name a record that lies in itself or is moved into itself ends under its own thread's key, or is lost, and the invariant is gone before the valences are written |
| Catalog.SameFolderBreaks | dump-imessages/iphone-dataprotection/emf_decrypter/hfs/catalog.c:779-783 | within one folder the second write of its record undoes the first: the valence ends one too high |
| Catalog.TakenBreaks | dump-imessages/iphone-dataprotection/emf_decrypter/hfs/catalog.c:740-752 | on a taken key the moved record is lost: its thread names another record, or the folder's thread |
| Catalog.UpdateExactly | dump-imessages/iphone-dataprotection/emf_decrypter/hfs/catalog.c:620-667 | writing a record back keeps the invariant if and only if a folder's valence is unchanged |
| Catalog.Childless | dump-imessages/iphone-dataprotection/emf_decrypter/hfs/catalog.c:846-850 | a folder is empty exactly when its valence is not positive |
| Catalog.Run | dump-imessages/iphone-dataprotection/emf_decrypter/hfs/catalog.c:620-1101 | after any run of creations, removals, moves and updates that pass those checks the volume is valid and every lookup by id agrees with a scan of all records |
| UnicodeCompare.FastUnicodeCompare | dump-imessages/iphone-dataprotection/emf_decrypter/hfs/fastunicodecompare.c:379-418 | the loop over both strings is lexicographic order of the folded strings, ignored characters dropped and colons taken for slashes; -1 exactly for a proper prefix or a smaller first difference, 0 exactly for equal ones |
| UnicodeCompare.LexMeans | dump-imessages/iphone-dataprotection/emf_decrypter/hfs/fastunicodecompare.c:379-418 | the order by its first difference |
| UnicodeCompare.FoldedMeans | dump-imessages/iphone-dataprotection/emf_decrypter/hfs/fastunicodecompare.c:379-418 | the folded string character by character: what the table has for each character it does not send to 0, in order, 47 for 58 |
| UnicodeCompare.WeakOrder | dump-imessages/iphone-dataprotection/emf_decrypter/hfs/fastunicodecompare.c:379-418 | it is a weak order whose ties are the strings that fold alike |
| UnicodeCompare.TiesWithThread | dump-imessages/iphone-dataprotection/emf_decrypter/hfs/fastunicodecompare.c:379-418 | a name ties with the empty name of a thread key exactly when all its characters are ignored |
| UnicodeCompare.CatalogCompare | dump-imessages/iphone-dataprotection/emf_decrypter/hfs/catalog.c:128-182 | smaller exactly for a smaller parent, or the same parent and a name that precedes with 47 for 58; ties are equal names in that sense |
| UnicodeCompare.CatalogCompareCS | dump-imessages/iphone-dataprotection/emf_decrypter/hfs/catalog.c:184-198 | smaller exactly for a smaller parent, or the same parent and a folded name that precedes |
| UnicodeCompare.KeyWeakOrder | dump-imessages/iphone-dataprotection/emf_decrypter/hfs/catalog.c:128-198 | both key orders are weak orders; ties are the same parent and the same compared name |
| UnicodeCompare.ThreadIsFirst | dump-imessages/iphone-dataprotection/emf_decrypter/hfs/catalog.c:363-375 | the thread key comes before the folder's other keys and behind all keys of smaller parents |
| HfsCompress.Compressed.Read | dump-imessages/iphone-dataprotection/emf_decrypter/hfs/hfscompress.c:39-80 | returns the slice of the logical file from whatever is cached, loading pieces as needed |
| HfsCompress.Compressed.Write | dump-imessages/iphone-dataprotection/emf_decrypter/hfs/hfscompress.c:82-107 | byte by byte the data at their place and the file as it was elsewhere, caching all of it first |
| HfsCompress.Compressed.Close | dump-imessages/iphone-dataprotection/emf_decrypter/hfs/hfscompress.c:109-217 | the attribute and fork left behind hold the logical file: in the attribute exactly when it has at most 64 KB and compresses to at most 4096 - 540 bytes, else in the fork, of which every field and piece is named (OnDisk) |
| HfsCompress.Compressed.WriteBlocks | dump-imessages/iphone-dataprotection/emf_decrypter/hfs/hfscompress.c:139-171 | compressed pieces are laid out one behind the other from the end of the directory |
| HfsCompress.Compressed.constructor | dump-imessages/iphone-dataprotection/emf_decrypter/hfs/hfscompress.c:219-290 | opening gives a handle on the file that attribute and fork hold |
| HfsCompress.ReadDirectory | dump-imessages/iphone-dataprotection/emf_decrypter/hfs/hfscompress.c:265-286 | the directory bytes are parsed back to the entries |
| HfsCompress.Finished | dump-imessages/iphone-dataprotection/emf_decrypter/hfs/hfscompress.c:175-206 | header, directory and trailer written around the pieces overwrite none of them, and the whole parses back to the file |
| HfsCompress.WrittenForm | dump-imessages/iphone-dataprotection/emf_decrypter/hfs/hfscompress.c:120-206 | the fork byte by byte: header 0x100, totals and 0x32, directory and entries, the compressed pieces of 64 KB one behind the other from 0x104 on, and the trailer's fields |
| HfsCompress.StoresOne | dump-imessages/iphone-dataprotection/emf_decrypter/hfs/hfscompress.c:219-290 | attribute and fork hold at most one file |
| HfsCompress.Use | dump-imessages/iphone-dataprotection/emf_decrypter/hfs/hfscompress.c:39-107 | any sequence of reads and writes answers as a plain byte array does |
| HfsCompress.Sessions | dump-imessages/iphone-dataprotection/emf_decrypter/hfs/hfscompress.c:39-290 | opened, used, closed and opened again: all replies are those of the plain file, and the reopened file is what the writes left |
| Vsvfl.RulesAgree | dump-imessages/iphone-dataprotection/python_scripts/nand/vsvfl.py:143-154 | the two vendor rules agree on all banks and pages if and only if a block has 128 pages |
| Vsvfl.DividedApart | dump-imessages/iphone-dataprotection/python_scripts/nand/vsvfl.py:150-158 | the dividing rule keeps the blocks of a chip apart if and only if a block has at least 128 pages |
| Vsvfl.BlocksCollide | dump-imessages/iphone-dataprotection/python_scripts/nand/vsvfl.py:150-158 | with fewer, block 1 of both banks is one physical block |
| Vsvfl.BuildTable | dump-imessages/iphone-dataprotection/python_scripts/nand/vsvfl.py:115-131 | exactly the blocks that a map entry names or marks are bad; bit b modulo 8 of byte b / 8, from the lowest, is clear for them |
| Vsvfl.CondemnsWhat | dump-imessages/iphone-dataprotection/python_scripts/nand/vsvfl.py:120-131 | what a map entry says: nothing for 0xFFF0, the block it names, or else the pool block it stands for |
| Vsvfl.RemapBlock | dump-imessages/iphone-dataprotection/python_scripts/nand/vsvfl.py:165-177 | a block whose bit is set is found at itself; one whose bit is clear at the pool block of the first entry that names it, bank after bank from the pool's start, and at itself when none does |
| Vsvfl.PageToPhysical | dump-imessages/iphone-dataprotection/python_scripts/nand/vsvfl.py:179-188 | the chip is the page number modulo all banks modulo the chips; the page in the block is the place in the super block divided by the banks; the block is that of bank and virtual block, remapped by the first entry that names it, and banks begin at multiples of their address space |
| Vsvfl.TranslationInjective | dump-imessages/iphone-dataprotection/python_scripts/nand/vsvfl.py:179-188 | no two usable virtual pages share a physical page, whatever blocks are bad |
| Vsvfl.PoolApart | dump-imessages/iphone-dataprotection/python_scripts/nand/vsvfl.py:165-177 | different pool entries stand for different blocks, none of them a user block |
| Vsvfl.NextPowerOfTwo | dump-imessages/iphone-dataprotection/python_scripts/nand/structs.py:8-12 | the smallest power of two not below a number |
| Yaftl.Restore | dump-imessages/iphone-dataprotection/python_scripts/nand/yaftl.py:126-171 | newest block first, first entry wins: the map is the replay of all page writes oldest first; so each logical page is mapped to a page that holds it, and every other page that holds it is in a block with a smaller sequence number, or further down in the same block |
| Yaftl.MapsToNewest | dump-imessages/iphone-dataprotection/python_scripts/nand/yaftl.py:126-171 | each logical page maps to the page with the highest sequence number and, in its block, the highest place |
| Yaftl.ReadBtocPages | dump-imessages/iphone-dataprotection/python_scripts/nand/yaftl.py:113-124 | the table of contents with 0xFFFFFFFF for out-of-range entries, none when a page cannot be read |
| Yaftl.TocAgrees | dump-imessages/iphone-dataprotection/python_scripts/nand/yaftl.py:113-171 | both ways of reading a block build the same map on all logical pages in range when the tables match the spare areas |
| Yaftl.InvalidMapped | dump-imessages/iphone-dataprotection/python_scripts/nand/yaftl.py:113-171 | the invalid page number is in the map if and only if a table entry of a block is out of range or a page read by its spare area has that number |
| Yaftl.TocSameMap | dump-imessages/iphone-dataprotection/python_scripts/nand/yaftl.py:113-171 | with matching tables both ways build the same map if and only if every page they differ on is overwritten later in both |
| Yaftl.InvalidExample | dump-imessages/iphone-dataprotection/python_scripts/nand/yaftl.py:113-171 | a device with a matching table on which the two maps differ |
| Yaftl.BlockLpnToVpn | dump-imessages/iphone-dataprotection/python_scripts/nand/yaftl.py:350-357 | the map of one block up to its first unreadable page: each logical page to the last of these pages that holds it |
| Yaftl.WholeBlock | dump-imessages/iphone-dataprotection/python_scripts/nand/yaftl.py:350-357 | for a readable block that is what the page scan of the restore adds |
| Yaftl.Index.Translate | dump-imessages/iphone-dataprotection/python_scripts/nand/yaftl.py:233-253 | the cached lookup returns what the index pages say read afresh, entry by entry, and the cache keeps saying so |
| SBox.Undone | dump-imessages/iphone-dataprotection/ramdisk_tools/bsdcrypto/rijndael.c:36-48 | the tables Te4 and Td4 undo each other |
| SBox.TableMeaning | dump-imessages/iphone-dataprotection/ramdisk_tools/bsdcrypto/rijndael.c:36-48 | the table is the affine image of the inverse in GF(2^8) (section 5.1.1 of FIPS 197) |
| Rijndael.CipherUndone | dump-imessages/iphone-dataprotection/ramdisk_tools/bsdcrypto/rijndael.c:943-1220 | the inverse cipher inverts the cipher on both sides for every schedule, round count and block |
| Rijndael.EquivalentInverse | dump-imessages/iphone-dataprotection/ramdisk_tools/bsdcrypto/rijndael.c:812-852 | reversing the round keys and mixing the inner ones makes the equivalent inverse cipher the inverse cipher (section 5.3.5 of FIPS 197) |
| RijndaelCode.RoundByTable | dump-imessages/iphone-dataprotection/ramdisk_tools/bsdcrypto/rijndael.c:943-1036 | the four table expressions of a round are substitution, row shift, column mixing and key addition |
| RijndaelCode.RconTable | dump-imessages/iphone-dataprotection/ramdisk_tools/bsdcrypto/rijndael.c:725-809 | the round constants are the powers of x |
| RijndaelCode.KeySetupEnc | dump-imessages/iphone-dataprotection/ramdisk_tools/bsdcrypto/rijndael.c:725-809 | for 128, 192 and 256 bits the first words are the bytes of the key in order, the first round key is its first 16 bytes, and every further word follows byte by byte as section 5.2 of FIPS 197 says, 44, 52 or 60 words; 0 for other sizes |
| RijndaelCode.KeySetupDec | dump-imessages/iphone-dataprotection/ramdisk_tools/bsdcrypto/rijndael.c:812-852 | the schedule of the equivalent inverse cipher, reversed and mixed in place |
| RijndaelCode.Encrypt | dump-imessages/iphone-dataprotection/ramdisk_tools/bsdcrypto/rijndael.c:855-1036 | the loop of double rounds is the cipher: the block with the first four words added, nr - 1 rounds with the next words in order, and a last one without mixing |
| RijndaelCode.StepsOnBytes | dump-imessages/iphone-dataprotection/ramdisk_tools/bsdcrypto/rijndael.c:943-1036 | what the four steps do to the sixteen bytes of a block: table, row shift as a permutation of places, columns times 3 x^3 + x^2 + x + 2 in GF(2^8), exclusive or |
| RijndaelCode.Decrypt | dump-imessages/iphone-dataprotection/ramdisk_tools/bsdcrypto/rijndael.c:1039-1220 | the loop is the equivalent inverse cipher |
| RijndaelCode.Context.SetKey | dump-imessages/iphone-dataprotection/ramdisk_tools/bsdcrypto/rijndael.c:1240-1255 | both schedules of one key |
| RijndaelCode.Context.DecryptBlock | dump-imessages/iphone-dataprotection/ramdisk_tools/bsdcrypto/rijndael.c:1257-1261 | decryption yields the one block that encrypts to its input |
| RijndaelCode.OnlyPreimage | dump-imessages/iphone-dataprotection/ramdisk_tools/bsdcrypto/rijndael.c:1257-1266 | for every schedule and round count each block has exactly one preimage, the one decryption returns |
| Gcm.RightShift | dump-imessages/iphone-dataprotection/python_scripts/crypto/gcm.py:7-13 | every bit of the block moves up by one place, and a zero comes in |
| Gcm.GfMult | dump-imessages/iphone-dataprotection/python_scripts/crypto/gcm.py:15-28 | the byte-shift loop is the product of the field, coefficient by coefficient |
| GcmField.Bilinear | dump-imessages/iphone-dataprotection/python_scripts/crypto/gcm.py:15-28 | the product is linear in each factor |
| GcmField.Unit | dump-imessages/iphone-dataprotection/python_scripts/crypto/gcm.py:15-28 | the block 0x80 00 ... 00 is the unit |
| GcmField.Commutes | dump-imessages/iphone-dataprotection/python_scripts/crypto/gcm.py:15-28 | it is commutative |
| GcmField.Associates | dump-imessages/iphone-dataprotection/python_scripts/crypto/gcm.py:15-28 | it is associative |
| GcmField.Monomials | dump-imessages/iphone-dataprotection/python_scripts/crypto/gcm.py:15-28 | monomials multiply by adding exponents |
| GcmField.Reduction | dump-imessages/iphone-dataprotection/python_scripts/crypto/gcm.py:15-28 | x^128 is 1 + x + x^2 + x^7 (section 6.3 of NIST SP 800-38D) |
| Gcm.Ghash | dump-imessages/iphone-dataprotection/python_scripts/crypto/gcm.py:30-45 | fails exactly when a length in bits does not fit eight bytes; else the polynomial at h whose coefficients are the authenticated data and the text, each filled up with zeros, and the two lengths in bits, that of the authenticated data first |
| Gcm.HashIsPolynomial | dump-imessages/iphone-dataprotection/python_scripts/crypto/gcm.py:30-45 | hashing evaluates the polynomial of the blocks at h |
| Gcm.Gctr | dump-imessages/iphone-dataprotection/python_scripts/crypto/gcm.py:52-66 | byte i is masked with byte i modulo 16 of the cipher of the start block plus i / 16 + 1; exactly when the counter runs out |
| Gcm.MaskedTwice | dump-imessages/iphone-dataprotection/python_scripts/crypto/gcm.py:52-66 | masking twice is the identity, for every length |
| Gcm.MaskedFails | dump-imessages/iphone-dataprotection/python_scripts/crypto/gcm.py:47-66 | counter mode fails exactly when the text has more blocks than counter values are left |
| Gcm.GcmEncrypt | dump-imessages/iphone-dataprotection/python_scripts/crypto/gcm.py:87-101 | the first counter block is the nonce with the number 1 or the hash of the nonce, the text is in counter mode from there, and the tag is the hash masked with the cipher of the first block; with a nonce of twelve bytes it fails exactly for more than 2^32 - 2 blocks of text or too much authenticated data |
| Gcm.GcmDecrypt | dump-imessages/iphone-dataprotection/python_scripts/crypto/gcm.py:68-85 | the text of counter mode when the tag is the one of text and authenticated data, and rejection when it is another |
| Gcm.OpenSeal | dump-imessages/iphone-dataprotection/python_scripts/crypto/gcm.py:68-101 | decryption accepts a text and tag if and only if encryption produced them, and returns what went in |
| KeyWrap.Wrap | dump-imessages/iphone-dataprotection/ramdisk_tools/bsdcrypto/key_wrap.c:52-83 | the in-place counter form, ranges overlapping or not: step t of six times n encrypts the check word with register (t - 1) modulo n and adds t, from the check word of 0xa6 bytes on |
| KeyWrap.OneWord | dump-imessages/iphone-dataprotection/ramdisk_tools/bsdcrypto/key_wrap.c:52-83 | a word is wrapped in six encryptions marked 1 to 6 |
| KeyWrap.MarkIs | dump-imessages/iphone-dataprotection/ramdisk_tools/bsdcrypto/key_wrap.c:72-73 | the mark of a counter is linear in the word, and on zero it is the counter as eight bytes, most significant first |
| KeyWrap.Unwrap | dump-imessages/iphone-dataprotection/ramdisk_tools/bsdcrypto/key_wrap.c:85-119 | the registers and check word of the same steps undone from the last (WrapUnwrap), failing exactly on a wrong check word |
| KeyWrap.AesWrap | dump-imessages/iphone-dataprotection/python_scripts/crypto/aeswrap.py:40-54 | the Python form over byte strings runs the same steps on the whole words of the string |
| KeyWrap.WordsAt | dump-imessages/iphone-dataprotection/python_scripts/crypto/aeswrap.py:9-10 | word i of a string holds its bytes 8 i to 8 i + 7, and there are as many words as whole groups of eight |
| KeyWrap.PackedAt | dump-imessages/iphone-dataprotection/python_scripts/crypto/aeswrap.py:11-12 | packing puts the bytes of word i at 8 i |
| KeyWrap.AesUnwrap | dump-imessages/iphone-dataprotection/python_scripts/crypto/aeswrap.py:14-38 | likewise, with its error cases |
| KeyWrap.WrapUnwrap | dump-imessages/iphone-dataprotection/ramdisk_tools/bsdcrypto/key_wrap.c:52-119 | unwrapping yields the check word and the words p for exactly one input, the wrapped form of p, for any block permutation and any n >= 1 |
| KeyWrap.WrapThenUnwrap | dump-imessages/iphone-dataprotection/python_scripts/crypto/aeswrap.py:14-54 | a wrapped string unwraps to itself exactly when its length is a multiple of eight |
| KeyWrap.UnwrapThenWrap | dump-imessages/iphone-dataprotection/python_scripts/crypto/aeswrap.py:14-54 | what unwraps wraps to the same string again, up to a dropped tail |
| KeyWrapAes.AesWrapUnwrap | dump-imessages/iphone-dataprotection/ramdisk_tools/bsdcrypto/key_wrap.c:40-119 | under one Rijndael key context unwrapping accepts exactly what wrapping produces |
| KeyWrapAes.BlockBytes | dump-imessages/iphone-dataprotection/ramdisk_tools/bsdcrypto/key_wrap.c:64-76 | the two words of a block are its sixteen bytes as the cipher takes and returns them |
| Kdf.Derivation | dump-imessages/iphone-dataprotection/ramdisk_tools/AppleKeyStore_kdf.c:36-81 | from version 2 on, and in one batch before, word j of the result is word j of the data with column j of as many encrypted copies as iterations, copy k masked with k + 1 and all copies in one CBC chain from zeros, whatever the batch size; version 1 is its own batch-wise definition |
| Kdf.LegacyBatch | dump-imessages/iphone-dataprotection/ramdisk_tools/AppleKeyStore_kdf.c:52-79 | a batch of version 1 masks the key so far from 1 on, adds the columns of the batch and goes on from its last cipher block |
| Kdf.KeyIs | dump-imessages/iphone-dataprotection/ramdisk_tools/AppleKeyStore_kdf.c:97-103 | the mask word of a counter has the bytes of the counter modulo 2^32, most significant first |
| Kdf.XorExpand | dump-imessages/iphone-dataprotection/ramdisk_tools/AppleKeyStore_kdf.c:90-107 | word k is word k modulo the length of the input with the counter k divided by the length added |
| Kdf.XorCompress | dump-imessages/iphone-dataprotection/ramdisk_tools/AppleKeyStore_kdf.c:109-117 | adds to word j of the output column j of the buffer |
| Kdf.FoldGoesOn | dump-imessages/iphone-dataprotection/ramdisk_tools/AppleKeyStore_kdf.c:50-79 | folding in two parts, with chained iv and counter, is folding in one go |
| Sha1.Context.Update | dump-imessages/iphone-dataprotection/ramdisk_tools/bsdcrypto/sha1.c:123-145 | any cut of the message leaves the context of the whole message so far |
| Sha1.Context.Final | dump-imessages/iphone-dataprotection/ramdisk_tools/bsdcrypto/sha1.c:147-167 | the five words of the digest, most significant byte first, are the state after the blocks of the message, a one bit, the fewest zeros and the context's bit count, from the initial state of FIPS 180-4 |
| Sha1.HashParts | dump-imessages/iphone-dataprotection/ramdisk_tools/bsdcrypto/sha1.c:108-167 | hashing in any parts gives the digest under the context's count, which is that of the whole message with its own length behind (section 5.1.1 of FIPS 180-4) whenever the count is right, so for parts shorter than 2^29 bytes |
| Sha1.ShaMeans | dump-imessages/iphone-dataprotection/ramdisk_tools/bsdcrypto/sha1.c:147-167 | the hash of a message is the digest of its padded blocks |
| Sha1.CountRight | dump-imessages/iphone-dataprotection/ramdisk_tools/bsdcrypto/sha1.c:130-134 | for any list of updates the bit count is the message length in bits modulo 2^64 if and only if the lengths, each divided by 2^29, add up to a multiple of 2^32 |
| Sha1.OneCount | dump-imessages/iphone-dataprotection/ramdisk_tools/bsdcrypto/sha1.c:130-134 | a single update counts right if and only if it is shorter than 2^29 bytes |
| Pbkdf2.HmacSha1 | dump-imessages/iphone-dataprotection/ramdisk_tools/bsdcrypto/pbkdf2.c:36-72 | HMAC of RFC 2104 over SHA-1, pad bytes 0x36 and 0x5c, long keys hashed first |
| Pbkdf2.KeyStream.ReadBytes | dump-imessages/iphone-dataprotection/python_scripts/crypto/PBKDF2.py:125-145 | the next n bytes of the stream, the rest kept; refused when closed or out of blocks |
| Pbkdf2.KeyStream.F | dump-imessages/iphone-dataprotection/python_scripts/crypto/PBKDF2.py:147-155 | the running exclusive or of the iterations, the first of the salt with the block number as four bytes, each further one of the one before |
| Pbkdf2.StreamBlock | dump-imessages/iphone-dataprotection/python_scripts/crypto/PBKDF2.py:125-155 | block b of the stream, at 20 (b - 1), is the exclusive or of the iterations for block number b |
| Pbkdf2.ReadPieces | dump-imessages/iphone-dataprotection/python_scripts/crypto/PBKDF2.py:125-145 | reading in any pieces gives the pieces of one long read |
| Pbkdf2.Pkcs5Pbkdf2 | dump-imessages/iphone-dataprotection/ramdisk_tools/bsdcrypto/pbkdf2.c:78-124 | the first keyLen bytes of that stream (section 5.2 of RFC 2898), nothing else touched; exactly when it fails |
| Pbkdf2.OneRead | dump-imessages/iphone-dataprotection/python_scripts/crypto/PBKDF2.py:125-145 | one read of a fresh stream is its first keyLen bytes, refused exactly beyond 2^32 - 1 blocks |
| Pbkdf2.BothAgree | dump-imessages/iphone-dataprotection/ramdisk_tools/bsdcrypto/pbkdf2.c:78-124 | on one input the C function writes what one read of the Python object returns |
| Lzss.DecodeBody | dump-imessages/iphone-dataprotection/python_scripts/util/lzss.py:43-70 | the ring-buffer decoder is LZ77 over unbounded history, overlapping copies included; it overflows exactly when the output is longer than announced |
| Lzss.Decompress | dump-imessages/iphone-dataprotection/python_scripts/util/lzss.py:29-70 | no magic, or the body from 0x180 with the output size at 12, most significant byte first |
| Lzss.CopyFields | dump-imessages/iphone-dataprotection/python_scripts/util/lzss.py:63-65 | twelve bits of position and four of length in the two bytes of a copy |
| Lzss.FourLetters | dump-imessages/iphone-dataprotection/python_scripts/util/lzss.py:43-70 | a letter and a copy of three from where the ring starts give four letters |
| Lzss.FlagWord | dump-imessages/iphone-dataprotection/python_scripts/util/lzss.py:46-50 | the word reloads after exactly eight tokens, and bit k decides token k |
| Lzss.RingRead | dump-imessages/iphone-dataprotection/python_scripts/util/lzss.py:60-66 | a ring position holds the byte that far back |
| Lzss.BackSame | dump-imessages/iphone-dataprotection/python_scripts/util/lzss.py:60-66 | source and target move together, so the distance of a copy stays the same |

## Left out

- BTree.BTree.AddRecord: keys are of one fixed size, as in the extents tree, and every node holds at least two records. With them the retry of `btree.c:1155-1159` cannot arise; with variable-length keys it can stop at an index key that is already rewritten.
- BTree.BTree.AddToBTree: uses the header map record only, since the code mis-indexes further map nodes (`btree.c:703`, `748`, `773`, `869-871`). The tree can therefore grow only as far as that record reaches, and insertion asks for one allocatable node more than there are levels, also where fewer nodes split or the key is there. Nodes of 32 KB from number 131072 on, whose positions wrap at 32 bits, are not covered.
- BTree.BTree.GrowBTree: appends free nodes that fit the header map record; that the tree's file is itself stored in extents, and that this can fail, is not modelled.
- BTree.BTree.RemoveFromBTree: a key beyond the end of the leaf it belongs to is not covered; the code's scan does not stop there (`btree.c:1457-1458`).
- BTree.BTree.RemoveRecord: the same.
- BTree.BTree.Search: an empty tree is not covered; the code would read the header node as a tree node. The same holds for listing a folder.
- Nodes are typed values in `BTree` and bytes in `Page`; `PageNodes` connects one node at a time, not a whole run.
- Byte-order changes, malloc and free, dates, permissions, attributes of files, path resolution and links. Records are typed values, memory is managed, and the catalog operations start from resolved keys.
- `debugBTree` and the printing of trees.
- RawFile.File.Allocate: the last block of the volume is taken to be used, as TN1150 reserves it; without that, wrapping at `rawfile.c:99-101` would join blocks that are not neighbours.
- RawFile.File.Grow: the same.
- RawFile.File.Write: the end of the write lies below 2^32 blocks, where the code's block count ends (`RawFile.File.Allocate` says what happens there).
- ExtentRecords.WriteExtents: models the records of one file in a tree of its own; a block count that passes the total ends removal, where the code's counter wraps.
- ExtentRecords.ReadExtents: the same for reading.
- Catalog.Volume.Move: under the empty name, which is a thread's, a record that lies in itself is not moved and none is moved into itself; there the code writes a record over a thread, or loses it (`UnnamedMove`), and then reads a record as a thread. A folder may be moved below itself, which cuts the subtree off from the root; the invariant does not speak of reachability. The folderCount of folder records is kept as written (a move leaves it alone) and not related to the children.
- Catalog.MoveExactly: the same for records under the empty name.
- Catalog.Volume.RemoveFile: the file's blocks and extended attributes are not part of this model.
- FolderContents.GetFolderContents: hard links are listed as they stand; a folder with children but no thread record, which `Catalog` excludes, is not covered.
- UnicodeCompare.FastUnicodeCompare: the case table is a parameter of the shape the code relies on; its contents are not part of this model.
- HfsCompress.Compressed.Write: leaves no gap behind the old end (the code would leave the gap undefined) and keeps the file below 4 GB, where the code's 32-bit cache bounds end.
- HfsCompress.Compressed.Close: a changed file has at least one byte, since for an empty one the fork is never opened (`hfscompress.c:139-175`), and every position in the fork fits 32 bits. zlib is a pair of inverse functions with the bound the code's buffer assumes. The fork is a byte string that writes may lengthen, as `RawFile` provides below 4 GB.
- Vsvfl.BuildTable: map entries between the block count and 0xFFF0, for which the code prints a message and goes on with a stale value, are excluded, and all chips have pools that start at one place.
- Reading flash pages, choosing contexts and checksums: the contexts and readable pages are parameters.
- Yaftl.Index.Translate: a page that reads is an index page of full length.
- Kdf.Derivation: the accelerator's CBC call is a block cipher applied in CBC mode that succeeds, and the data length divides the 4096-byte buffer.
- Catalog ids, counts and valences are unbounded; their 32-bit ends are not part of this model.
- Sha1.Context.Update: one update is at most 2^32 - 64 bytes. SHA1Transform is a parameter, as is the block cipher of GCM, key wrap and the derivation; `KeyWrapAes` supplies Rijndael.
- Pbkdf2.HmacSha1: texts and keys are shorter than 2^29 bytes, where the bit count is right (`Sha1.OneCount`).
- Pbkdf2.Pkcs5Pbkdf2: the same for password and salt.
- KeyWrap.Wrap: buffers overlap at multiples of eight bytes.
- KeyWrap.Unwrap: the same.
- `base64.c`: a round trip of four characters against three bytes that would add only easy members.
- `curve25519.py`, `nand/vfl.py`, keychain, plist, certificate and backup extraction, shells, sockets, kernel patching and the scrapers of the repository.
