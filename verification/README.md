# Verified models of the ZFS command-line tools

This project models the decision-making code of the ZFS userland tools (`zdb`, `zpool`, `zfs`,
`zstreamdump`, `zinject`, `zpios`) and of the library and kernel routines they lean on, and proves
what that code is for. Code that updates counters, trees and registers is a class or a method with
loops, proved against a specification function; what the tool promises is then proved of that
function for every input, every run or every reachable state. `dafny verify dfyconfig.toml`
checks everything.

| part | files |
|---|---|
| zdb's space maps | `SpaceMapLog`, `SpaceMaps` |
| zdb's leak check | `PoolSpace`, `LeakCheck`, `LeakComplete`, `LeakPool`, `LeakHidden`, `BlockStats`, `ZdbChecker` |
| zdb's indirect walk, and the ranges zinject derives from it | `Indirect` |
| zdb's simulated dedup table | `SimDdt` |
| zpool's vdev specifications and replication check | `VdevSpec`, `VdevSpecLaws`, `VdevSpecExact`, `Replication` |
| zstreamdump | `SendStream`, `SendRecords`, `SendStreamLaws` |
| zfs destroy | `Datasets`, `DependentChains`, `Destroy`, `DestroyExample`, `Reclaim` |
| zfs allow | `Delegation`, `DelegationLaws` |
| zfs list and its kin | `Strings`, `OrderedTree`, `DatasetOrder`, `ForEach` |
| zfs unmount -a | `OrderedTree`, `Unmount` |
| zpios | `ZpiosRange`, `Zpios` |
| shared arithmetic and sequence facts | `Arith`, `Base` |

## Choices

- An abort (a failed `VERIFY` or `ASSERT`, `zfs_panic_recover` with `zfs_recover` at its default of
  0, a usage error) is a `None`, an `Aborted` or a false result after which nothing more is done, never
  a precondition.
- Space maps count in sectors of `1 << sm_shift` bytes, so the alignment checks on offsets and sizes
  have no counterpart; `dump_spacemap`'s counter is in bytes and wraps at 64 bits. The comment in
  `include/sys/space_map.h` draws the offset field at bit 15; the model follows the macros, which put
  it at bit 16 with the type in bit 15. The segments of a map are written in an arbitrary order, since
  `avl_destroy_nodes` does not go by address.
- `zio_claim` is modelled by `metaslab_claim`: transaction 0 only looks, any other takes the space.
  A block is a list of copies; the maps are sets of bytes tagged with vdev and metaslab, so a copy on
  a vdev or metaslab that does not exist is one whose bytes are in no map.
- An AVL tree is the ordered sequence, list or map of what it holds. Where a comparator is not a
  total order (`zfs_sort`), it is proved that every search ends at the same place.
- A pool's names, children, snapshots and clones are a fixed world in which datasets can only cease
  to exist; the kernel refuses to destroy what something still depends on, and a set of busy
  datasets stands for every other reason to refuse.
- Device names, users and groups, `stat`, property values and the outcome of kernel calls are
  parameters, arbitrary functions or sets.
- `zstreamdump` runs without options on a little-endian host.
- What is promised is said of the fields of the data and not of the functions the code computes with:
  the slot of a dedup entry by first copy and birth, a vdev's level by its type, children and parity, a
  record by the layout of its fields, a sort order by the values in its columns.

What the code does not do as described:

- The verdict "No leaks" can be given with space leaked, because a dedup entry recognises a block by
  its first copy and birth time alone (`LeakHidden.VerdictCanBeWrong`). It is right if and only if the
  sizes of the references that only look add up to those of their slots, which the dedup table as
  loaded and the list of blocks decide beforehand (`LeakCheck.VerdictRightIff`); this is so in particular
  if every shared block has the size of its slot (`LeakCheck.VerdictExact`).
- The replication check lets everything through once a group of the pool itself looks unsound
  (`Replication.ProtectedIffSound`). A group that mixes files and disks is
  reported for it exactly if some child of known size is followed by one of the other kind
  (`Replication.HarmoniousExactly`). So a group that passes is sure to be of one kind exactly if its
  first child could be sized, there is no second, or the sizes clash and nothing passes
  (`Replication.OneKindGuaranteed`); a file of unknown size before a disk passes
  (`Replication.MixedGroupPasses`).
- `zfs_compare` puts either of two handles of one filesystem before the other, so a filesystem gathered
  twice is shown twice (`DatasetOrder.DatasetAdded`), while of two snapshots of one dataset with the same
  creation transaction that no sort column tells apart one is dropped (`DatasetOrder.DroppedExactly`).
  Everything asked for is shown once exactly when neither happens (`ForEach.ShownExactly`).
- The block range for faults in the last dnode of a block takes in the next block
  (`Indirect.DnodeRangeSpills`).
- A zpios range of steps need not end, even if its lowest value and its step are positive: the product is
  worked out in 64 bits (`ZpiosRange.NoEndDespiteSteps`). `ZpiosRange.EndsExactly` says for every range
  whether it does; where nothing can wrap, it ends exactly when its lowest value exceeds its highest or
  lowest value and step are positive (`ZpiosRange.RoomyEnds`).

## Model

| member | source | states |
|---|---|---|
| SpaceMapLog.Encode | include/sys/space_map.h:104-125 | each field decodes to what was encoded, so no field runs into another |
| SpaceMapLog.EncodeEntry | module/zfs/space_map.c:433-459 | every entry whose fields fit has a word that decodes to it: a run with its type, a debug word with its action, pass and transaction |
| SpaceMapLog.AllocatedExactly | module/zfs/space_map.c:304-331 | a log replays exactly when every entry lies in the map and turns over each sector it covers, and then to the sectors whose last entry allocates them |
| SpaceMapLog.DumpSpaceMap | cmd/zdb/zdb.c:495-542 | for a log that replays cleanly the 64-bit counter equals the bytes allocated after every entry, so it never wraps, and INCONSISTENT is printed exactly when the summary differs |
| SpaceMaps.SpaceMap.constructor | module/zfs/space_map.c:54-70 | a new map is empty and in order |
| SpaceMaps.SpaceMap.Contains | module/zfs/space_map.c:207-224 | true exactly when every sector of the range is in the set |
| SpaceMaps.SpaceMap.Add | module/zfs/space_map.c:81-147 | the set gains exactly the range, merged with what it touches so that segments stay maximal; refused, with nothing changed, exactly when the range is empty, outside the map or already partly there |
| SpaceMaps.SpaceMap.Remove | module/zfs/space_map.c:149-205 | the set loses exactly the range; refused exactly when the range is empty or not wholly there |
| SpaceMaps.SpaceMap.Load | module/zfs/space_map.c:271-351 | succeeds exactly when every entry applies and the total matches the summary; the map is then the replayed set, or its complement for a map of free space |
| SpaceMaps.SpaceMap.Sync | module/zfs/space_map.c:402-479 | the map is emptied into the log, its segments in some order after a debug word, and the summary moved by its size; a sound log that can take the contents stays loadable, replays to the old set with them added or taken away, and the summary stays its size |
| SpaceMaps.InsertIsUnion | module/zfs/space_map.c:111-146 | inserting a range that overlaps nothing gives the union, in maximal segments |
| SpaceMaps.CutIsDifference | module/zfs/space_map.c:177-204 | cutting a covered range gives the difference |
| SpaceMaps.FindCovering | module/zfs/space_map.c:207-224 | a range lies in the set exactly when the one segment found covers it |
| SpaceMaps.LoadIsReplay | module/zfs/space_map.c:304-331 | loading any log, as allocated or as free space, fails exactly when replay fails and otherwise holds the replayed set or its complement |
| SpaceMaps.LoadBothWays | module/zfs/space_map.c:271-351 | the two loads of one log split the space between them or both fail |
| SpaceMaps.SegsAppend | module/zfs/space_map.c:438-463 | the runs written for any list of segments that do not overlap, cut at the maximal run length, replay to exactly those sectors added or removed |
| SpaceMaps.AnyOrder | module/avl/avl.c:916-1000 | in whatever order the segments of a map are taken, they do not overlap and are together the map |
| SpaceMaps.SyncAppends | module/zfs/space_map.c:402-479 | whatever the order, the log written replays to the old set with the map added or taken away |
| SpaceMaps.SoundLoads | module/zfs/space_map.c:333-334 | after any appends both loads meet the check on the summary |
| PoolSpace.ClaimExact | module/zfs/metaslab.c:1566-1703 | a claim takes exactly the bytes of all copies, or fails: exactly when a byte is no longer in the maps or two copies overlap |
| LeakCheck.SelectExact | module/zfs/ddt.c:340-352 | the slot selected is the first of ditto, single, double and triple with the block's first copy and birth, and none exactly when none has both |
| LeakCheck.CountUnshared | cmd/zdb/zdb.c:1984-2006 | a block without an entry is counted exactly when its copies are there and do not overlap, and then takes them |
| LeakCheck.CountShared | cmd/zdb/zdb.c:1984-2006 | a block that is one of a slot's is counted exactly when the slot has a reference left and its copies are there; the slot loses one reference, the entry goes with its last, and only the last reference of a slot takes the space |
| LeakCheck.CountUnknown | cmd/zdb/zdb.c:1994-1997 | a block whose entry has no slot for it aborts the run |
| LeakCheck.FreshExact | cmd/zdb/zdb.c:1967-1968 | the blocks counted are those visited, without an intent-log block whose log and first copy were met before |
| LeakCheck.DecrefExcess | module/zfs/ddt.c:323-364 | dropping a reference lowers what the table owes by one block, unless it was the last |
| LeakCheck.CountBalance | cmd/zdb/zdb.c:1958-2007 | counting a block keeps byte sum, unclaimed space and outstanding references in balance up to the size mismatch |
| LeakCheck.InitBalance | cmd/zdb/zdb.c:2117-2156 | preloading the dedup table keeps the balance |
| LeakCheck.Conservation | cmd/zdb/zdb.c:1958-2186 | over every run, bytes found less dedup credit equal allocated less unclaimed space, less (m - 1) blocks for every slot with m references outstanding, plus what every reference but the last of a slot is larger than the slot |
| LeakCheck.VerdictExact | cmd/zdb/zdb.c:2240-2306 | if shared blocks have the size of their slots, "No leaks" is given exactly when the maps are empty and no slot is owed more than one reference |
| LeakCheck.VerdictRightIff | cmd/zdb/zdb.c:2240-2306 | for any blocks, a verdict of "No leaks" is right exactly when the differences in size between references and their slots, the last reference of each slot left out, add up to nothing; table and blocks decide that before the run |
| LeakComplete.MatchingRun | cmd/zdb/zdb.c:1958-2007 | blocks that are exactly what maps and counts expect are all counted without an abort, leaving nothing |
| LeakCheck.RunCountsFresh | cmd/zdb/zdb.c:1967-1968 | an intent-log block met again changes nothing |
| LeakPool.MatchingPoolPasses | cmd/zdb/zdb.c:2117-2306 | if ditto copies, shared slots and unshared blocks make up the allocated space without overlap, and every slot has as many references as it says, told by first copy and birth, preload and traversal end without an abort and the verdict is "No leaks" |
| LeakPool.PoolMatchesAnyOrder | cmd/zdb/zdb.c:2251-2268 | that a pool matches does not depend on the order of its blocks |
| LeakPool.AnyOrderPasses | cmd/zdb/zdb.c:2117-2306 | a matching pool gets the verdict in any order of visits, if visits of one intent-log block agree on the block |
| LeakHidden.VerdictCanBeWrong | module/zfs/ddt.c:340-352 | a concrete pool with a leaked byte that gets "No leaks" |
| BlockStats.RowsAddUp | cmd/zdb/zdb.c:1970-1979 | in every level row the total cell is the sum over the types |
| BlockStats.ColumnsAddUp | cmd/zdb/zdb.c:1970-1979 | in every type column the total cell is the sum over the levels |
| BlockStats.TallyExact | cmd/zdb/zdb.c:1970-1979 | each of the four figures of a cell is that figure added up over the blocks of its level and type |
| ZdbChecker.Checker.constructor | cmd/zdb/zdb.c:2158-2178 | the check starts with the loaded maps and everything else zero |
| ZdbChecker.Checker.AddStats | cmd/zdb/zdb.c:1970-1979 | every cell of the table is the tally of all blocks counted, the new one included |
| ZdbChecker.Checker.Claim | module/zfs/metaslab.c:1674-1703 | looks at every copy, then takes each, as the specified claim does |
| ZdbChecker.Checker.CountBlock | cmd/zdb/zdb.c:1958-2007 | one step of the specified run, which LeakCheck.CountUnshared, CountShared and CountUnknown spell out; with leak checking off only the statistics change |
| ZdbChecker.Checker.Preload | cmd/zdb/zdb.c:2117-2156 | the specified preload, up to the first unique entry, and as many shared blocks counted as slots are in use |
| ZdbChecker.Checker.CountAll | cmd/zdb/zdb.c:2251-2268 | the specified run over all visits |
| ZdbChecker.DumpBlockStats | cmd/zdb/zdb.c:2223-2408 | with and without -L, status 2 exactly without the verdict or without a block counted, else 3 exactly after a read error, else 0; an abort exactly when the specified check aborts, and never with -L |
| ZdbChecker.SkippedVerdict | cmd/zdb/zdb.c:2117-2306 | with -L the verdict is given exactly when the total is the ditto copies and every block counted once, less all but one reference of every slot |
| Indirect.VisitIndirect | cmd/zdb/zdb.c:977-1021 | prints the specified walk and ends as it does: done, on a read error, or in an abort on a fill count that does not add up |
| Indirect.DumpIndirect | cmd/zdb/zdb.c:1024-1042 | prints the walks of the top pointers one after the other, up to and including the first that aborts; a read error ends only its own walk |
| Indirect.WalkTiles | cmd/zdb/zdb.c:977-1021 | every block visited lies under its starting block, and at each level block numbers go up |
| Indirect.WalkExact | cmd/zdb/zdb.c:977-1021 | whatever is printed is a block, not a hole, that some way leads down to, with the level and number of that way; if the walk is done every such block is printed |
| Indirect.DoneExactly | cmd/zdb/zdb.c:985-1018 | the walk is done exactly when every indirect block below can be read and counts what its pointers count |
| Indirect.ChildOffset | cmd/zdb/zdb.c:905-1007 | children start at the parent's offset plus i times the child span, and together fill the parent |
| Indirect.ObjectTiled | cmd/zdb/zdb.c:905-1042 | at any one level the ranges printed for an object go up and do not overlap |
| Indirect.FillIsLeaves | cmd/zdb/zdb.c:1004-1016 | a walk that ends well has a fill count equal to that of the data blocks below |
| Indirect.CalculateRange | cmd/zinject/translate.c:195-330 | the blocks, at the level asked for, of the range given, of the whole object, or of a dnode in the meta-dnode; an error exactly for a range that cannot be read or is given for a dnode, an object that cannot be held, or a level it does not have |
| Indirect.ByteToBlock | cmd/zinject/translate.c:287-318 | exactly the bytes under a block are translated to that block |
| Indirect.RangeToBlocks | cmd/zinject/translate.c:287-318 | any byte range short of the whole object is translated to exactly the blocks it touches |
| Indirect.DnodeRangeSpills | cmd/zinject/translate.c:241-293 | the range of a dnode, its number being one whose bytes have 64-bit offsets, is its own block, and the next one exactly when it is the last in its block |
| SimDdt.PropReadsBack | include/sys/ddt.h:68-87 | the word in a key gives back both sizes and the compression |
| SimDdt.TreeExact | cmd/zdb/zdb.c:2420-2459 | there is an entry exactly for each key met, with the number of its blocks and that many times the key's sizes |
| SimDdt.AnyOrder | cmd/zdb/zdb.c:2420-2459 | the same blocks met in any order make the same table |
| SimDdt.LineExact | cmd/zdb/zdb.c:2482-2492 | all eight numbers of an entry's line: one block of the sizes its key says, its share of the space on disk, and all blocks with that key and what they take |
| SimDdt.TotalsExact | cmd/zdb/zdb.c:2480-2503 | the references in all are the eligible blocks with their sizes, the blocks in all the distinct keys |
| SimDdt.SumIs | module/zfs/ddt.c:400-449 | each of the eight numbers of a sum is that number added up over the entries of the bucket |
| SimDdt.Highbit | lib/libzpool/kernel.c:1016-1044 | the result h has 2^(h-1) <= i < 2^h |
| SimDdt.Traverse | cmd/zdb/zdb.c:2420-2459 | builds the specified table |
| SimDdt.DumpSimulatedDdt | cmd/zdb/zdb.c:2461-2505 | every bucket b holds exactly the entries with 2^b <= references < 2^(b+1), and the totals are those of the whole table: as many references as eligible blocks, as many blocks as distinct keys |
| VdevSpec.TakeDevices | cmd/zpool/zpool_vdev.c:1288-1300 | takes exactly the devices up to the next keyword, or fails on the first unusable one |
| VdevSpec.ParseOne | cmd/zpool/zpool_vdev.c:1225-1372 | one turn of the loop leaves the parse of the rest unchanged, or the whole is an error |
| VdevSpec.ConstructSpec | cmd/zpool/zpool_vdev.c:1206-1408 | the specified tree, or an error exactly when the specification has none |
| VdevSpecExact.ConstructExactly | cmd/zpool/zpool_vdev.c:1206-1408 | a specification is accepted exactly when every device can be used, every group has the devices it needs, "log", "spare" and "cache" come up once at most, no log is raidz, and there is some device and, after "log", a log device; the tree is then that of its sections |
| VdevSpecExact.GroupingExactly | cmd/zpool/zpool_vdev.c:1143-1198 | the spellings of each keyword: plain "raidz" is parity 1, a parity is 1 to 254 without a leading zero |
| VdevSpecExact.StrtolReads | cmd/zpool/zpool_vdev.c:1152-1163 | a parity is read as the number its digits come to, after white space and a sign |
| VdevSpecExact.StrtolOnly | cmd/zpool/zpool_vdev.c:1152-1163 | and nothing else is read as a number |
| VdevSpecLaws.TokenReadBack | cmd/zpool/zpool_vdev.c:1143-1198 | every legal group keyword is read back as itself |
| VdevSpecLaws.RoundTrip | cmd/zpool/zpool_vdev.c:1143-1408 | every canonical specification, printed as arguments, is parsed back to the same tree |
| VdevSpecLaws.AcceptedLeaves | cmd/zpool/zpool_vdev.c:1206-1408 | in whatever is accepted each argument that is no keyword is exactly one leaf, and every group meets its size bounds and, as a log, is a mirror |
| Replication.ScanChildren | cmd/zpool/zpool_vdev.c:603-722 | finds a fault exactly when a child clashes in kind or size with the last sized one; quiet mode says nothing, reporting mode one message |
| Replication.GetReplication | cmd/zpool/zpool_vdev.c:538-780 | NULL exactly when a data vdev is unsound or two of them differ in type, number of children or raidz parity, in both modes alike; otherwise the type, children and parity all of them have |
| Replication.CheckReplication | cmd/zpool/zpool_vdev.c:788-868 | accepts exactly when the pool is itself inconsistent, there is no data vdev to add, or those to add are sound and agree in type, children and parity with each other and the pool |
| Replication.NumLogs | cmd/zpool/zpool_util.c:66-86 | the number of log vdevs, which is that of all of them exactly when there is no data vdev |
| Replication.AdditionsKeepUniform | cmd/zpool/zpool_vdev.c:788-868 | every run of accepted additions to a uniform pool that looks sound each time keeps type, parity and child count the same |
| Replication.CreatedPoolStaysUniform | cmd/zpool/zpool_vdev.c:1502-1505 | with sizes unchanged, a pool that passed at creation stays uniform through every run of accepted additions |
| Replication.ProtectedIffSound | cmd/zpool/zpool_vdev.c:796-868 | a uniform pool is protected from every bad addition exactly when each data vdev looks sound |
| Replication.HarmoniousExactly | cmd/zpool/zpool_vdev.c:648-722 | a group passes exactly when its known sizes agree and every child of known size has the kind of all that follow it |
| Replication.SizesExactly | cmd/zpool/zpool_vdev.c:690-718 | what must agree are the sizes of two sized children with none in between, to sixteen megabytes |
| Replication.OneKindGuaranteed | cmd/zpool/zpool_vdev.c:648-722 | passing guarantees one kind, whatever the kinds of the devices at these paths, exactly when there is at most one child, the first could be sized, or the sizes clash |
| Replication.MixedGroupPasses | cmd/zpool/zpool_vdev.c:655-722 | a file that cannot be sized before a disk that can is a mixed group that passes |
| SendStream.FletcherConcat | module/zcommon/zfs_fletcher.c:202-246 | the incremental checksum over whole words is a fold: one piece after another is both at once |
| SendStream.FletcherSums | module/zcommon/zfs_fletcher.c:202-246 | the four registers hold the sum of the 32-bit words, the sum of those sums, and so on, in 64 bits |
| SendStream.Dumper.Read | cmd/zstreamdump/zstreamdump.c:62-78 | all of the bytes, checksummed and counted, or none |
| SendStream.Dumper.HandleRecord | cmd/zstreamdump/zstreamdump.c:168-405 | counts the record, compares at an END, reads the payload of the others, and moves the previous checksum on |
| SendStream.Dumper.Sniff | cmd/zstreamdump/zstreamdump.c:131-150 | the byte order is taken from the magic number and the header's checksum redone if swapped; neither order is an error |
| SendStream.ZStreamDump | cmd/zstreamdump/zstreamdump.c:128-406 | ends as specified: the summary, a bad magic number or a bad type |
| SendStreamLaws.OneOrder | cmd/zstreamdump/zstreamdump.c:132-147 | no record carries the magic number in both byte orders |
| SendRecords.DecodeReads | include/sys/zfs_ioctl.h:121-203 | from any record laid out field by field, in either byte order, the reader takes its type, the length of what follows it by its own fields, and the checksum of an END |
| SendRecords.RecordSize | include/sys/zfs_ioctl.h:121-203 | a record is as large as a BEGIN with its name |
| SendStreamLaws.StreamReport | cmd/zstreamdump/zstreamdump.c:128-406 | any stream of laid out records that starts with a BEGIN and its magic number, sent in either order, is read to its end; counts, write total and length are those of what was sent, and each END is compared with the checksum of exactly the bytes since the END before, itself left out |
| SendStreamLaws.SoundStream | cmd/zstreamdump/zstreamdump.c:241-254 | if every END carries the checksum of what was sent before it, no comparison differs |
| SendStreamLaws.TwinStreams | cmd/zstreamdump/zstreamdump.c:151-405 | the same records sent by hosts of the two byte orders give the same counts, write total and length |
| Datasets.SubtreeDepends | cmd/zfs/zfs_main.c:911-912 | everything in the name subtree of a dataset is among its dependents |
| Datasets.BelowExactly | cmd/zfs/zfs_main.c:911-914 | below a name is what goes on from it with a slash or an at sign |
| DependentChains.GoneUnblocked | lib/libzfs/libzfs_iter.c:403-455 | if things went one by one, each after all that depended on it and none of them busy, and nothing is left that depends on a dataset, then no chain of its dependents was circular or led to a busy one |
| DependentChains.ConeSmallest | lib/libzfs/libzfs_iter.c:403-455 | a dataset and its chains of dependents are the smallest set closed under dependence |
| Destroy.Destroyer.CheckDependent | cmd/zfs/zfs_main.c:904-959 | the error is raised once something is complained of: below the target without -r, elsewhere with -r or for a snapshot; a complaint from elsewhere also makes it a dry run |
| Destroy.Destroyer.DestroyCallback | cmd/zfs/zfs_main.c:961-999 | the dataset goes, or a failure is returned exactly when it is busy or something depends on it; pools and dry runs change nothing |
| Destroy.Destroyer.CheckFrom | lib/libzfs/libzfs_iter.c:403-455 | whatever cycles there are, the walk ends, and whatever depends on something seen was seen or is being visited |
| Destroy.Destroyer.DestroyFrom | lib/libzfs/libzfs_iter.c:403-455 | nothing outside the dependents goes; on success none of them is left; it fails only if a chain of dependents comes back to itself or, unless it is a dry run, leads to something that cannot go |
| Destroy.Verdict | cmd/zfs/zfs_main.c:904-959 | the checking walk keeps quiet exactly when nothing stands in the way |
| Destroy.Destroyer.Check | cmd/zfs/zfs_main.c:1279-1293 | the error is raised exactly when, without -r, something is below the target, and with -r, something outside the subtree depends on something inside |
| Destroy.Destroyer.DestroyDataset | cmd/zfs/zfs_main.c:1252-1307 | succeeds exactly when neither -d is given nor a pool without -r, nothing stands in the way or -R is given, and no chain of dependents is circular or, unless it is a dry run, leads to something that cannot go, the target included unless it is a pool; without -r that is exactly if the target can go. On success exactly the target and its dependents are gone; otherwise nothing that is not one of them, and nothing at all in a dry run or when something stands in the way |
| Destroy.NoneToBlock | cmd/zfs/zfs_main.c:1279-1299 | without -r nothing can keep the dependents of a dataset that passes the check |
| Destroy.SubtreeBlocked | cmd/zfs/zfs_main.c:1279-1299 | with -r and nothing outside depending on the subtree, what keeps it is exactly something in it that cannot go or a circular chain |
| DestroyExample.CloneOutside | cmd/zfs/zfs_main.c:930-954 | in a pool with a clone beside the dataset it depends on, the dataset cannot go with -r alone, the pool's contents can |
| DestroyExample.IsValid | lib/libzfs/libzfs_iter.c:38-171 | such a pool is one the proofs speak of |
| DestroyExample.CloneBeside | cmd/zfs/zfs_main.c:930-954 | there is one, with names and all |
| Destroy.SnapshotVerdict | cmd/zfs/zfs_main.c:1069-1075 | checking a snapshot keeps quiet exactly when it has no clone |
| Destroy.ChosenStep | cmd/zfs/zfs_main.c:1085-1109 | the snapshots meant are those picked of a filesystem and, with -r, those meant below it, and no others |
| Destroy.Destroyer.SnapshotToNvl | cmd/zfs/zfs_main.c:1063-1083 | the snapshot is listed, and the error is up exactly when something listed has a clone and neither -R nor -d is given |
| Destroy.Destroyer.Gather | cmd/zfs/zfs_main.c:1085-1109 | exactly the snapshots meant are listed |
| Destroy.Destroyer.DestroyClones | cmd/zfs/zfs_main.c:1111-1138 | fails exactly when a chain of dependents of a listed snapshot is circular or leads to something that cannot go; on success exactly their dependents are gone |
| Destroy.Destroyer.DestroySnapshots | cmd/zfs/zfs_main.c:1188-1251 | succeeds exactly when there is a snapshot meant, none has a clone or -d or -R is given, and, unless it is a dry run, all of them can go and with -R all their dependents; then with -R exactly they and their dependents are gone, without it exactly those that have no clone, the others being left to the kernel; on failure without -R nothing is changed |
| Reclaim.RunsAreThese | cmd/zfs/zfs_main.c:1001-1039 | the runs summed are exactly the maximal contiguous ones |
| Reclaim.Figure.PrintCb | cmd/zfs/zfs_main.c:1001-1039 | a listed snapshot opens or extends the run, any other closes it and adds its space |
| Reclaim.Figure.PrintSnapshots | cmd/zfs/zfs_main.c:1041-1061 | from no open run to no open run; the figure grows by used(first, last) over exactly the maximal runs, and it fails exactly when one of them cannot be worked out |
| Reclaim.Figure.Gather | cmd/zfs/zfs_main.c:1085-1109 | the same over a filesystem and, with -r, all below it, no run being open when one starts |
| Delegation.SplitPerms | cmd/zfs/zfs_main.c:4597-4617 | plain permissions and sets, split at the commas |
| Delegation.StoreAllowPerm | cmd/zfs/zfs_main.c:4536-4676 | the specified pairs, for each locality that applies |
| Delegation.ConstructFsaclList | cmd/zfs/zfs_main.c:4678-4780 | the pairs of all grantees, later ones replacing the same name |
| Delegation.FsPerm.ParseFsPerm | cmd/zfs/zfs_main.c:4143-4240 | the specified table, or failure exactly on a pair it cannot read |
| Delegation.FsPerm.ParseWhoPerm | cmd/zfs/zfs_main.c:4085-4141 | each permission found or added, and its flag for the locality set |
| Delegation.FsPerm.PrintSection | cmd/zfs/zfs_main.c:4828-4900 | each pair with exactly these flags is printed once, and no other |
| DelegationLaws.ParseExact | cmd/zfs/zfs_main.c:4085-4240 | a permission is in the table exactly if some pair gives it, and is local or for descendents exactly if some pair gives it there |
| DelegationLaws.StoreAllExact | cmd/zfs/zfs_main.c:4536-4780 | the list written gives a permission to someone at a locality exactly if the command does |
| DelegationLaws.AllowReadsBack | cmd/zfs/zfs_main.c:3897-4780 | a delegation reads back as one node per grantee, told apart by 127 characters, holding exactly the listed permissions and sets with the flags given |
| DelegationLaws.OneSection | cmd/zfs/zfs_main.c:4828-4932 | what the command gives to a user, a group or everyone belongs in the section for its flags and in no other, and nothing else does |
| DelegationLaws.AllowThenShow | cmd/zfs/zfs_main.c:4536-4932 | what is then printed: every permission given once, in the one section for its flags, and no other line in any of the three |
| DelegationLaws.RevokesExact | cmd/zfs/zfs_main.c:4652-4674 | without permissions the list has, for every grantee and locality, the two names permissions are stored under, and nothing else |
| DelegationLaws.StoredUnder | cmd/zfs/zfs_main.c:4597-4651 | what starts with an at sign is stored under a capital letter, the rest under a small one |
| DelegationLaws.Letters | include/sys/fs/zfs.h:255-267 | the letters of grantees and localities, and how names are cut off |
| Strings.PrefixFirst | cmd/zfs/zfs_main.c:5866-5874 | string order puts a path before its extensions |
| Strings.CmpExact | cmd/zfs/zfs_iter.c:216-217 | of two strings the one that ends or has the smaller character at their first difference comes first |
| DatasetOrder.ZfsSort | cmd/zfs/zfs_iter.c:271-362 | the first column that tells the rows apart decides, else the names |
| DatasetOrder.CompareSigns | cmd/zfs/zfs_iter.c:199-257 | equal exactly for snapshots of one dataset with the same known creation or the same name; opposite both ways round exactly unless both are of one filesystem |
| DatasetOrder.SortSigns | cmd/zfs/zfs_iter.c:271-362 | with any columns, opposite both ways round exactly unless both are of one filesystem and no column tells them apart |
| DatasetOrder.SortZero | cmd/zfs/zfs_iter.c:271-362 | with any columns, equal exactly for tied snapshots that no column tells apart |
| DatasetOrder.SortTrans | cmd/zfs/zfs_iter.c:271-362 | with any columns, transitive, and strictly so if either step is strict |
| DatasetOrder.ColumnExact | cmd/zfs/zfs_iter.c:330-357 | in a column the smaller number or earlier string comes first, reversed the other way round, and a row without a value after one with a value |
| DatasetOrder.SortExact | cmd/zfs/zfs_iter.c:271-362 | the first column in which one of two rows comes first decides, else their names: the earlier dataset, a dataset before its snapshots, the snapshot made first |
| DatasetOrder.OrderedExactly | cmd/zfs/zfs_iter.c:271-362 | a tree is in order exactly when of any two rows the one before comes first by their values and names |
| DatasetOrder.InvalidLast | cmd/zfs/zfs_iter.c:259-270 | where earlier columns agree, rows a column does not apply to come last, reversed or not |
| DatasetOrder.SnapshotsFollow | cmd/zfs/zfs_iter.c:199-257 | without columns, everything between a dataset and its snapshot is a snapshot of it made no later |
| DatasetOrder.SnapshotsAfter | cmd/zfs/zfs_iter.c:216-225 | without columns, a dataset comes before its snapshots |
| DatasetOrder.ByLawful | cmd/zfs/zfs_iter.c:271-362 | with any columns, the tree can rely on the comparator although it is no total order |
| OrderedTree.PlaceIsUnique | cmd/zfs/zfs_iter.c:102-103 | every search of the ordered tree ends in the same place |
| OrderedTree.PresentExactly | cmd/zfs/zfs_iter.c:102-103 | a search finds something equal exactly when there is something equal |
| OrderedTree.InsertOrdered | cmd/zfs/zfs_iter.c:102-118 | inserting anything keeps the tree in order |
| DatasetOrder.DroppedExactly | cmd/zfs/zfs_iter.c:102-121 | a handle is left out of any tree exactly when one there is tied with it and no column tells them apart |
| DatasetOrder.DatasetAdded | cmd/zfs/zfs_iter.c:219-225 | a handle of a filesystem or volume is added to any tree, even if one of it is there |
| ForEach.Gatherer.Callback | cmd/zfs/zfs_iter.c:88-145 | whatever is in the tree, the specified names are inserted, and the depth is as before |
| ForEach.VisitsExact | cmd/zfs/zfs_iter.c:88-145 | what the recursion gathers under an argument is, by name alone, exactly what lies in its subtree within the depth left, of a type asked for, and a snapshot only if snapshots are included |
| ForEach.VisitsDistinct | cmd/zfs/zfs_iter.c:126-140 | nothing is gathered twice under one argument |
| ForEach.ZfsForEach | cmd/zfs/zfs_iter.c:364-469 | for any arguments, or for every pool recursively without any, the callbacks come in sort order, for the names gathered; an argument that does not open only sets the status |
| ForEach.EveryTime | cmd/zfs/zfs_iter.c:95-122 | a filesystem or volume is in the tree as often as it is gathered |
| ForEach.ShownExactly | cmd/zfs/zfs_iter.c:364-469 | there is one callback for each name asked for and for no other exactly when no filesystem or volume is asked for by two arguments and the sort tells all the handles apart |
| ForEach.DisjointOnce | cmd/zfs/zfs_iter.c:449-460 | nothing is asked for twice if no argument lies inside another |
| ForEach.OpensExactly | cmd/zfs/zfs_iter.c:437-459 | an argument is taken exactly if it exists and is of a type asked for, or with recursion is a filesystem, or a volume when snapshots are asked for |
| ForEach.EverythingShown | cmd/zfs/zfs_iter.c:426-431 | without arguments, whether or not recursion is asked for, what is asked for is everything of the types wanted that is not too deep by its name, and nothing of it twice |
| Unmount.UnmountAll | cmd/zfs/zfs_main.c:6060-6157 | each collected mountpoint is tried exactly once, and never with another of them beneath it still waiting |
| ZpiosRange.Range.GetNext | cmd/zpios/zpios_main.c:437-475 | each call gives the next of the specified values or says that there is none, for ranges that end and ranges that do not |
| ZpiosRange.EndsExactly | cmd/zpios/zpios_main.c:441-453 | in 64-bit arithmetic every range ends exactly when it is a list, its low exceeds its high, or the first multiple of the largest power of two in low * step that carries past the high fits |
| ZpiosRange.RoomyEnds | cmd/zpios/zpios_main.c:441-453 | if 100 (high + 1) + low * step < 2^64, a range of steps ends exactly when its low exceeds its high or both low and step are positive |
| ZpiosRange.RoomyValues | cmd/zpios/zpios_main.c:441-453 | under that bound the values are exactly those of unbounded arithmetic |
| ZpiosRange.NoEndDespiteSteps | cmd/zpios/zpios_main.c:442-443 | from 1t to 200000t in steps of 1 per cent there is no end |
| Zpios.Sweep.RunOffsets | cmd/zpios/zpios_main.c:530-544 | the runs issued are the first of its values, all of them exactly when all succeed, and the generator is reset |
| Zpios.Sweep.RunRegionCounts | cmd/zpios/zpios_main.c:546-556 | likewise over region counts and offsets |
| Zpios.Sweep.RunRegionSizes | cmd/zpios/zpios_main.c:558-575 | likewise, failing also exactly when a region is smaller than the chunk |
| Zpios.Sweep.RunChunkSizes | cmd/zpios/zpios_main.c:577-588 | likewise over chunk sizes |
| Zpios.Sweep.RunThreadCounts | cmd/zpios/zpios_main.c:590-599 | likewise over thread counts |
| Zpios.RunAll | cmd/zpios/zpios_main.c:530-599 | the runs are a prefix of the product in lexicographic order with ids 0, 1, 2, ..., and all of it exactly when every run succeeds and no region is smaller than a chunk |

## Left out

- Gang blocks, input and output errors of the maps, and checksum verification in `zdb -b`; read errors of the traversal are only whether there were any.
- PoolSpace.ClaimExact: a gang block's header and members are not claimed one by one; a block is the list of the ranges it takes up.
- LeakCheck.VerdictExact: takes shared blocks to have the size of their slots; without that the exact condition is LeakCheck.VerdictRightIff.
- LeakPool.AnyOrderPasses: visits of the same place in the same intent log are of the same block, as the log on disk does not change during the run.
- 64-bit overflow of byte counters and offsets other than the space-map counter, the ranges of zinject and those of zpios; counts, sizes and offsets are unbounded.
- Shifts in `calculate_range` and `blkid2offset` are divisions and products by the block size and by the pointers per block, which they are for powers of two.
- Indirect.CalculateRange: the digits of a range are read by `strtoull`, which is not modelled; the numbers it gives, and whether anything is left over, are an input.
- SendStream: the options -C and -v, and a big-endian host.
- SendStreamLaws.StreamReport: payloads are whole 32-bit words, as every payload of a send stream is.
- Destroy.Destroyer.DestroyDataset: when it fails half way, which of the dependents are gone by then depends on the order they are listed in and is only bounded.
- Destroy: the syntax of snapshot lists (`zfs_iter_snapspec`), which is a function from filesystems to the snapshots picked; datasets created while the command runs.
- Reclaim: `zfs_get_snapused_int`, which is an arbitrary function of the two ends of a run.
- Delegation: looking up users and groups, the kernel's merging of what is stored, `zfs unallow` beyond the list it writes, and the order of printed lines.
- ForEach: pruning and expanding property lists, and arguments that are paths.
- Zpios.RunAll: requires each range to end, which ZpiosRange.EndsExactly decides beforehand; otherwise the sweep need not end either. `run_one` is its outcome alone.
- `zfs userspace`, `zpool status` and `import`, and all device, label, mount and ioctl work: user interface or foreign calls.
