# A Dafny model of four pieces of KDE Partition Manager's core library

This project models four pieces of decision logic from kpmcore, the library behind KDE Partition Manager. Dafny proves what each piece promises.

- **Deleting a partition** (`src/ops/deleteoperation.cpp`), in `delete_operation.dfy`:
  - when a partition may be deleted;
  - the two jobs a delete operation queues;
  - how `preview` and `undo` take the partition out of the tree and put it back.
  
  Around those two steps the logical partitions of an extended partition are renumbered so their numbers stay without gaps. The tree is an arena: a map from partition ids to partitions, where each partition names its parent and its children by id. A `Device` object holds the table. A `DeleteOperation` object holds its status and job list, and its `Preview`/`Undo` methods change the device's table.
- **Evacuating LVM physical volumes** (`src/jobs/movephysicalvolumejob.cpp`), in `move_physical_volume_job.dfy`:
  - the destination list is the group's volumes minus every evacuated path;
  - the sources are moved in order, stopping at the first failed move;
  - the description lists the paths, each followed by a comma.
- **The ext2 file system** (`src/fs/ext2.cpp`), in `ext2.dfy`:
  - the capability levels `init` derives from which e2fsprogs tools are installed;
  - the exit-code rules of the e2fsprogs commands;
  - the `resize` length argument;
  - reading the used capacity from the `dumpe2fs -h` header.
  
  `decimal.dfy` holds the Qt and C++ number handling that ext2 relies on: `QString::number`, `QString::toLongLong`, and division that truncates toward zero.
- **The libparted backend** (`src/plugins/libparted/libpartedbackend.cpp`), in `libparted_backend.dfy`:
  - the flag translation table and `getPedFlag`;
  - the active and available flag sets of a partition;
  - the first and last usable sector of a disk, in 64-bit unsigned arithmetic;
  - the device filter and progress values of `scanDevices`;
  - the roles `scanDevicePartitions` gives the entries libparted reports.

`wrappers.dfy` defines `Option`.

Everything outside the library is an input:
- what libparted reports about devices, disks and partitions;
- which external tools were found;
- what running an external command produced;
- the physical volumes LVM lists and whether a `movePV` call succeeded. That answer may depend on how many moves came before it, so earlier moves can change what later ones do.

## Model

| member | source | states |
|---|---|---|
| DeletePartition.CanDelete | src/ops/deleteoperation.cpp:113-138 | A null, mounted or unallocated partition can never be deleted |
| DeletePartition.CanDeleteExactly | src/ops/deleteoperation.cpp:113-138 | `canDelete` holds exactly when: the partition exists, is unmounted and is allocated; if extended, its only child is unallocated; if LUKS (and not extended), it is a LUKS file system that is neither open nor mounted |
| DeletePartition.ExtendedIgnoresFileSystem | src/ops/deleteoperation.cpp:124-125 | For an extended partition the LUKS check is never reached: replacing its file system does not change the answer |
| DeletePartition.FileSystemJob | src/ops/deleteoperation.cpp:47-56 | The file-system job works on the deleted partition. It shreds exactly when the shred mode is not NoShred, and shreds randomly exactly for RandomShred |
| DeletePartition.DeleteOperation.constructor | src/ops/deleteoperation.cpp:40-60 | The operation starts with status None and exactly two jobs: the file-system job for the shred mode, then the partition-delete job. Every job it queues works on the partition the operation targets |
| DeletePartition.DeleteOperation.AddJob | src/ops/deleteoperation.cpp:58-59 | A job is appended at the end of the list and nothing else changes |
| DeletePartition.FreedOnlyOnceStarted | src/ops/deleteoperation.cpp:62-66 | The destructor frees the partition exactly in the Running, Success, Warning and Error states, never while Pending or None (merged or undone) |
| DeletePartition.DeleteOperation.TargetsDevice | src/ops/deleteoperation.cpp:68-71 | `targets(Device)` holds for the operation's own device only (compared by identity) |
| DeletePartition.DeleteOperation.TargetsPartition | src/ops/deleteoperation.cpp:73-76 | `targets(Partition)` holds for the deleted partition only (compared by id) |
| DeletePartition.DeleteOperation.JobsOnTarget | src/ops/deleteoperation.cpp:58-59 | Every queued job works on the partition the operation targets; the constructor establishes it |
| DeletePartition.DeleteOperation.FreesDeletedPartition | src/ops/deleteoperation.cpp:62-66 | The destructor frees the deleted partition unless the status is Pending or None |
| DeletePartition.RemoveChild | src/ops/deleteoperation.cpp:80 | Removing the partition drops its first occurrence from its parent's child list (the table's own, or its parent partition's). It changes nothing else about the partition |
| DeletePartition.InsertChild | src/ops/deleteoperation.cpp:87 | Re-inserting puts the partition before the first sibling with a larger first sector |
| DeletePartition.Shift | src/ops/deleteoperation.cpp:100-106 | One partition's renumbering: above a deleted number it moves down by one, and from an inserted number upwards it moves up by one. -1 means no number |
| DeletePartition.AdjustLogicalNumbers | src/ops/deleteoperation.cpp:106 | Renumbering changes only the numbers of the parent's children and keeps the tree's shape |
| DeletePartition.CheckAdjust | src/ops/deleteoperation.cpp:98-107 | Numbers change only when the parent is an extended partition; otherwise the table is unchanged |
| DeletePartition.CheckAdjustKeepsTree | src/ops/deleteoperation.cpp:104-106 | Renumbering keeps every parent and child link; the deleted partition's own number changes only while it is still among the children |
| DeletePartition.PreviewTable | src/ops/deleteoperation.cpp:78-82 | The table after `preview`: the partition removed from its parent's child list, then the siblings renumbered. It keeps the set of partitions |
| DeletePartition.PreviewFrame | src/ops/deleteoperation.cpp:78-82 | `preview` changes only the parent's child list and the siblings' numbers: every other partition is unchanged, siblings keep everything but their number, and the table's own child list changes only when the parent is the table, by losing the partition |
| DeletePartition.UndoTable | src/ops/deleteoperation.cpp:84-88 | The table after `undo`: the siblings renumbered back, then the partition re-inserted by sector. It keeps the set of partitions |
| DeletePartition.Device.RemovePreviewPartition | src/ops/deleteoperation.cpp:80 | `removePreviewPartition` leaves the table as `RemoveChild` describes (the base-class behaviour as assumed here) |
| DeletePartition.Device.InsertPreviewPartition | src/ops/deleteoperation.cpp:87 | `insertPreviewPartition` leaves the table as `InsertChild` describes (the base-class behaviour as assumed here) |
| DeletePartition.Device.AdjustLogicalNumbersOf | src/ops/deleteoperation.cpp:106 | `adjustLogicalNumbers` on the parent leaves the table as `AdjustLogicalNumbers` describes |
| DeletePartition.DeleteOperation.CheckAdjustLogicalNumbers | src/ops/deleteoperation.cpp:98-107 | The method leaves the device's table as the renumbering function describes |
| DeletePartition.DeleteOperation.Preview | src/ops/deleteoperation.cpp:78-82 | `preview` leaves the table with the partition removed and then renumbered as a deletion of its number |
| DeletePartition.DeleteOperation.Undo | src/ops/deleteoperation.cpp:84-88 | `undo` leaves the table renumbered as an insertion of the partition's number, with the partition then re-inserted by sector |
| DeletePartition.UndoAfterPreview | src/ops/deleteoperation.cpp:78-88 | `undo` after `preview` gives back the original table exactly. This holds when the siblings are ordered by first sector and, inside an extended parent, no other sibling carries the deleted partition's number |
| DeletePartition.PreviewClosesGap | src/ops/deleteoperation.cpp:100-106 | If the logicals of an extended partition are numbered lo..hi-1 without gaps, then after deleting one of them the preview numbers the rest lo..hi-2, again without gaps |
| DeletePartition.InsertAfterRemove | src/ops/deleteoperation.cpp:80-87 | Removing a partition from a sector-ordered list and inserting it again by sector gives the same list |
| DeletePartition.AdjustBack | src/ops/deleteoperation.cpp:106 | Renumbering as an insertion undoes renumbering as a deletion, once the partition is no longer among the children |
| MovePhysicalVolume.RemoveAll | src/jobs/movephysicalvolumejob.cpp:48 | `removeAll` drops every occurrence of the path and keeps every other path as often as before |
| MovePhysicalVolume.Destinations | src/jobs/movephysicalvolumejob.cpp:45-50 | A path is a destination exactly when it is one of the group's volumes and not being evacuated. The others keep their multiplicity |
| MovePhysicalVolume.DestinationsKeepOrder | src/jobs/movephysicalvolumejob.cpp:45-50 | The destinations keep the group's relative order: they are a subsequence of its volumes |
| MovePhysicalVolume.NothingEvacuated | src/jobs/movephysicalvolumejob.cpp:45 | With nothing to evacuate, every volume of the group is a destination |
| MovePhysicalVolume.RemoveAllExtendsDestinations | src/jobs/movephysicalvolumejob.cpp:46-49 | Removing one more evacuated path in place gives the destinations for the longer source list |
| MovePhysicalVolume.RemoveAllAbsent | src/jobs/movephysicalvolumejob.cpp:47-48 | The `contains` guard changes nothing: removing an absent path leaves the list as it was |
| MovePhysicalVolume.EvacuationDestinations | src/jobs/movephysicalvolumejob.cpp:45-50 | The in-place removal loop ends with exactly the destinations |
| MovePhysicalVolume.FirstFailure | src/jobs/movephysicalvolumejob.cpp:52-57 | Every move before the first failure succeeds with the same destinations, and the move at it fails |
| MovePhysicalVolume.NoFailureMeansAllMoved | src/jobs/movephysicalvolumejob.cpp:52-57 | The move loop runs to the end of the list exactly when every move succeeds |
| MovePhysicalVolume.MoveSources | src/jobs/movephysicalvolumejob.cpp:52-57 | The loop calls `movePV` on the sources in order with the same destinations, up to and including the first failure. It returns true exactly when the list is non-empty and nothing failed |
| MovePhysicalVolume.Run | src/jobs/movephysicalvolumejob.cpp:37-62 | `run` moves the sources in list order, each with the same destinations, and stops after the first failure. It returns true exactly when the list is non-empty and every move succeeded. `jobFinished` is called once, with the returned value |
| MovePhysicalVolume.PathList | src/jobs/movephysicalvolumejob.cpp:66-69 | The description's path list ends in a comma whenever there is a path |
| MovePhysicalVolume.DescriptionPaths | src/jobs/movephysicalvolumejob.cpp:66-69 | The loop builds exactly each path followed by a comma |
| MovePhysicalVolume.PathListRoundTrip | src/jobs/movephysicalvolumejob.cpp:66-69 | When no path contains a comma, the path list splits back into the paths |
| Ext2.CommandSupport.Code | src/fs/ext2.cpp:56 | A support level's integer value is zero exactly for `cmdSupportNone` |
| Ext2.SupportIf | src/fs/ext2.cpp:49-58 | Each conditional gives a supported level exactly when its condition holds |
| Ext2.Ext2Support.constructor | src/fs/ext2.cpp:29-40 | Before `init`, every capability is unsupported, as the static initialisers set them |
| Ext2.Ext2Support.Init | src/fs/ext2.cpp:47-61 | After `init`, each of the twelve levels is the one derived from the tools found |
| Ext2.InitDependencies | src/fs/ext2.cpp:55-60 | Grow is supported only when Check is supported and resize2fs was found; Shrink only when Grow and GetUsed are; Copy and Move are Core exactly when Check is supported; GetLabel, Backup and GetUUID are always Core |
| Ext2.SupportLevels.SupportToolFound | src/fs/ext2.cpp:63-78 | `supportToolFound`: none of the twelve capabilities is unsupported |
| Ext2.SupportLevels.InitializedFrom | src/fs/ext2.cpp:47-61 | The twelve levels `init` derives from the tools found, shrink's integer comparison included |
| Ext2.SupportToolFoundAfterInit | src/fs/ext2.cpp:47-78 | After `init`, `supportToolFound` holds exactly when all six e2fsprogs tools were found |
| Ext2.MaxCapacity | src/fs/ext2.cpp:85-88 | The largest file system is 16 TiB less 1 MiB. It is a whole number of 512-byte sectors and fits a qint64 |
| Ext2.MaxLabelLength | src/fs/ext2.cpp:90-93 | Labels hold at most 16 characters |
| Ext2.Check | src/fs/ext2.cpp:128-132 | e2fsck succeeds exactly when it ran and exited with 0, 1, 2 or 256 |
| Ext2.CheckIsMoreLenient | src/fs/ext2.cpp:128-132 | The check accepts every clean exit. Its only other accepted exit codes are 1, 2 and 256, and a command that did not run fails |
| Ext2.Create | src/fs/ext2.cpp:134-138 | `mkfs.ext2 -qF` succeeds exactly when it ran and exited with 0 |
| Ext2.ResizeInvocation | src/fs/ext2.cpp:142-144 | resize2fs gets the device node, then the length argument |
| Ext2.ResizeLengthArgument | src/fs/ext2.cpp:142 | The length argument is a decimal count followed by "s" and parses back to length/512, truncated toward zero. For a non-negative length it is the number of whole 512-byte sectors |
| Ext2.Resize | src/fs/ext2.cpp:140-146 | resize2fs succeeds exactly when it ran and exited with 0 |
| Ext2.WriteLabel | src/fs/ext2.cpp:148-152 | e2label succeeds exactly when it ran and exited with 0 |
| Ext2.WriteLabelOnline | src/fs/ext2.cpp:154-158 | Writing a label online runs the same e2label command as offline |
| Ext2.WriteLabelOnlineIgnoresMountPoint | src/fs/ext2.cpp:154-158 | The mount point makes no difference to the result |
| Ext2.UpdateUUID | src/fs/ext2.cpp:160-164 | `tune2fs -U random` succeeds exactly when it ran and exited with 0 |
| Ext2.SkipSpaces | src/fs/ext2.cpp:101 | `\s+` consumes exactly the run of ASCII white space |
| Ext2.SkipDigits | src/fs/ext2.cpp:101 | `(\d+)` consumes exactly the run of ASCII digits |
| Ext2.MatchAt | src/fs/ext2.cpp:101-105 | A match captures a non-empty run of digits |
| Ext2.FindFrom | src/fs/ext2.cpp:102 | A capture is a non-empty run of digits |
| Ext2.MatchIndex | src/fs/ext2.cpp:102 | The leftmost match index: the pattern matches nowhere between `i` and it, and matches at it unless it is past the end |
| Ext2.FindFromLeftmost | src/fs/ext2.cpp:102 | `match` captures what the leftmost match captures, and nothing exactly when the pattern matches nowhere from `i` on |
| Ext2.FieldValue | src/fs/ext2.cpp:101-119 | A field's value, when found, is a non-negative qint64 |
| Ext2.UsedCapacity | src/fs/ext2.cpp:95-126 | The used capacity is (block count - free blocks) * block size when the command ran and all three fields were found, and -1 otherwise |
| Ext2.ReadUsedCapacity | src/fs/ext2.cpp:95-99 | A capacity other than -1 comes only from a dumpe2fs that ran |
| Ext2.MatchAtLayout | src/fs/ext2.cpp:101 | The pattern at a name, white space, then digits captures exactly those digits |
| Ext2.MatchHeaderLine | src/fs/ext2.cpp:101-116 | A header line for a field matches that field's pattern and captures the value's digits |
| Ext2.SkipNonMatching | src/fs/ext2.cpp:102 | Positions where no match starts do not change the first match |
| Ext2.FieldFromLine | src/fs/ext2.cpp:101-119 | A field's header line, placed after text in which the field's pattern never matches, is the line the value is read from, for any white-space padding |
| Ext2.NoMatchInLines | src/fs/ext2.cpp:102 | The pattern cannot match inside whole lines that do not contain the field name |
| Ext2.FieldOfHeader | src/fs/ext2.cpp:101-119 | A field is read from its own line, whatever padding aligns its value and whatever lines without its name come before it |
| Ext2.UsedCapacityOfHeader | src/fs/ext2.cpp:95-126 | For any header holding the three fields on their own lines, with any padding and any other lines before and between them, the used capacity is exactly (block count - free blocks) * block size |
| Decimal.NatToString | src/fs/ext2.cpp:142 | The digits of a natural number are non-empty, have no leading zero and read back as the number |
| Decimal.IntToString | src/fs/ext2.cpp:142 | `QString::number` gives plain digits exactly for non-negative values, and a minus sign before the digits otherwise |
| Decimal.IntToStringRoundTrip | src/fs/ext2.cpp:142 | Reading back what `QString::number` writes gives the number |
| Decimal.ToLongLong | src/fs/ext2.cpp:105 | `toLongLong` gives the digits' value when it fits a qint64, and 0 otherwise |
| Decimal.TruncDiv | src/fs/ext2.cpp:142 | C++ division by a positive divisor truncates toward zero, for both signs of the dividend |
| LibpartedBackend.FlagMapOneToOne | src/plugins/libparted/libpartedbackend.cpp:56-78 | The table has 18 pairs, and no flag on either side appears twice |
| LibpartedBackend.FlagMapCovers | src/plugins/libparted/libpartedbackend.cpp:56-78 | Every flag except FlagNone has a pair, and so does every libparted flag |
| LibpartedBackend.GetPedFlag | src/plugins/libparted/libpartedbackend.cpp:520-527 | `getPedFlag` returns the libparted flag paired with the flag in the table, and -1 (None) exactly when the table has no pair for it |
| LibpartedBackend.ActiveFlags | src/plugins/libparted/libpartedbackend.cpp:229-244 | The loop collects exactly the active flag set |
| LibpartedBackend.AvailableFlags | src/plugins/libparted/libpartedbackend.cpp:246-263 | The loop collects exactly the available flag set |
| LibpartedBackend.FlagsUpToStep | src/plugins/libparted/libpartedbackend.cpp:239-241 | Each pass of the flag loop adds the pair's flag exactly when it counts |
| LibpartedBackend.ActiveFlagMeaning | src/plugins/libparted/libpartedbackend.cpp:236-241 | A flag is active exactly when the partition is numbered and libparted both offers the flag and has it set |
| LibpartedBackend.AvailableFlagMeaning | src/plugins/libparted/libpartedbackend.cpp:251-260 | A flag is available exactly when the partition is numbered and libparted offers it, except that hidden is never available on an extended partition |
| LibpartedBackend.UnnumberedHasNoFlags | src/plugins/libparted/libpartedbackend.cpp:236-237 | A partition numbered 0 or below has no active and no available flags |
| LibpartedBackend.ActiveWithinAvailable | src/plugins/libparted/libpartedbackend.cpp:229-263 | Every active flag other than hidden is also available; off extended partitions every active flag is. FlagNone is never available |
| LibpartedBackend.U64 | src/plugins/libparted/libpartedbackend.cpp:130-132 | The conversion to quint64 is reduction modulo 2^64, exact for values already in range |
| LibpartedBackend.FirstUsableSector | src/plugins/libparted/libpartedbackend.cpp:125-145 | Without a disk the first usable sector is 0. On GPT with a data area it is the area's start |
| LibpartedBackend.LastUsableSector | src/plugins/libparted/libpartedbackend.cpp:151-173 | Without a disk the last usable sector is 0. On GPT with a data area it is the area's end |
| LibpartedBackend.NonGptUsableRange | src/plugins/libparted/libpartedbackend.cpp:130-132 | Off GPT, for a sane geometry, the first usable sector is sectors per track and the last is sectors * heads * cylinders - 1 |
| LibpartedBackend.ZeroGeometryWraps | src/plugins/libparted/libpartedbackend.cpp:156-160 | Off GPT, a geometry with a zero makes the last usable sector wrap to 2^64 - 1 |
| LibpartedBackend.GptWithoutDataArea | src/plugins/libparted/libpartedbackend.cpp:134-142 | On GPT without a data area, the range is the BIOS one narrowed by 32 sectors at each end (modulo 2^64) |
| LibpartedBackend.ScannedPaths | src/plugins/libparted/libpartedbackend.cpp:448-461 | A path is scanned exactly when some probed device has it and passes the filter. Device-mapper devices never pass; loop and read-only devices pass only when not excluded |
| LibpartedBackend.Collected | src/plugins/libparted/libpartedbackend.cpp:462-467 | Every device that scanning a listed path creates is in the result |
| LibpartedBackend.CreatedAt | src/plugins/libparted/libpartedbackend.cpp:462-467 | The positions of the paths whose scan created a device: all of them and no others, in increasing order |
| LibpartedBackend.CollectedInOrder | src/plugins/libparted/libpartedbackend.cpp:462-467 | The result holds exactly the created devices, in path order: its m-th device is the one created for the m-th successful path |
| LibpartedBackend.ProgressInRange | src/plugins/libparted/libpartedbackend.cpp:463 | The progress `i*100/total` lies within 0 to 99 |
| LibpartedBackend.ScanDevices | src/plugins/libparted/libpartedbackend.cpp:440-470 | The scan lists the filtered paths in probe order and reports `i*100/total` before device i. It keeps the devices it could create, in order |
| LibpartedBackend.ScanEntry | src/plugins/libparted/libpartedbackend.cpp:317-340 | Numbered entries of type normal, logical or extended become partitions; others are skipped. Normal maps to Primary, logical to Logical, and extended to Extended with the extended file system type |
| LibpartedBackend.ScanAll | src/plugins/libparted/libpartedbackend.cpp:317-340 | The scanned partitions are exactly those the entries map to |
| LibpartedBackend.ScanDevicePartitions | src/plugins/libparted/libpartedbackend.cpp:317-340 | The scan loop produces exactly the mapped partitions, in libparted's order |
| LibpartedBackend.ScannedPartitionsWellFormed | src/plugins/libparted/libpartedbackend.cpp:318-331 | Every scanned partition is numbered 1 or above, and a partition is extended exactly when its file system type is the extended marker |

## Left out

- Partition tree operations: the bodies of `Partition::adjustLogicalNumbers`, `PartitionNode::insert` and `PartitionNode::remove` are not part of this model. The `Operation` helpers that call them (`removePreviewPartition`, `insertPreviewPartition`) are modelled as `Device` methods with this assumed behaviour:
  - Removal drops the first occurrence from the parent's child list.
  - Insertion places the partition before the first child with a larger first sector.
  - Renumbering is `Shift`, with -1 standing for "no number", as the mirrored calls at deleteoperation.cpp:106 use it.
  - `updateUnallocated`, which these helpers also call, is not modelled.
- Identity: `targets` compares devices and partitions with their own `==` operators. The model compares object identity and partition ids instead.
- Memory: the destructor's `delete` is represented only by `FreesDeletedPartition`. Memory management and the job objects' own work are not modelled.
- Status: the transitions of an operation's status belong to the `Operation` base class, which is not part of this model.
- External effects: LVM calls, external commands and libparted calls are inputs. Report objects, logging, localisation and description text other than the path list are not modelled.
- LVM state: `movePV` is an oracle answering from the number of earlier moves, the source and the destinations. The volume group's contents, and the extents each move shifts, are not modelled.
- ext2 tool probing: `findExternal` is represented only by whether each tool was found; the `-V` argument passed to e2fsck is not modelled.
- ext2 command text: the label and UUID values themselves, and how `ExternalCommand` runs a process, are not modelled.
- Ext2.UsedBytes: the product is computed on unbounded integers. It does not model a qint64 overflow for block counts and sizes whose product exceeds 2^63.
- Ext2.FieldValue: the regular expressions are modelled for ASCII `\s` and `\d` only. `QRegularExpression` without Unicode properties treats other characters the same way.
- LibpartedBackend.ScanDevices: the device count and `i * 100` are unbounded. This does not model quint32 wrap-around, which needs over 42 million devices.
- ScanDevices side effects: `emitScanProgress` is represented by the returned progress values. Scanning one device (`scanDevice`) is an input function.
- scanDevicePartitions leftovers: the parent lookup (`findPartitionBySector`), the Partition objects themselves, mount points, LUKS mapper detection, used-sector reading, labels, UUIDs and alignment checks are not modelled. Only the skip rules and the role and file-system-type mapping are.
- LibpartedBackend.ScannedPartitionsWellFormed: file system detection (`FileSystem::detectFileSystem`) is not part of this model. Its result is a name that is never the extended marker, so only the extended branch at libpartedbackend.cpp:331 yields the extended type. The converse direction rests on that assumption.
- libparted exceptions: the exception handler and the last exception message are process-wide state, and are not modelled.
- GPT header internals: the layout of libparted's internal GPT data is not modelled. The data area is an optional input.
- C `int` ranges: the geometry values are unbounded integers converted with `U64`. `NonGptUsableRange` assumes non-negative 31-bit values.
