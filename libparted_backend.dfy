/**
 * The self-contained logic of the libparted backend: the translation table
 * between the partition table's flags and libparted's, the flag sets read off
 * a libparted partition, the usable-sector range of a disk, the device
 * filter of the device scan, and the roles given to scanned partitions.
 *
 * What libparted reports (a partition's number, type and flags, a disk's
 * geometry, the probed devices) is input; scanning a single device is an
 * input function.
 */
module LibpartedBackend {
  import opened Wrappers

  /** PartitionTable::Flag. */
  datatype Flag =
    | FlagNone | FlagBoot | FlagRoot | FlagSwap | FlagHidden | FlagRaid | FlagLvm | FlagLba
    | FlagHpService | FlagPalo | FlagPrep | FlagMsftReserved | FlagBiosGrub | FlagAppleTvRecovery
    | FlagDiag | FlagLegacyBoot | FlagMsftData | FlagIrst | FlagEsp

  /** libparted's PedPartitionFlag values that the table names. */
  datatype PedFlag =
    | PedBoot | PedRoot | PedSwap | PedHidden | PedRaid | PedLvm | PedLba
    | PedHpService | PedPalo | PedPrep | PedMsftReserved | PedBiosGrub | PedAppleTvRecovery
    | PedDiag | PedLegacyBoot | PedMsftData | PedIrst | PedEsp

  datatype FlagPair = FlagPair(pedFlag: PedFlag, flag: Flag)

  /** `flagmap`: libparted's flag and the partition table's flag, pair by pair. */
  const FlagMap: seq<FlagPair> := [
    FlagPair(PedBoot, FlagBoot),
    FlagPair(PedRoot, FlagRoot),
    FlagPair(PedSwap, FlagSwap),
    FlagPair(PedHidden, FlagHidden),
    FlagPair(PedRaid, FlagRaid),
    FlagPair(PedLvm, FlagLvm),
    FlagPair(PedLba, FlagLba),
    FlagPair(PedHpService, FlagHpService),
    FlagPair(PedPalo, FlagPalo),
    FlagPair(PedPrep, FlagPrep),
    FlagPair(PedMsftReserved, FlagMsftReserved),
    FlagPair(PedBiosGrub, FlagBiosGrub),
    FlagPair(PedAppleTvRecovery, FlagAppleTvRecovery),
    FlagPair(PedDiag, FlagDiag),
    FlagPair(PedLegacyBoot, FlagLegacyBoot),
    FlagPair(PedMsftData, FlagMsftData),
    FlagPair(PedIrst, FlagIrst),
    FlagPair(PedEsp, FlagEsp)
  ]

  /** The table is one-to-one: no flag and no libparted flag appears in two pairs. */
  lemma FlagMapOneToOne()
    ensures |FlagMap| == 18
    ensures forall i, j :: 0 <= i < j < |FlagMap| ==> FlagMap[i].flag != FlagMap[j].flag
    ensures forall i, j :: 0 <= i < j < |FlagMap| ==> FlagMap[i].pedFlag != FlagMap[j].pedFlag
  {
  }

  /** The index of a flag's pair in the table. */
  function PairOfFlag(flag: Flag): (i: int)
    ensures flag == FlagNone <==> i == -1
    ensures i != -1 ==> 0 <= i < |FlagMap| && FlagMap[i].flag == flag
  {
    match flag
    case FlagNone => -1
    case FlagBoot => 0
    case FlagRoot => 1
    case FlagSwap => 2
    case FlagHidden => 3
    case FlagRaid => 4
    case FlagLvm => 5
    case FlagLba => 6
    case FlagHpService => 7
    case FlagPalo => 8
    case FlagPrep => 9
    case FlagMsftReserved => 10
    case FlagBiosGrub => 11
    case FlagAppleTvRecovery => 12
    case FlagDiag => 13
    case FlagLegacyBoot => 14
    case FlagMsftData => 15
    case FlagIrst => 16
    case FlagEsp => 17
  }

  /** The index of a libparted flag's pair in the table. */
  function PairOfPedFlag(pedFlag: PedFlag): (i: int)
    ensures 0 <= i < |FlagMap| && FlagMap[i].pedFlag == pedFlag
  {
    match pedFlag
    case PedBoot => 0
    case PedRoot => 1
    case PedSwap => 2
    case PedHidden => 3
    case PedRaid => 4
    case PedLvm => 5
    case PedLba => 6
    case PedHpService => 7
    case PedPalo => 8
    case PedPrep => 9
    case PedMsftReserved => 10
    case PedBiosGrub => 11
    case PedAppleTvRecovery => 12
    case PedDiag => 13
    case PedLegacyBoot => 14
    case PedMsftData => 15
    case PedIrst => 16
    case PedEsp => 17
  }

  /** Every flag but FlagNone has a pair, and every libparted flag has one. */
  lemma FlagMapCovers(flag: Flag, pedFlag: PedFlag)
    ensures flag != FlagNone <==> exists i :: 0 <= i < |FlagMap| && FlagMap[i].flag == flag
    ensures exists i :: 0 <= i < |FlagMap| && FlagMap[i].pedFlag == pedFlag
  {
    if flag != FlagNone {
      var i := PairOfFlag(flag);
    } else {
      assert forall i :: 0 <= i < |FlagMap| ==> FlagMap[i].flag != FlagNone;
    }
    var j := PairOfPedFlag(pedFlag);
  }

  /**
   * `getPedFlag`: the libparted flag paired with `flag` in the table, or
   * None (`getPedFlag`'s -1) when the table has no pair for it.
   */
  method GetPedFlag(flag: Flag) returns (pedFlag: Option<PedFlag>)
    ensures pedFlag.Some? ==> FlagPair(pedFlag.value, flag) in FlagMap
    ensures pedFlag.None? <==> forall i :: 0 <= i < |FlagMap| ==> FlagMap[i].flag != flag
  {
    for i := 0 to |FlagMap|
      invariant forall j :: 0 <= j < i ==> FlagMap[j].flag != flag
    {
      if FlagMap[i].flag == flag {
        return Some(FlagMap[i].pedFlag);
      }
    }
    return None;
  }

  /** libparted's PedPartitionType codes that the backend distinguishes. */
  const PedPartitionNormal: int := 0
  const PedPartitionLogical: int := 1
  const PedPartitionExtended: int := 2

  /**
   * What libparted reports about one partition: its number, its type code,
   * the flags it offers and the flags that are set.
   */
  datatype PedPartition = PedPartition(num: int, partType: int, available: set<PedFlag>, enabled: set<PedFlag>)

  /**
   * Does the pair's flag count for the partition? For `activeFlags`
   * (`active`), libparted must offer the flag and have it set; for
   * `availableFlags`, libparted must offer it, and the hidden flag of an
   * extended partition, which libparted offers but cannot change, is left out.
   */
  predicate Selected(p: PedPartition, pair: FlagPair, active: bool) {
    if active then pair.pedFlag in p.available && pair.pedFlag in p.enabled
    else pair.pedFlag in p.available && (p.partType != PedPartitionExtended || pair.flag != FlagHidden)
  }

  /** The flags of the first `n` pairs of `table` that count for the partition. */
  ghost function FlagsUpTo(table: seq<FlagPair>, p: PedPartition, n: nat, active: bool): set<Flag>
    requires n <= |table|
  {
    set j | 0 <= j < n && Selected(p, table[j], active) :: table[j].flag
  }

  /** One more pair adds its flag exactly when it counts. */
  lemma FlagsUpToStep(table: seq<FlagPair>, p: PedPartition, n: nat, active: bool)
    requires n < |table|
    ensures FlagsUpTo(table, p, n + 1, active) ==
      FlagsUpTo(table, p, n, active) + if Selected(p, table[n], active) then {table[n].flag} else {}
  {
    var next := FlagsUpTo(table, p, n + 1, active);
    forall f | f in next
      ensures f in FlagsUpTo(table, p, n, active) || (Selected(p, table[n], active) && f == table[n].flag)
    {
      var j :| 0 <= j < n + 1 && Selected(p, table[j], active) && table[j].flag == f;
    }
  }

  /** The flags `activeFlags` reports. */
  ghost function ActiveFlagSet(p: PedPartition): set<Flag> {
    if p.num <= 0 then {} else FlagsUpTo(FlagMap, p, |FlagMap|, true)
  }

  /** The flags `availableFlags` reports. */
  ghost function AvailableFlagSet(p: PedPartition): set<Flag> {
    if p.num <= 0 then {} else FlagsUpTo(FlagMap, p, |FlagMap|, false)
  }

  /** `activeFlags`: collects the flags pair by pair. */
  method ActiveFlags(p: PedPartition) returns (flags: set<Flag>)
    ensures flags == ActiveFlagSet(p)
  {
    flags := {};
    if p.num <= 0 {
      return;
    }
    for i := 0 to |FlagMap|
      invariant flags == FlagsUpTo(FlagMap, p, i, true)
    {
      FlagsUpToStep(FlagMap, p, i, true);
      if FlagMap[i].pedFlag in p.available && FlagMap[i].pedFlag in p.enabled {
        flags := flags + {FlagMap[i].flag};
      }
    }
  }

  /** `availableFlags`: collects the flags pair by pair, skipping hidden on an extended partition. */
  method AvailableFlags(p: PedPartition) returns (flags: set<Flag>)
    ensures flags == AvailableFlagSet(p)
  {
    flags := {};
    if p.num <= 0 {
      return;
    }
    for i := 0 to |FlagMap|
      invariant flags == FlagsUpTo(FlagMap, p, i, false)
    {
      FlagsUpToStep(FlagMap, p, i, false);
      if FlagMap[i].pedFlag in p.available {
        if p.partType != PedPartitionExtended || FlagMap[i].flag != FlagHidden {
          flags := flags + {FlagMap[i].flag};
        }
      }
    }
  }

  /** A flag is active exactly when its libparted flag is both offered and set (and the partition is numbered). */
  lemma ActiveFlagMeaning(p: PedPartition, i: nat)
    requires i < |FlagMap|
    ensures FlagMap[i].flag in ActiveFlagSet(p) <==>
      p.num > 0 && FlagMap[i].pedFlag in p.available && FlagMap[i].pedFlag in p.enabled
  {
    FlagMapOneToOne();
  }

  /**
   * A flag is available exactly when its libparted flag is offered, save
   * the hidden flag of an extended partition (and the partition is numbered).
   */
  lemma AvailableFlagMeaning(p: PedPartition, i: nat)
    requires i < |FlagMap|
    ensures FlagMap[i].flag in AvailableFlagSet(p) <==>
      && p.num > 0 && FlagMap[i].pedFlag in p.available
      && (p.partType == PedPartitionExtended ==> FlagMap[i].flag != FlagHidden)
  {
    FlagMapOneToOne();
  }

  /** Unnumbered entries (free space, metadata) have no flags of either kind. */
  lemma UnnumberedHasNoFlags(p: PedPartition)
    requires p.num <= 0
    ensures ActiveFlagSet(p) == {} && AvailableFlagSet(p) == {}
  {
  }

  /**
   * Every active flag is also reported available, except that the hidden
   * flag of an extended partition can be active without being available.
   */
  lemma ActiveWithinAvailable(p: PedPartition)
    ensures ActiveFlagSet(p) - {FlagHidden} <= AvailableFlagSet(p)
    ensures p.partType != PedPartitionExtended ==> ActiveFlagSet(p) <= AvailableFlagSet(p)
    ensures FlagNone !in AvailableFlagSet(p)
  {
    forall f | f in ActiveFlagSet(p)
      ensures f != FlagHidden || p.partType != PedPartitionExtended ==> f in AvailableFlagSet(p)
    {
      var i :| 0 <= i < |FlagMap| && Selected(p, FlagMap[i], true) && FlagMap[i].flag == f;
      AvailableFlagMeaning(p, i);
    }
  }

  // ----- the usable sectors of a disk -----

  const TwoTo64: int := 0x1_0000_0000_0000_0000

  /** The conversion of a signed value to `quint64`: modulo 2^64. */
  function U64(x: int): (r: int)
    ensures 0 <= r < TwoTo64
    ensures 0 <= x < TwoTo64 ==> r == x
    ensures -TwoTo64 <= x < 0 ==> r == x + TwoTo64
  {
    x % TwoTo64
  }

  /** A libparted geometry: first and last sector. */
  datatype Geometry = Geometry(start: int, end: int)

  /**
   * What libparted reports about an opened disk: the BIOS geometry, the name
   * of the partition table type and, on a GPT disk, the data area libparted
   * read from the GPT header (FirstUsableLBA and LastUsableLBA, section 5.3.2
   * of the UEFI Specification).
   */
  datatype DiskInfo = DiskInfo(sectors: int, heads: int, cylinders: int, tableType: string, gptDataArea: Option<Geometry>)

  /** sectors * heads * cylinders in 64-bit unsigned arithmetic. */
  function ChsProduct(d: DiskInfo): (r: int)
    ensures 0 <= r < TwoTo64
  {
    U64(U64(U64(d.sectors) * U64(d.heads)) * U64(d.cylinders))
  }

  /** `firstUsableSector`: the first sector a partition may cover, from the disk if there is one. */
  function FirstUsableSector(disk: Option<DiskInfo>): (first: int)
    ensures 0 <= first < TwoTo64
    ensures disk.None? ==> first == 0
    ensures disk.Some? && disk.value.tableType == "gpt" && disk.value.gptDataArea.Some? ==>
      first == U64(disk.value.gptDataArea.value.start)
  {
    match disk
    case None => 0
    case Some(d) =>
      var rval := U64(d.sectors);
      if d.tableType == "gpt" then
        match d.gptDataArea
        case Some(geom) => U64(geom.start)
        case None => U64(rval + 32)
      else rval
  }

  /** `lastUsableSector`: the last sector a partition may cover, from the disk if there is one. */
  function LastUsableSector(disk: Option<DiskInfo>): (last: int)
    ensures 0 <= last < TwoTo64
    ensures disk.None? ==> last == 0
    ensures disk.Some? && disk.value.tableType == "gpt" && disk.value.gptDataArea.Some? ==>
      last == U64(disk.value.gptDataArea.value.end)
  {
    match disk
    case None => 0
    case Some(d) =>
      var rval := U64(ChsProduct(d) - 1);
      if d.tableType == "gpt" then
        match d.gptDataArea
        case Some(geom) => U64(geom.end)
        case None => U64(rval - 32)
      else rval
  }

  /** Bounds of a product of two bounded naturals. */
  lemma ProductBound(a: int, b: int, bound: int)
    requires 0 <= a < bound && 0 <= b < bound
    ensures 0 <= a * b < bound * bound
  {
    if b > 0 {
      assert a * b <= a * bound;
      assert a * bound < bound * bound;
    }
  }

  /**
   * Off GPT the usable range is the BIOS geometry's: from sector
   * `sectors` (the first track is skipped) to the last of
   * sectors * heads * cylinders, when the geometry's values are
   * non-negative `int`s whose product fits in 64 bits.
   */
  lemma NonGptUsableRange(d: DiskInfo)
    requires d.tableType != "gpt"
    requires 0 <= d.sectors < 0x8000_0000 && 0 <= d.heads < 0x8000_0000 && 0 <= d.cylinders < 0x8000_0000
    requires 0 < d.sectors * d.heads * d.cylinders < TwoTo64
    ensures FirstUsableSector(Some(d)) == d.sectors
    ensures LastUsableSector(Some(d)) == d.sectors * d.heads * d.cylinders - 1
  {
    ProductBound(d.sectors, d.heads, 0x8000_0000);
    assert U64(d.sectors * d.heads) == d.sectors * d.heads;
    assert ChsProduct(d) == d.sectors * d.heads * d.cylinders;
  }

  /**
   * Off GPT, a disk that reports a zero in its geometry gets the largest
   * 64-bit value as its last usable sector: the subtraction of one wraps.
   */
  lemma ZeroGeometryWraps(d: DiskInfo)
    requires d.tableType != "gpt"
    requires d.sectors == 0 || d.heads == 0 || d.cylinders == 0
    ensures LastUsableSector(Some(d)) == TwoTo64 - 1
  {
    if d.sectors == 0 {
      assert U64(d.sectors) * U64(d.heads) == 0;
    } else if d.heads == 0 {
      assert U64(d.sectors) * U64(d.heads) == 0;
    }
    assert ChsProduct(d) == 0;
  }

  /**
   * On GPT without a data area, the range is the BIOS one narrowed by 32
   * sectors at each end.
   */
  lemma GptWithoutDataArea(d: DiskInfo)
    requires d.tableType == "gpt" && d.gptDataArea.None?
    ensures FirstUsableSector(Some(d)) == U64(U64(d.sectors) + 32)
    ensures LastUsableSector(Some(d)) == U64(U64(ChsProduct(d) - 1) - 32)
  {
  }

  // ----- the device scan -----

  /** libparted's PedDeviceType, as far as the scan tells them apart. */
  datatype DeviceType = DeviceMapper | LoopDevice | OtherDevice

  /** A device `ped_device_get_next` returned: its path, its type and whether it is read-only. */
  datatype ProbedDevice = ProbedDevice(path: string, deviceType: DeviceType, readOnly: bool)

  /** Is the probed device scanned? Device-mapper devices never are; loop and read-only ones not when excluded. */
  predicate Scanned(d: ProbedDevice, excludeReadOnly: bool) {
    d.deviceType != DeviceMapper && !(excludeReadOnly && (d.deviceType == LoopDevice || d.readOnly))
  }

  /** The paths of the scanned devices, in probe order. */
  function ScannedPaths(probed: seq<ProbedDevice>, excludeReadOnly: bool): (paths: seq<string>)
    ensures |paths| <= |probed|
    ensures forall p :: p in paths <==> exists d :: d in probed && Scanned(d, excludeReadOnly) && d.path == p
  {
    if probed == [] then []
    else
      var rest := ScannedPaths(probed[..|probed| - 1], excludeReadOnly);
      var last := probed[|probed| - 1];
      assert probed == probed[..|probed| - 1] + [last];
      if Scanned(last, excludeReadOnly) then rest + [last.path] else rest
  }

  /** The devices `scanDevice` created, in the order of `paths`. */
  function Collected<D>(paths: seq<string>, scanDevice: string -> Option<D>): (devices: seq<D>)
    ensures |devices| <= |paths|
    ensures forall i :: 0 <= i < |paths| && scanDevice(paths[i]).Some? ==> scanDevice(paths[i]).value in devices
  {
    if paths == [] then []
    else
      var rest := Collected(paths[..|paths| - 1], scanDevice);
      var device := scanDevice(paths[|paths| - 1]);
      if device.Some? then rest + [device.value] else rest
  }

  /**
   * The positions in `paths` where `scanDevice` created a device: every such
   * position, and no other, in increasing order.
   */
  function CreatedAt<D>(paths: seq<string>, scanDevice: string -> Option<D>): (idx: seq<nat>)
    ensures forall m :: 0 <= m < |idx| ==> idx[m] < |paths| && scanDevice(paths[idx[m]]).Some?
    ensures forall m, n :: 0 <= m < n < |idx| ==> idx[m] < idx[n]
    ensures forall i :: 0 <= i < |paths| && scanDevice(paths[i]).Some? ==> i in idx
  {
    if paths == [] then []
    else
      var init := paths[..|paths| - 1];
      var rest := CreatedAt(init, scanDevice);
      assert forall m :: 0 <= m < |rest| ==> paths[rest[m]] == init[rest[m]];
      assert forall i :: 0 <= i < |init| ==> paths[i] == init[i];
      if scanDevice(paths[|paths| - 1]).Some? then rest + [|paths| - 1] else rest
  }

  /**
   * The scan keeps exactly the devices it could create, in path order: the
   * m-th device kept is the one created for the m-th successful path.
   */
  lemma {:induction false} CollectedInOrder<D>(paths: seq<string>, scanDevice: string -> Option<D>)
    ensures var devices := Collected(paths, scanDevice);
      var idx := CreatedAt(paths, scanDevice);
      && |devices| == |idx|
      && forall m :: 0 <= m < |idx| ==> devices[m] == scanDevice(paths[idx[m]]).value
  {
    if paths != [] {
      var init := paths[..|paths| - 1];
      CollectedInOrder(init, scanDevice);
      var rest := CreatedAt(init, scanDevice);
      var restDevices := Collected(init, scanDevice);
      var devices := Collected(paths, scanDevice);
      var idx := CreatedAt(paths, scanDevice);
      var last := scanDevice(paths[|paths| - 1]);
      if last.Some? {
        assert devices == restDevices + [last.value] && idx == rest + [|paths| - 1];
      } else {
        assert devices == restDevices && idx == rest;
      }
      forall m | 0 <= m < |idx|
        ensures devices[m] == scanDevice(paths[idx[m]]).value
      {
        if m < |rest| {
          assert devices[m] == restDevices[m] && idx[m] == rest[m];
          assert paths[rest[m]] == init[rest[m]];
        }
      }
    }
  }

  /** The progress the scan reports before scanning device `i` of `total`. */
  function Progress(i: int, total: int): int
    requires total > 0
  {
    i * 100 / total
  }

  /** The progress stays within 0 to 99 for every device index. */
  lemma ProgressInRange(i: int, total: int)
    requires 0 <= i < total
    ensures 0 <= Progress(i, total) < 100
  {
    var q := Progress(i, total);
    assert i * 100 == q * total + (i * 100) % total;
    assert (q - 100) * total < 0;
  }

  /**
   * `scanDevices`: lists the paths of the devices to scan, then scans them in
   * order, reporting progress before each, and keeps the devices that could
   * be created.
   */
  method ScanDevices<D>(probed: seq<ProbedDevice>, excludeReadOnly: bool, scanDevice: string -> Option<D>)
    returns (result: seq<D>, paths: seq<string>, progress: seq<int>)
    ensures paths == ScannedPaths(probed, excludeReadOnly)
    ensures |progress| == |paths|
    ensures forall i :: 0 <= i < |progress| ==> progress[i] == Progress(i, |paths|)
    ensures result == Collected(paths, scanDevice)
  {
    paths := [];
    for k := 0 to |probed|
      invariant paths == ScannedPaths(probed[..k], excludeReadOnly)
    {
      assert probed[..k + 1][..k] == probed[..k];
      if Scanned(probed[k], excludeReadOnly) {
        paths := paths + [probed[k].path];
      }
    }
    assert probed[..|probed|] == probed;
    result := [];
    progress := [];
    var total := |paths|;
    for i := 0 to total
      invariant |progress| == i
      invariant forall j :: 0 <= j < i ==> progress[j] == Progress(j, total)
      invariant result == Collected(paths[..i], scanDevice)
    {
      progress := progress + [Progress(i, total)];
      assert paths[..i + 1][..i] == paths[..i];
      var d := scanDevice(paths[i]);
      if d.Some? {
        result := result + [d.value];
      }
    }
    assert paths[..total] == paths;
  }

  // ----- the roles of scanned partitions -----

  /** The role a scanned partition gets. */
  datatype Role = Primary | Extended | Logical

  /** The file system type of a scanned partition: the extended marker, or what detection found. */
  datatype FileSystemType = ExtendedFileSystem | DetectedFileSystem(name: string)

  /** One entry `ped_disk_next_partition` returns, with the file system detected on it. */
  datatype PedEntry = PedEntry(num: int, partType: int, detected: string)

  /** A partition the scan creates: its number, role and file system type. */
  datatype ScannedPartition = ScannedPartition(number: int, role: Role, fsType: FileSystemType)

  /** The role and file system of one entry, or None for an entry the scan skips. */
  function ScanEntry(e: PedEntry): (r: Option<ScannedPartition>)
    ensures r.Some? <==> e.num >= 1 && e.partType in {PedPartitionNormal, PedPartitionLogical, PedPartitionExtended}
    ensures r.Some? ==> r.value.number == e.num
    ensures r.Some? ==> (r.value.role == Primary <==> e.partType == PedPartitionNormal)
    ensures r.Some? ==> (r.value.role == Logical <==> e.partType == PedPartitionLogical)
    ensures r.Some? ==> (r.value.role == Extended <==> e.partType == PedPartitionExtended)
    ensures r.Some? ==> r.value.fsType == if r.value.role == Extended then ExtendedFileSystem else DetectedFileSystem(e.detected)
  {
    if e.num < 1 then None
    else if e.partType == PedPartitionNormal then Some(ScannedPartition(e.num, Primary, DetectedFileSystem(e.detected)))
    else if e.partType == PedPartitionExtended then Some(ScannedPartition(e.num, Extended, ExtendedFileSystem))
    else if e.partType == PedPartitionLogical then Some(ScannedPartition(e.num, Logical, DetectedFileSystem(e.detected)))
    else None
  }

  /** The partitions the scan creates from the entries, in libparted's order. */
  function ScanAll(entries: seq<PedEntry>): (parts: seq<ScannedPartition>)
    ensures |parts| <= |entries|
    ensures forall p :: p in parts <==> exists e :: e in entries && ScanEntry(e) == Some(p)
  {
    if entries == [] then []
    else
      var rest := ScanAll(entries[..|entries| - 1]);
      var last := entries[|entries| - 1];
      assert entries == entries[..|entries| - 1] + [last];
      match ScanEntry(last)
      case Some(p) => rest + [p]
      case None => rest
  }

  /**
   * The role mapping of `scanDevicePartitions`: walks libparted's entries,
   * skipping unnumbered ones and those of other types.
   */
  method ScanDevicePartitions(entries: seq<PedEntry>) returns (partitions: seq<ScannedPartition>)
    ensures partitions == ScanAll(entries)
  {
    partitions := [];
    for k := 0 to |entries|
      invariant partitions == ScanAll(entries[..k])
    {
      assert entries[..k + 1][..k] == entries[..k];
      var e := entries[k];
      if e.num < 1 {
        continue;
      }
      var role: Role;
      var fsType := DetectedFileSystem(e.detected);
      if e.partType == PedPartitionNormal {
        role := Primary;
      } else if e.partType == PedPartitionExtended {
        role := Extended;
        fsType := ExtendedFileSystem;
      } else if e.partType == PedPartitionLogical {
        role := Logical;
      } else {
        continue;
      }
      partitions := partitions + [ScannedPartition(e.num, role, fsType)];
    }
    assert entries[..|entries|] == entries;
  }

  /** Every scanned partition is numbered, and an extended one always carries the extended file system type. */
  lemma ScannedPartitionsWellFormed(entries: seq<PedEntry>)
    ensures forall p :: p in ScanAll(entries) ==> p.number >= 1
    ensures forall p :: p in ScanAll(entries) ==> (p.role == Extended <==> p.fsType == ExtendedFileSystem)
  {
    forall p | p in ScanAll(entries)
      ensures p.number >= 1 && (p.role == Extended <==> p.fsType == ExtendedFileSystem)
    {
      var e :| e in entries && ScanEntry(e) == Some(p);
    }
  }
}
