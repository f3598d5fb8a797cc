/**
 * The ext2 file system's capability table and its use of the e2fsprogs tools.
 *
 * The external tools are inputs: `ToolsFound` records what `findExternal`
 * answered for each e2fsprogs program, and `run(invocation)` gives what
 * running a command produced, as (did it run, exit code, output).
 */
module Ext2 {
  import opened Wrappers
  import opened Decimal

  /** FileSystem::CommandSupportType. Only the value of cmdSupportNone, zero, matters here. */
  datatype CommandSupport = CmdSupportNone | CmdSupportCore | CmdSupportFileSystem | CmdSupportBackend {
    function Code(): (c: int)
      ensures c == 0 <==> this == CmdSupportNone
    {
      match this
      case CmdSupportNone => 0
      case CmdSupportCore => 1
      case CmdSupportFileSystem => 2
      case CmdSupportBackend => 4
    }
  }

  /** The conditional `condition ? level : cmdSupportNone` that `init` uses for every field. */
  function SupportIf(condition: bool, level: CommandSupport): (s: CommandSupport)
    ensures s != CmdSupportNone <==> condition && level != CmdSupportNone
  {
    if condition then level else CmdSupportNone
  }

  /**
   * What `findExternal` answered for each program `init` looks for (e2fsck is
   * probed as `e2fsck -V`, the others without arguments).
   */
  datatype ToolsFound = ToolsFound(dumpe2fs: bool, e2label: bool, mkfsExt2: bool, e2fsck: bool, tune2fs: bool, resize2fs: bool)

  /** C++'s conversion of a bool to an integer. */
  function BoolToInt(b: bool): int {
    if b then 1 else 0
  }

  /** The twelve static support fields of the ext2 class, as one value. */
  datatype SupportLevels = SupportLevels(
    getUsed: CommandSupport, getLabel: CommandSupport, create: CommandSupport,
    grow: CommandSupport, shrink: CommandSupport, move: CommandSupport,
    check: CommandSupport, copy: CommandSupport, backup: CommandSupport,
    setLabel: CommandSupport, updateUUID: CommandSupport, getUUID: CommandSupport)
  {
    /** `supportToolFound`: every one of the twelve capabilities is supported somehow. */
    predicate SupportToolFound() {
      && getUsed != CmdSupportNone
      && getLabel != CmdSupportNone
      && setLabel != CmdSupportNone
      && create != CmdSupportNone
      && check != CmdSupportNone
      && updateUUID != CmdSupportNone
      && grow != CmdSupportNone
      && shrink != CmdSupportNone
      && copy != CmdSupportNone
      && move != CmdSupportNone
      && backup != CmdSupportNone
      && getUUID != CmdSupportNone
    }

    /** The levels `init` derives, given which tools `findExternal` found. */
    predicate InitializedFrom(tools: ToolsFound) {
      && getUsed == SupportIf(tools.dumpe2fs, CmdSupportFileSystem)
      && getLabel == CmdSupportCore
      && setLabel == SupportIf(tools.e2label, CmdSupportFileSystem)
      && create == SupportIf(tools.mkfsExt2, CmdSupportFileSystem)
      && check == SupportIf(tools.e2fsck, CmdSupportFileSystem)
      && updateUUID == SupportIf(tools.tune2fs, CmdSupportFileSystem)
      && grow == SupportIf(check != CmdSupportNone && tools.resize2fs, CmdSupportFileSystem)
      && shrink == SupportIf(BoolToInt(grow != CmdSupportNone && getUsed.Code() != 0) != CmdSupportNone.Code(), CmdSupportFileSystem)
      && copy == SupportIf(check != CmdSupportNone, CmdSupportCore)
      && move == SupportIf(check != CmdSupportNone, CmdSupportCore)
      && backup == CmdSupportCore
      && getUUID == CmdSupportCore
    }
  }

  /** Every capability unsupported: the fields' initial values. */
  const NoSupport := SupportLevels(
    CmdSupportNone, CmdSupportNone, CmdSupportNone, CmdSupportNone, CmdSupportNone, CmdSupportNone,
    CmdSupportNone, CmdSupportNone, CmdSupportNone, CmdSupportNone, CmdSupportNone, CmdSupportNone)

  /** The class's static storage: the support levels that `init` overwrites. */
  class Ext2Support {
    var levels: SupportLevels

    /** Before `init` runs, nothing is supported. */
    constructor ()
      ensures levels == NoSupport
    {
      levels := NoSupport;
    }

    /** `init`: derives each support level from the tools found, one after another. */
    method Init(tools: ToolsFound)
      modifies this
      ensures levels.InitializedFrom(tools)
    {
      var getUsed := SupportIf(tools.dumpe2fs, CmdSupportFileSystem);
      var getLabel := CmdSupportCore;
      var setLabel := SupportIf(tools.e2label, CmdSupportFileSystem);
      var create := SupportIf(tools.mkfsExt2, CmdSupportFileSystem);
      var check := SupportIf(tools.e2fsck, CmdSupportFileSystem);
      var updateUUID := SupportIf(tools.tune2fs, CmdSupportFileSystem);
      var grow := SupportIf(check != CmdSupportNone && tools.resize2fs, CmdSupportFileSystem);
      var shrink := SupportIf(BoolToInt(grow != CmdSupportNone && getUsed.Code() != 0) != CmdSupportNone.Code(), CmdSupportFileSystem);
      var copy := SupportIf(check != CmdSupportNone, CmdSupportCore);
      var move := SupportIf(check != CmdSupportNone, CmdSupportCore);
      var backup := CmdSupportCore;
      var getUUID := CmdSupportCore;
      levels := SupportLevels(getUsed, getLabel, create, grow, shrink, move, check, copy, backup, setLabel, updateUUID, getUUID);
    }
  }

  /** The tool-dependencies `init` sets up between the capabilities. */
  lemma InitDependencies(l: SupportLevels, tools: ToolsFound)
    requires l.InitializedFrom(tools)
    ensures l.grow == CmdSupportFileSystem <==> l.check != CmdSupportNone && tools.resize2fs
    ensures l.shrink == CmdSupportFileSystem <==> l.grow != CmdSupportNone && l.getUsed != CmdSupportNone
    ensures l.copy == CmdSupportCore <==> l.check != CmdSupportNone
    ensures l.move == CmdSupportCore <==> l.check != CmdSupportNone
    ensures l.getLabel == l.backup == l.getUUID == CmdSupportCore
  {
  }

  /**
   * After `init`, `supportToolFound` holds exactly when all six e2fsprogs
   * tools were found.
   */
  lemma SupportToolFoundAfterInit(l: SupportLevels, tools: ToolsFound)
    requires l.InitializedFrom(tools)
    ensures l.SupportToolFound() <==>
      && tools.dumpe2fs && tools.e2label && tools.mkfsExt2
      && tools.e2fsck && tools.tune2fs && tools.resize2fs
  {
  }

  const MiB: int := 1024 * 1024
  const TiB: int := 1024 * 1024 * 1024 * 1024

  /** `maxCapacity`: 16 TiB less 1 MiB, in bytes. */
  function MaxCapacity(): (bytes: int)
    ensures bytes + MiB == 16 * TiB
    ensures bytes % 512 == 0 && 0 < bytes <= Int64Max
  {
    16 * TiB - MiB
  }

  /** `maxLabelLength`: an ext2 label holds at most 16 characters. */
  function MaxLabelLength(): (n: int)
    ensures n == 16
  {
    16
  }

  /** One command line: the program and its arguments. */
  datatype Invocation = Invocation(program: string, args: seq<string>)

  /** What running a command produced: whether it ran, its exit code, its standard output. */
  datatype CommandResult = CommandResult(ran: bool, exitCode: int, output: string)

  /** The acceptance rule of every ext2 command except the check: it ran and exited with 0. */
  predicate ExitedCleanly(cmd: CommandResult) {
    cmd.ran && cmd.exitCode == 0
  }

  /** `check`: e2fsck succeeds when it ran and exited with 0, 1, 2 or 256. */
  function Check(deviceNode: string, run: Invocation -> CommandResult): (ok: bool)
    ensures var cmd := run(Invocation("e2fsck", ["-f", "-y", "-v", deviceNode]));
      ok <==> ExitedCleanly(cmd) || (cmd.ran && cmd.exitCode in {1, 2, 256})
  {
    var cmd := run(Invocation("e2fsck", ["-f", "-y", "-v", deviceNode]));
    cmd.ran && (cmd.exitCode == 0 || cmd.exitCode == 1 || cmd.exitCode == 2 || cmd.exitCode == 256)
  }

  /** `create`: mkfs.ext2 -qF on the device node. */
  function Create(deviceNode: string, run: Invocation -> CommandResult): (ok: bool)
    ensures ok <==> ExitedCleanly(run(Invocation("mkfs.ext2", ["-qF", deviceNode])))
  {
    var cmd := run(Invocation("mkfs.ext2", ["-qF", deviceNode]));
    cmd.ran && cmd.exitCode == 0
  }

  /** The command `resize` runs: resize2fs with the new length in whole 512-byte sectors. */
  function ResizeInvocation(deviceNode: string, length: int): (inv: Invocation)
    ensures inv.program == "resize2fs" && |inv.args| == 2 && inv.args[0] == deviceNode
  {
    Invocation("resize2fs", [deviceNode, IntToString(TruncDiv(length, 512)) + "s"])
  }

  /** `resize`: resize2fs to the given length. */
  function Resize(deviceNode: string, length: int, run: Invocation -> CommandResult): (ok: bool)
    ensures ok <==> ExitedCleanly(run(ResizeInvocation(deviceNode, length)))
  {
    var cmd := run(ResizeInvocation(deviceNode, length));
    cmd.ran && cmd.exitCode == 0
  }

  /**
   * The size argument of resize2fs is a count of 512-byte sectors followed
   * by "s"; for a non-negative length it is the largest count that does not
   * exceed the length.
   */
  lemma ResizeLengthArgument(deviceNode: string, length: int)
    ensures var arg := ResizeInvocation(deviceNode, length).args[1];
      |arg| >= 2 && arg[|arg| - 1] == 's' &&
      ParseInt(arg[..|arg| - 1]) == TruncDiv(length, 512)
    ensures length >= 0 ==>
      var sectors := TruncDiv(length, 512);
      sectors * 512 <= length < (sectors + 1) * 512
  {
    var arg := ResizeInvocation(deviceNode, length).args[1];
    var text := IntToString(TruncDiv(length, 512));
    assert arg[..|arg| - 1] == text;
    IntToStringRoundTrip(TruncDiv(length, 512));
  }

  /** `writeLabel`: e2label with the device node and the new label. */
  function WriteLabel(deviceNode: string, newLabel: string, run: Invocation -> CommandResult): (ok: bool)
    ensures ok <==> ExitedCleanly(run(Invocation("e2label", [deviceNode, newLabel])))
  {
    var cmd := run(Invocation("e2label", [deviceNode, newLabel]));
    cmd.ran && cmd.exitCode == 0
  }

  /** `writeLabelOnline`: the mount point plays no part; the label is written as offline. */
  function WriteLabelOnline(deviceNode: string, mountPoint: string, newLabel: string, run: Invocation -> CommandResult): (ok: bool)
    ensures ok <==> ExitedCleanly(run(Invocation("e2label", [deviceNode, newLabel])))
  {
    WriteLabel(deviceNode, newLabel, run)
  }

  /** `updateUUID`: tune2fs -U random on the device node. */
  function UpdateUUID(deviceNode: string, run: Invocation -> CommandResult): (ok: bool)
    ensures ok <==> ExitedCleanly(run(Invocation("tune2fs", ["-U", "random", deviceNode])))
  {
    var cmd := run(Invocation("tune2fs", ["-U", "random", deviceNode]));
    cmd.ran && cmd.exitCode == 0
  }

  /**
   * e2fsck accepts every outcome the other commands accept; the only extra
   * outcomes it accepts are the exit codes 1, 2 and 256 of a command that
   * ran, and a command that did not run fails whatever its exit code.
   */
  lemma CheckIsMoreLenient(deviceNode: string, run: Invocation -> CommandResult)
    ensures var cmd := run(Invocation("e2fsck", ["-f", "-y", "-v", deviceNode]));
      && (ExitedCleanly(cmd) ==> Check(deviceNode, run))
      && (Check(deviceNode, run) && !ExitedCleanly(cmd) ==> cmd.exitCode in {1, 2, 256})
      && (!cmd.ran ==> !Check(deviceNode, run))
  {
  }

  /** The mount point makes no difference: writing a label online is writing it offline. */
  lemma WriteLabelOnlineIgnoresMountPoint(deviceNode: string, mountPoint: string, otherMountPoint: string,
                                          newLabel: string, run: Invocation -> CommandResult)
    ensures WriteLabelOnline(deviceNode, mountPoint, newLabel, run) == WriteLabelOnline(deviceNode, otherMountPoint, newLabel, run)
    ensures WriteLabelOnline(deviceNode, mountPoint, newLabel, run) == WriteLabel(deviceNode, newLabel, run)
  {
  }

  // ----- parsing the header that `dumpe2fs -h` prints -----

  /** `\s` of a regular expression without Unicode properties: the six ASCII white-space characters. */
  predicate IsSpace(c: char) {
    c == ' ' || c == '\t' || c == '\n' || c == '\r' || c as int == 11 || c as int == 12
  }

  /** First index at or after `i` whose character is not white space. */
  function SkipSpaces(s: string, i: nat): (j: nat)
    requires i <= |s|
    ensures i <= j <= |s|
    ensures forall k :: i <= k < j ==> IsSpace(s[k])
    ensures j < |s| ==> !IsSpace(s[j])
    decreases |s| - i
  {
    if i == |s| || !IsSpace(s[i]) then i else SkipSpaces(s, i + 1)
  }

  /** First index at or after `i` whose character is not a digit. */
  function SkipDigits(s: string, i: nat): (j: nat)
    requires i <= |s|
    ensures i <= j <= |s|
    ensures forall k :: i <= k < j ==> IsDigit(s[k])
    ensures j < |s| ==> !IsDigit(s[j])
    decreases |s| - i
  {
    if i == |s| || !IsDigit(s[i]) then i else SkipDigits(s, i + 1)
  }

  /**
   * The text captured by `name\s+(\d+)` when the match starts at index `i`:
   * the name, at least one white-space character, then the whole run of
   * digits that follows.
   */
  function MatchAt(name: string, text: string, i: nat): (captured: Option<string>)
    requires i <= |text|
    ensures captured.Some? ==> captured.value != [] && IsDigits(captured.value)
  {
    var afterLabel := i + |name|;
    if afterLabel <= |text| && text[i..afterLabel] == name then
      var digitsStart := SkipSpaces(text, afterLabel);
      if afterLabel < digitsStart < |text| && IsDigit(text[digitsStart]) then
        Some(text[digitsStart..SkipDigits(text, digitsStart)])
      else None
    else None
  }

  /** The first match of `name\s+(\d+)` starting at or after index `i`. */
  function FindFrom(name: string, text: string, i: nat): (captured: Option<string>)
    requires i <= |text|
    ensures captured.Some? ==> captured.value != [] && IsDigits(captured.value)
    decreases |text| - i
  {
    match MatchAt(name, text, i)
    case Some(digits) => Some(digits)
    case None => if i == |text| then None else FindFrom(name, text, i + 1)
  }

  /**
   * Where the leftmost match at or after `i` starts: the first index where the
   * pattern matches, or |text| + 1 when it matches nowhere from `i` on.
   */
  function MatchIndex(name: string, text: string, i: nat): (j: nat)
    requires i <= |text|
    ensures i <= j <= |text| + 1
    ensures forall k :: i <= k < j && k <= |text| ==> MatchAt(name, text, k).None?
    ensures j <= |text| ==> MatchAt(name, text, j).Some?
    decreases |text| - i
  {
    if MatchAt(name, text, i).Some? then i
    else if i == |text| then i + 1
    else MatchIndex(name, text, i + 1)
  }

  /** `FindFrom` captures what the leftmost match captures, and nothing when there is none. */
  lemma {:induction false} FindFromLeftmost(name: string, text: string, i: nat)
    requires i <= |text|
    ensures var j := MatchIndex(name, text, i);
      FindFrom(name, text, i) == if j <= |text| then MatchAt(name, text, j) else None
    decreases |text| - i
  {
    if MatchAt(name, text, i).None? && i < |text| {
      FindFromLeftmost(name, text, i + 1);
    }
  }

  /** The number after `name` in `text`, read with `toLongLong`, if the pattern matches. */
  function FieldValue(name: string, text: string): (value: Option<int>)
    ensures value.Some? ==> 0 <= value.value <= Int64Max
  {
    match FindFrom(name, text, 0)
    case Some(digits) => Some(ToLongLong(digits))
    case None => None
  }

  /** The command `readUsedCapacity` runs. */
  function DumpInvocation(deviceNode: string): Invocation {
    Invocation("dumpe2fs", ["-h", deviceNode])
  }

  /** The bytes in use: the blocks that are not free, times the block size. */
  function UsedBytes(blockCount: int, freeBlocks: int, blockSize: int): int {
    (blockCount - freeBlocks) * blockSize
  }

  /**
   * What `readUsedCapacity` makes of the dumpe2fs command's outcome: the
   * bytes in use, (block count - free blocks) * block size, or -1 when the
   * command did not run or a field is missing.
   */
  function UsedCapacity(cmd: CommandResult): (used: int)
    ensures var count := FieldValue("Block count:", cmd.output);
      var free := FieldValue("Free blocks:", cmd.output);
      var size := FieldValue("Block size:", cmd.output);
      && (!cmd.ran || count.None? || free.None? || size.None? ==> used == -1)
      && (cmd.ran && count.Some? && free.Some? && size.Some? ==>
            used == UsedBytes(count.value, free.value, size.value))
  {
    if cmd.ran then
      var blockCount := FieldValue("Block count:", cmd.output).GetOr(-1);
      var freeBlocks := FieldValue("Free blocks:", cmd.output).GetOr(-1);
      var blockSize := FieldValue("Block size:", cmd.output).GetOr(-1);
      if blockCount > -1 && freeBlocks > -1 && blockSize > -1 then UsedBytes(blockCount, freeBlocks, blockSize)
      else -1
    else -1
  }

  /** `readUsedCapacity`: runs `dumpe2fs -h` on the device node and reads its header. */
  function ReadUsedCapacity(deviceNode: string, run: Invocation -> CommandResult): (used: int)
    ensures used == -1 || run(DumpInvocation(deviceNode)).ran
  {
    UsedCapacity(run(DumpInvocation(deviceNode)))
  }

  // ----- a header as dumpe2fs prints it, read back -----

  /** The white space dumpe2fs puts between a field name and its value to align the values. */
  predicate IsPadding(pad: string) {
    pad != [] && forall k :: 0 <= k < |pad| ==> IsSpace(pad[k])
  }

  /** One header line: the field name, padding, the value's digits, a newline. */
  function HeaderLine(name: string, pad: string, value: nat): (line: string)
    ensures |line| == |name| + |pad| + |NatToString(value)| + 1
  {
    name + pad + NatToString(value) + "\n"
  }

  /** `name` occurs in `s` at index `j`. */
  predicate OccursAt(name: string, s: string, j: nat) {
    j + |name| <= |s| && s[j..j + |name|] == name
  }

  /** `name` occurs somewhere in `s`. */
  predicate Occurs(name: string, s: string) {
    exists j: nat :: j <= |s| && OccursAt(name, s, j)
  }

  /** `s` is made of whole lines: it is empty or ends with a newline. */
  predicate WholeLines(s: string) {
    s == [] || s[|s| - 1] == '\n'
  }

  /** Positions where no match starts do not change the first match. */
  lemma {:induction false} SkipNonMatching(name: string, text: string, start: nat, stop: nat)
    requires start <= stop <= |text|
    requires forall j :: start <= j < stop ==> MatchAt(name, text, j).None?
    ensures FindFrom(name, text, start) == FindFrom(name, text, stop)
    decreases stop - start
  {
    if start < stop {
      SkipNonMatching(name, text, start + 1, stop);
    }
  }

  /**
   * The pattern cannot match inside whole lines that do not contain the field
   * name, since a name without a newline cannot run across the line end.
   */
  lemma NoMatchInLines(name: string, before: string, rest: string)
    requires '\n' !in name
    requires WholeLines(before) && !Occurs(name, before)
    ensures forall j :: 0 <= j < |before| ==> MatchAt(name, before + rest, j).None?
  {
    var text := before + rest;
    forall j | 0 <= j < |before|
      ensures !OccursAt(name, text, j)
      ensures MatchAt(name, text, j).None?
    {
      if j + |name| <= |before| {
        assert before[j..j + |name|] == text[j..j + |name|];
        assert !OccursAt(name, before, j);
      } else if j + |name| <= |text| {
        var m := |before| - 1 - j;
        assert text[j..j + |name|][m] == '\n';
      }
    }
  }

  /**
   * The shape the pattern looks for: the name at `i`, white space up to `d`,
   * digits from `d` up to `e` and no digit at `e`. The match captures exactly
   * those digits.
   */
  lemma MatchAtLayout(name: string, text: string, i: nat, d: nat, e: nat)
    requires i + |name| < d < e <= |text|
    requires text[i..i + |name|] == name
    requires forall k :: i + |name| <= k < d ==> IsSpace(text[k])
    requires forall k :: d <= k < e ==> IsDigit(text[k])
    requires e < |text| ==> !IsDigit(text[e])
    ensures MatchAt(name, text, i) == Some(text[d..e])
  {
    assert IsDigit(text[d]) && !IsSpace(text[d]);
    assert SkipSpaces(text, i + |name|) == d;
    assert SkipDigits(text, d) == e;
  }

  /** A header line at index `i` matches its own field name there and captures the value's digits. */
  lemma MatchHeaderLine(name: string, pad: string, value: nat, text: string, i: nat)
    requires IsPadding(pad)
    requires i + |HeaderLine(name, pad, value)| <= |text|
    requires text[i..i + |HeaderLine(name, pad, value)|] == HeaderLine(name, pad, value)
    ensures MatchAt(name, text, i) == Some(NatToString(value))
  {
    var line := HeaderLine(name, pad, value);
    var digits := NatToString(value);
    var a := i + |name|;
    var d := a + |pad|;
    var e := d + |digits|;
    forall k | i <= k < i + |line|
      ensures text[k] == line[k - i]
    {
      assert text[i..i + |line|][k - i] == text[k];
    }
    assert text[i..a] == name by {
      assert line[..|name|] == name;
    }
    forall k | a <= k < d
      ensures IsSpace(text[k])
    {
      assert line[k - i] == pad[k - a];
    }
    forall k | d <= k < e
      ensures text[k] == digits[k - d]
    {
      assert line[k - i] == digits[k - d];
    }
    assert text[e] == line[e - i];
    MatchAtLayout(name, text, i, d, e);
    assert text[d..e] == digits;
  }

  /**
   * A field's header line placed after text where the pattern never matches
   * is the one `readUsedCapacity` reads the field from.
   */
  lemma FieldFromLine(name: string, pad: string, value: nat, before: string, after: string)
    requires value <= Int64Max && IsPadding(pad)
    requires forall j :: 0 <= j < |before| ==> MatchAt(name, before + HeaderLine(name, pad, value) + after, j).None?
    ensures FieldValue(name, before + HeaderLine(name, pad, value) + after) == Some(value)
  {
    var line := HeaderLine(name, pad, value);
    var text := before + line + after;
    SkipNonMatching(name, text, 0, |before|);
    assert text[|before|..|before| + |line|] == line;
    MatchHeaderLine(name, pad, value, text, |before|);
  }

  /**
   * Where a field's line sits in a dumpe2fs header: the lines printed before
   * it, the padding that aligns its value, the value, and the text after it.
   */
  datatype FieldLine = FieldLine(before: string, pad: string, value: nat, after: string) {
    /** The whole header as seen from this field. */
    function Text(name: string): string {
      before + HeaderLine(name, pad, value) + after
    }

    /**
     * dumpe2fs prints whole lines, pads with white space and prints a value
     * that fits a qint64; no earlier line holds the field's name.
     */
    predicate PrintedFor(name: string) {
      IsPadding(pad) && WholeLines(before) && !Occurs(name, before) && value <= Int64Max
    }
  }

  /** `output` is a header in which `field` is the line dumpe2fs printed for `name`. */
  predicate HasField(output: string, name: string, field: FieldLine) {
    output == field.Text(name) && field.PrintedFor(name)
  }

  /** A field is read from its own line wherever that line sits in the header. */
  lemma FieldOfHeader(output: string, name: string, field: FieldLine)
    requires HasField(output, name, field)
    requires '\n' !in name
    ensures FieldValue(name, output) == Some(field.value)
  {
    NoMatchInLines(name, field.before, HeaderLine(name, field.pad, field.value) + field.after);
    assert field.before + (HeaderLine(name, field.pad, field.value) + field.after) == field.Text(name);
    FieldFromLine(name, field.pad, field.value, field.before, field.after);
  }

  /**
   * `readUsedCapacity` on a header that holds the three fields, each on its
   * own line with any padding and any other lines before and between them,
   * reads back exactly (block count - free blocks) * block size bytes.
   */
  lemma UsedCapacityOfHeader(cmd: CommandResult, count: FieldLine, free: FieldLine, size: FieldLine)
    requires cmd.ran
    requires HasField(cmd.output, "Block count:", count)
    requires HasField(cmd.output, "Free blocks:", free)
    requires HasField(cmd.output, "Block size:", size)
    ensures UsedCapacity(cmd) == UsedBytes(count.value, free.value, size.value)
  {
    assert '\n' !in "Block count:" && '\n' !in "Free blocks:" && '\n' !in "Block size:";
    FieldOfHeader(cmd.output, "Block count:", count);
    FieldOfHeader(cmd.output, "Free blocks:", free);
    FieldOfHeader(cmd.output, "Block size:", size);
  }
}
