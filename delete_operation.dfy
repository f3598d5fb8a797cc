/**
 * Deleting a partition: whether a partition may be deleted, the two jobs the
 * operation queues, and how its preview and undo change the partition tree,
 * renumbering the logical partitions of an extended partition so that their
 * numbers stay without gaps.
 *
 * The partition tree is an arena: every partition has an id, the table maps
 * ids to partitions, and a partition names its parent and its children by id.
 */
module DeletePartition {
  import opened Wrappers

  type PartitionId = nat

  /** PartitionRole's flags, as far as deleting looks at them. */
  datatype Role = Primary | Extended | Logical | Unallocated | Luks

  /** The partition's file system: a LUKS container (open, mounted) or anything else. */
  datatype FileSystem = LuksFileSystem(cryptOpen: bool, luksMounted: bool) | OtherFileSystem

  /** A partition's parent node: the partition table itself, or another partition. */
  datatype Parent = TableRoot | ParentPartition(id: PartitionId)

  datatype Partition = Partition(
    roles: set<Role>,
    number: int,
    mounted: bool,
    firstSector: int,
    parent: Parent,
    children: seq<PartitionId>,
    fileSystem: FileSystem)

  /** The partition table: its own children, and every partition by id. */
  datatype PartitionTable = PartitionTable(rootChildren: seq<PartitionId>, parts: map<PartitionId, Partition>)

  /** `p` is a partition of the table, and so is its parent, which is not `p` itself. */
  predicate ParentIn(t: PartitionTable, p: PartitionId) {
    && p in t.parts
    && (t.parts[p].parent.ParentPartition? ==> t.parts[p].parent.id in t.parts && t.parts[p].parent.id != p)
  }

  /** Every child `p` names is a partition of the table. */
  predicate ChildrenIn(t: PartitionTable, p: PartitionId)
    requires p in t.parts
  {
    forall c :: c in t.parts[p].children ==> c in t.parts
  }

  // ----- canDelete -----

  /** `canDelete`: may the partition `p` (possibly null) be deleted? */
  function CanDelete(t: PartitionTable, p: Option<PartitionId>): (ok: bool)
    requires p.Some? ==> p.value in t.parts && ChildrenIn(t, p.value)
    ensures p.None? ==> !ok
    ensures p.Some? && t.parts[p.value].mounted ==> !ok
    ensures p.Some? && Unallocated in t.parts[p.value].roles ==> !ok
  {
    if p.None? then false
    else
      var part := t.parts[p.value];
      if part.mounted then false
      else if Unallocated in part.roles then false
      else if Extended in part.roles then
        |part.children| == 1 && Unallocated in t.parts[part.children[0]].roles
      else if Luks in part.roles then
        match part.fileSystem
        case OtherFileSystem => false
        case LuksFileSystem(cryptOpen, luksMounted) => !cryptOpen && !luksMounted
      else true
  }

  /**
   * What `canDelete` decides, as one condition: an existing, unmounted,
   * allocated partition; an extended one only when all it holds is a single
   * unallocated region; a LUKS one only when it is a closed, unmounted LUKS
   * container.
   */
  lemma CanDeleteExactly(t: PartitionTable, p: Option<PartitionId>)
    requires p.Some? ==> p.value in t.parts && ChildrenIn(t, p.value)
    ensures CanDelete(t, p) <==>
      && p.Some?
      && !t.parts[p.value].mounted
      && Unallocated !in t.parts[p.value].roles
      && (Extended in t.parts[p.value].roles ==>
            |t.parts[p.value].children| == 1 && Unallocated in t.parts[t.parts[p.value].children[0]].roles)
      && (Extended !in t.parts[p.value].roles && Luks in t.parts[p.value].roles ==>
            t.parts[p.value].fileSystem.LuksFileSystem?
            && !t.parts[p.value].fileSystem.cryptOpen && !t.parts[p.value].fileSystem.luksMounted)
  {
  }

  /** For an extended partition the LUKS check is never reached: its file system does not matter. */
  lemma ExtendedIgnoresFileSystem(t: PartitionTable, p: PartitionId, fs: FileSystem)
    requires p in t.parts && ChildrenIn(t, p)
    requires Extended in t.parts[p].roles
    ensures var t' := t.(parts := t.parts[p := t.parts[p].(fileSystem := fs)]);
      ChildrenIn(t', p) && CanDelete(t', Some(p)) == CanDelete(t, Some(p))
  {
    var t' := t.(parts := t.parts[p := t.parts[p].(fileSystem := fs)]);
    var children := t.parts[p].children;
    if |children| == 1 {
      assert t'.parts[children[0]].roles == t.parts[children[0]].roles;
    }
  }

  // ----- the tree operations preview and undo use -----

  /** Removes the first occurrence of `x`, as `removeOne` on a child list does. */
  function RemoveOne(list: seq<PartitionId>, x: PartitionId): (r: seq<PartitionId>)
    ensures x in list ==> |r| + 1 == |list|
    ensures x !in list ==> r == list
    ensures forall y :: y in r ==> y in list
  {
    if list == [] then []
    else if list[0] == x then list[1..]
    else [list[0]] + RemoveOne(list[1..], x)
  }

  /** `p` goes before the first child whose first sector is larger, or at the end. */
  function InsertBySector(parts: map<PartitionId, Partition>, list: seq<PartitionId>, p: PartitionId): (r: seq<PartitionId>)
    requires p in parts && forall c :: c in list ==> c in parts
    ensures |r| == |list| + 1 && p in r
    ensures forall y :: y in r ==> y in list || y == p
  {
    if list == [] then [p]
    else if parts[list[0]].firstSector > parts[p].firstSector then [p] + list
    else [list[0]] + InsertBySector(parts, list[1..], p)
  }

  /** A child list ordered by strictly increasing first sector. */
  ghost predicate SortedBySector(parts: map<PartitionId, Partition>, list: seq<PartitionId>)
    requires forall c :: c in list ==> c in parts
  {
    forall i, j :: 0 <= i < j < |list| ==> parts[list[i]].firstSector < parts[list[j]].firstSector
  }

  /** The child list `p` sits in: the table's own, or its parent partition's. */
  function Siblings(t: PartitionTable, p: PartitionId): seq<PartitionId>
    requires ParentIn(t, p)
  {
    match t.parts[p].parent
    case TableRoot => t.rootChildren
    case ParentPartition(q) => t.parts[q].children
  }

  /** `p`'s siblings are all partitions of the table. */
  predicate SiblingsIn(t: PartitionTable, p: PartitionId) {
    ParentIn(t, p) && forall c :: c in Siblings(t, p) ==> c in t.parts
  }

  /** The table with `list` as the child list of `p`'s parent. */
  function WithSiblings(t: PartitionTable, p: PartitionId, list: seq<PartitionId>): (r: PartitionTable)
    requires ParentIn(t, p)
    ensures r.parts.Keys == t.parts.Keys && r.parts[p] == t.parts[p]
    ensures ParentIn(r, p) && Siblings(r, p) == list
  {
    match t.parts[p].parent
    case TableRoot => t.(rootChildren := list)
    case ParentPartition(q) => t.(parts := t.parts[q := t.parts[q].(children := list)])
  }

  /** `removePreviewPartition`: takes `p` out of its parent's children. */
  function RemoveChild(t: PartitionTable, p: PartitionId): (r: PartitionTable)
    requires ParentIn(t, p)
    ensures r.parts.Keys == t.parts.Keys && r.parts[p] == t.parts[p]
    ensures ParentIn(r, p) && Siblings(r, p) == RemoveOne(Siblings(t, p), p)
    ensures SiblingsIn(t, p) ==> SiblingsIn(r, p)
  {
    WithSiblings(t, p, RemoveOne(Siblings(t, p), p))
  }

  /** `insertPreviewPartition`: puts `p` back among its parent's children, in sector order. */
  function InsertChild(t: PartitionTable, p: PartitionId): (r: PartitionTable)
    requires SiblingsIn(t, p)
    ensures r.parts.Keys == t.parts.Keys && r.parts[p] == t.parts[p]
    ensures ParentIn(r, p) && Siblings(r, p) == InsertBySector(t.parts, Siblings(t, p), p)
  {
    WithSiblings(t, p, InsertBySector(t.parts, Siblings(t, p), p))
  }

  /**
   * The renumbering of one logical partition: after deleting number
   * `deleted`, the numbers above it move down by one; before inserting number
   * `inserted`, the numbers from it upwards move up by one. -1 stands for no
   * number.
   */
  function Shift(n: int, deleted: int, inserted: int): (m: int)
    ensures deleted != -1 && n > deleted ==> m == n - 1
    ensures (deleted == -1 || n <= deleted) && inserted != -1 && n >= inserted ==> m == n + 1
    ensures (deleted == -1 || n <= deleted) && (inserted == -1 || n < inserted) ==> m == n
  {
    if deleted != -1 && n > deleted then n - 1
    else if inserted != -1 && n >= inserted then n + 1
    else n
  }

  /** `adjustLogicalNumbers` of partition `q`: renumbers each of its children, and nothing else. */
  function AdjustLogicalNumbers(t: PartitionTable, q: PartitionId, deleted: int, inserted: int): (r: PartitionTable)
    requires q in t.parts
    ensures r.rootChildren == t.rootChildren && r.parts.Keys == t.parts.Keys
    ensures forall id :: id in t.parts ==>
      r.parts[id] == t.parts[id].(number := r.parts[id].number)
      && r.parts[id].number == if id in t.parts[q].children then Shift(t.parts[id].number, deleted, inserted) else t.parts[id].number
  {
    var children := t.parts[q].children;
    t.(parts := map id | id in t.parts ::
      if id in children then t.parts[id].(number := Shift(t.parts[id].number, deleted, inserted)) else t.parts[id])
  }

  /** Is `p`'s parent an extended partition? */
  predicate InExtended(t: PartitionTable, p: PartitionId)
    requires ParentIn(t, p)
  {
    t.parts[p].parent.ParentPartition? && Extended in t.parts[t.parts[p].parent.id].roles
  }

  /**
   * `checkAdjustLogicalNumbers`: inside an extended parent, renumbers `p`'s
   * siblings as if `p`'s number were deleted (or, on undo, inserted).
   */
  function CheckAdjust(t: PartitionTable, p: PartitionId, undo: bool): (r: PartitionTable)
    requires ParentIn(t, p)
    ensures r.parts.Keys == t.parts.Keys
    ensures !InExtended(t, p) ==> r == t
  {
    if InExtended(t, p) then
      var k := t.parts[p].number;
      AdjustLogicalNumbers(t, t.parts[p].parent.id, if undo then -1 else k, if undo then k else -1)
    else t
  }

  /** Renumbering keeps every partition's parent and children, so `p`'s siblings stay the same ids. */
  lemma CheckAdjustKeepsTree(t: PartitionTable, p: PartitionId, undo: bool)
    requires ParentIn(t, p)
    ensures var r := CheckAdjust(t, p, undo);
      && r.rootChildren == t.rootChildren
      && (forall id :: id in t.parts ==> r.parts[id].parent == t.parts[id].parent && r.parts[id].children == t.parts[id].children)
      && ParentIn(r, p) && Siblings(r, p) == Siblings(t, p) && InExtended(r, p) == InExtended(t, p)
      && r.parts[p].number == (if InExtended(t, p) && p in Siblings(t, p) then Shift(t.parts[p].number, if undo then -1 else t.parts[p].number, if undo then t.parts[p].number else -1) else t.parts[p].number)
  {
  }

  /** The table after `preview`: `p` removed, then its siblings renumbered. */
  function PreviewTable(t: PartitionTable, p: PartitionId): (r: PartitionTable)
    requires ParentIn(t, p)
    ensures r.parts.Keys == t.parts.Keys
  {
    CheckAdjust(RemoveChild(t, p), p, false)
  }

  /** The table after `undo`: `p`'s siblings renumbered back, then `p` re-inserted. */
  function UndoTable(t: PartitionTable, p: PartitionId): (r: PartitionTable)
    requires SiblingsIn(t, p)
    ensures r.parts.Keys == t.parts.Keys
  {
    var a := CheckAdjust(t, p, true);
    CheckAdjustKeepsTree(t, p, true);
    InsertChild(a, p)
  }

  /**
   * What `preview` leaves alone: only `p`'s parent (its child list) and `p`'s
   * siblings (their numbers) change; under a partition parent the table's own
   * child list is kept, and under the table itself only `p` leaves it.
   */
  lemma PreviewFrame(t: PartitionTable, p: PartitionId)
    requires ParentIn(t, p)
    ensures var r := PreviewTable(t, p);
      forall id :: id in t.parts && id !in Siblings(t, p) && t.parts[p].parent != ParentPartition(id) ==>
        r.parts[id] == t.parts[id]
    ensures var r := PreviewTable(t, p);
      forall id :: id in t.parts && id in Siblings(t, p) && t.parts[p].parent != ParentPartition(id) ==>
        r.parts[id] == t.parts[id].(number := r.parts[id].number)
    ensures t.parts[p].parent.ParentPartition? ==> PreviewTable(t, p).rootChildren == t.rootChildren
    ensures t.parts[p].parent.TableRoot? ==> PreviewTable(t, p).rootChildren == RemoveOne(t.rootChildren, p)
  {
    var r1 := RemoveChild(t, p);
    var r := PreviewTable(t, p);
    assert forall id :: id in t.parts && t.parts[p].parent != ParentPartition(id) ==> r1.parts[id] == t.parts[id];
    if InExtended(r1, p) {
      var q := t.parts[p].parent.id;
      assert r1.parts[q].children == RemoveOne(t.parts[q].children, p);
      assert forall id :: id in r1.parts[q].children ==> id in t.parts[q].children;
    }
  }

  // ----- preview followed by undo -----

  /** In a list ordered strictly by sector, no id occurs twice. */
  lemma SortedDistinct(parts: map<PartitionId, Partition>, list: seq<PartitionId>)
    requires forall c :: c in list ==> c in parts
    requires SortedBySector(parts, list)
    ensures forall i, j :: 0 <= i < j < |list| ==> list[i] != list[j]
  {
  }

  /** Removing the only occurrence of `p` leaves every other id and drops `p`. */
  lemma {:induction false} RemoveOneDistinct(list: seq<PartitionId>, p: PartitionId)
    requires forall i, j :: 0 <= i < j < |list| ==> list[i] != list[j]
    ensures p !in RemoveOne(list, p)
    ensures forall c :: c in list && c != p ==> c in RemoveOne(list, p)
  {
    if list != [] {
      var tail := list[1..];
      assert forall i, j :: 0 <= i < j < |tail| ==> tail[i] != tail[j] by {
        forall i, j | 0 <= i < j < |tail|
          ensures tail[i] != tail[j]
        {
          assert tail[i] == list[i + 1] && tail[j] == list[j + 1];
        }
      }
      RemoveOneDistinct(tail, p);
      if list[0] == p {
        assert forall c :: c in tail ==> c != p;
      }
    }
  }

  /** The tail of a sector-ordered list is sector-ordered, and its head comes before all of it. */
  lemma SortedTail(parts: map<PartitionId, Partition>, list: seq<PartitionId>)
    requires forall c :: c in list ==> c in parts
    requires SortedBySector(parts, list) && list != []
    ensures SortedBySector(parts, list[1..])
    ensures forall c :: c in list[1..] ==> parts[list[0]].firstSector < parts[c].firstSector
  {
    var tail := list[1..];
    forall a, b | 0 <= a < b < |tail|
      ensures parts[tail[a]].firstSector < parts[tail[b]].firstSector
    {
      assert tail[a] == list[a + 1] && tail[b] == list[b + 1];
    }
    forall c | c in tail
      ensures parts[list[0]].firstSector < parts[c].firstSector
    {
      var i :| 0 <= i < |tail| && tail[i] == c;
      assert list[i + 1] == c;
    }
  }

  /**
   * Taking `p` out of a sector-ordered list and inserting it again by sector
   * gives the list back, even in a table whose partitions kept their sectors
   * but changed otherwise.
   */
  lemma {:induction false} InsertAfterRemove(parts: map<PartitionId, Partition>, parts': map<PartitionId, Partition>, list: seq<PartitionId>, p: PartitionId)
    requires forall c :: c in list ==> c in parts && c in parts' && parts'[c].firstSector == parts[c].firstSector
    requires SortedBySector(parts, list) && p in list
    ensures p in parts'
    ensures InsertBySector(parts', RemoveOne(list, p), p) == list
  {
    SortedTail(parts, list);
    var tail := list[1..];
    if list[0] == p {
      if tail != [] {
        assert parts'[tail[0]].firstSector > parts'[p].firstSector;
      }
      assert list == [p] + tail;
    } else {
      assert p in tail;
      var removed := RemoveOne(tail, p);
      assert RemoveOne(list, p) == [list[0]] + removed;
      assert parts'[list[0]].firstSector < parts'[p].firstSector;
      assert ([list[0]] + removed)[1..] == removed;
      InsertAfterRemove(parts, parts', tail, p);
      assert list == [list[0]] + tail;
    }
  }

  /** Renumbering as a deletion of `k` and then as an insertion of `k` restores every number but `k`. */
  lemma ShiftBack(n: int, k: int)
    requires k == -1 || n != k
    ensures Shift(Shift(n, k, -1), -1, k) == n
  {
  }

  /** Setting the sibling list back to what it was restores the table. */
  lemma WithSiblingsBack(t: PartitionTable, p: PartitionId, list: seq<PartitionId>)
    requires ParentIn(t, p)
    ensures WithSiblings(WithSiblings(t, p, list), p, Siblings(t, p)) == t
  {
    if t.parts[p].parent.ParentPartition? {
      var q := t.parts[p].parent.id;
      assert t.parts[q := t.parts[q].(children := list)][q := t.parts[q]] == t.parts;
    }
  }

  /**
   * The conditions under which `undo` exactly reverses `preview`: `p` is
   * one of its parent's children, the children are ordered by first sector
   * (the order insertion keeps), and inside an extended parent no other child
   * carries `p`'s number.
   */
  ghost predicate Reversible(t: PartitionTable, p: PartitionId)
    requires SiblingsIn(t, p)
  {
    && p in Siblings(t, p)
    && SortedBySector(t.parts, Siblings(t, p))
    && (InExtended(t, p) && t.parts[p].number != -1 ==>
          forall c :: c in Siblings(t, p) && c != p ==> t.parts[c].number != t.parts[p].number)
  }

  /** Renumbering back after a renumbering undoes it, once `p` is no longer among the children. */
  lemma AdjustBack(r: PartitionTable, p: PartitionId)
    requires SiblingsIn(r, p) && p !in Siblings(r, p)
    requires InExtended(r, p) && r.parts[p].number != -1 ==>
      forall c :: c in Siblings(r, p) ==> r.parts[c].number != r.parts[p].number
    ensures var v := CheckAdjust(r, p, false);
      ParentIn(v, p) && CheckAdjust(v, p, true) == r
  {
    var v := CheckAdjust(r, p, false);
    CheckAdjustKeepsTree(r, p, false);
    var a := CheckAdjust(v, p, true);
    CheckAdjustKeepsTree(v, p, true);
    if InExtended(r, p) {
      var q := r.parts[p].parent.id;
      var k := r.parts[p].number;
      assert v.parts[p].number == k;
      forall id | id in r.parts
        ensures a.parts[id] == r.parts[id]
      {
        if id in r.parts[q].children {
          ShiftBack(r.parts[id].number, k);
        }
      }
      assert a.parts == r.parts;
    }
  }

  /** `undo` restores the partition table that `preview` changed. */
  lemma UndoAfterPreview(t: PartitionTable, p: PartitionId)
    requires SiblingsIn(t, p) && Reversible(t, p)
    ensures SiblingsIn(PreviewTable(t, p), p)
    ensures UndoTable(PreviewTable(t, p), p) == t
  {
    var list := Siblings(t, p);
    var r := RemoveChild(t, p);
    var v := PreviewTable(t, p);
    CheckAdjustKeepsTree(r, p, false);
    SortedDistinct(t.parts, list);
    RemoveOneDistinct(list, p);
    AdjustBack(r, p);
    InsertAfterRemove(t.parts, r.parts, list, p);
    WithSiblingsBack(t, p, RemoveOne(list, p));
  }

  // ----- numbering without gaps -----

  /** The numbers of the logical partitions among `list`. */
  ghost function LogicalNumbers(parts: map<PartitionId, Partition>, list: seq<PartitionId>): set<int> {
    set c | c in list && c in parts && Logical in parts[c].roles :: parts[c].number
  }

  /** The logical partitions among `list` carry pairwise different numbers. */
  ghost predicate DistinctLogicalNumbers(parts: map<PartitionId, Partition>, list: seq<PartitionId>) {
    forall c, d ::
      (c in list && d in list && c in parts && d in parts && c != d && Logical in parts[c].roles && Logical in parts[d].roles)
      ==> parts[c].number != parts[d].number
  }

  /** Numbers `lo` to `hi - 1`, no gaps. */
  ghost predicate IsRange(numbers: set<int>, lo: int, hi: int) {
    forall n :: n in numbers <==> lo <= n < hi
  }

  /**
   * How the preview's renumbering acts on the logical numbers: `rest` is
   * `list` without `p`, whose number `k` is gone, and every other child is
   * renumbered as a deletion of `k`.
   */
  ghost predicate RenumberedWithout(parts: map<PartitionId, Partition>, parts': map<PartitionId, Partition>,
                                    list: seq<PartitionId>, rest: seq<PartitionId>, p: PartitionId, k: int)
  {
    && p in list && p in parts && parts[p].number == k && Logical in parts[p].roles
    && p !in rest
    && (forall c :: c in list && c != p ==> c in rest)
    && (forall c :: c in rest ==>
          (c in list && c in parts && c in parts'
           && parts'[c].roles == parts[c].roles && parts'[c].number == Shift(parts[c].number, k, -1)))
  }

  /** Every number left after the renumbering lies in `lo .. hi - 2`. */
  lemma RenumberedWithin(parts: map<PartitionId, Partition>, parts': map<PartitionId, Partition>,
                         list: seq<PartitionId>, rest: seq<PartitionId>, p: PartitionId, k: int, lo: int, hi: int)
    requires RenumberedWithout(parts, parts', list, rest, p, k) && k != -1
    requires DistinctLogicalNumbers(parts, list) && IsRange(LogicalNumbers(parts, list), lo, hi)
    ensures forall m :: m in LogicalNumbers(parts', rest) ==> lo <= m < hi - 1
  {
    forall m | m in LogicalNumbers(parts', rest)
      ensures lo <= m < hi - 1
    {
      var c :| c in rest && c in parts' && Logical in parts'[c].roles && parts'[c].number == m;
      assert parts[c].number in LogicalNumbers(parts, list);
      assert k in LogicalNumbers(parts, list);
    }
  }

  /** Every number of `lo .. hi - 2` is still carried after the renumbering. */
  lemma RenumberedCovers(parts: map<PartitionId, Partition>, parts': map<PartitionId, Partition>,
                         list: seq<PartitionId>, rest: seq<PartitionId>, p: PartitionId, k: int, lo: int, hi: int)
    requires RenumberedWithout(parts, parts', list, rest, p, k) && k != -1
    requires IsRange(LogicalNumbers(parts, list), lo, hi)
    ensures forall m :: lo <= m < hi - 1 ==> m in LogicalNumbers(parts', rest)
  {
    assert k in LogicalNumbers(parts, list);
    forall m | lo <= m < hi - 1
      ensures m in LogicalNumbers(parts', rest)
    {
      var n := if m < k then m else m + 1;
      assert n in LogicalNumbers(parts, list);
      var c :| c in list && c in parts && Logical in parts[c].roles && parts[c].number == n;
      assert c in rest && Shift(n, k, -1) == m;
      assert parts'[c].number in LogicalNumbers(parts', rest);
    }
  }

  /**
   * The comment's promise: when the logicals in an extended partition are
   * numbered `lo` to `hi - 1` without gaps and one of them is deleted, the
   * preview numbers the remaining ones `lo` to `hi - 2`, again without gaps
   * (sda5, sda6, sda7, sda8 less sda7 become sda5, sda6, sda7).
   */
  lemma PreviewClosesGap(t: PartitionTable, p: PartitionId, lo: int, hi: int)
    requires SiblingsIn(t, p) && InExtended(t, p)
    requires p in Siblings(t, p) && Logical in t.parts[p].roles && t.parts[p].number != -1
    requires forall i, j :: 0 <= i < j < |Siblings(t, p)| ==> Siblings(t, p)[i] != Siblings(t, p)[j]
    requires DistinctLogicalNumbers(t.parts, Siblings(t, p))
    requires IsRange(LogicalNumbers(t.parts, Siblings(t, p)), lo, hi)
    ensures var v := PreviewTable(t, p);
      ParentIn(v, p) && IsRange(LogicalNumbers(v.parts, Siblings(v, p)), lo, hi - 1)
  {
    var list := Siblings(t, p);
    var k := t.parts[p].number;
    var r := RemoveChild(t, p);
    var v := PreviewTable(t, p);
    CheckAdjustKeepsTree(r, p, false);
    RemoveOneDistinct(list, p);
    var rest := Siblings(v, p);
    assert RenumberedWithout(t.parts, v.parts, list, rest, p, k);
    RenumberedWithin(t.parts, v.parts, list, rest, p, k, lo, hi);
    RenumberedCovers(t.parts, v.parts, list, rest, p, k, lo, hi);
  }

  // ----- the jobs -----

  /** How the partition's data is disposed of. */
  datatype ShredAction = NoShred | ZeroShred | RandomShred

  /** The jobs a delete operation queues, each naming the partition it works on. */
  datatype Job =
    | DeleteFileSystemJob(partition: PartitionId)
    | ShredFileSystemJob(partition: PartitionId, randomShred: bool)
    | DeletePartitionJob(partition: PartitionId)

  /** The file-system job the constructor picks for the shred mode. */
  function FileSystemJob(shred: ShredAction, p: PartitionId): (job: Job)
    ensures job.partition == p && !job.DeletePartitionJob?
    ensures job.ShredFileSystemJob? <==> shred != NoShred
    ensures job.ShredFileSystemJob? ==> (job.randomShred <==> shred == RandomShred)
  {
    match shred
    case NoShred => DeleteFileSystemJob(p)
    case ZeroShred => ShredFileSystemJob(p, false)
    case RandomShred => ShredFileSystemJob(p, true)
  }

  /** Operation::OperationStatus. */
  datatype OperationStatus = StatusNone | StatusPending | StatusRunning | StatusFinishedSuccess | StatusFinishedWarning | StatusError

  // ----- the device and the operation -----

  /** The device whose partition table the operation changes. */
  class Device {
    var table: PartitionTable

    constructor (table: PartitionTable)
      ensures this.table == table
    {
      this.table := table;
    }

    /** `removePreviewPartition`: `p` leaves its parent's child list. */
    method RemovePreviewPartition(p: PartitionId)
      requires ParentIn(table, p)
      modifies this
      ensures table == RemoveChild(old(table), p)
    {
      table := RemoveChild(table, p);
    }

    /** `insertPreviewPartition`: `p` rejoins its parent's child list in sector order. */
    method InsertPreviewPartition(p: PartitionId)
      requires SiblingsIn(table, p)
      modifies this
      ensures table == InsertChild(old(table), p)
    {
      table := InsertChild(table, p);
    }

    /** `adjustLogicalNumbers` on partition `q`. */
    method AdjustLogicalNumbersOf(q: PartitionId, deleted: int, inserted: int)
      requires q in table.parts
      modifies this
      ensures table == AdjustLogicalNumbers(old(table), q, deleted, inserted)
    {
      table := AdjustLogicalNumbers(table, q, deleted, inserted);
    }
  }

  /** Deleting one partition of a device, as two jobs. */
  class DeleteOperation {
    const targetDevice: Device
    const deletedPartition: PartitionId
    const shredAction: ShredAction
    var status: OperationStatus
    var jobs: seq<Job>

    /** The constructor: the file-system job first, then the partition-delete job. */
    constructor (d: Device, p: PartitionId, shred: ShredAction)
      ensures targetDevice == d && deletedPartition == p && shredAction == shred
      ensures status == StatusNone
      ensures jobs == [FileSystemJob(shred, p), DeletePartitionJob(p)]
      ensures JobsOnTarget()
    {
      targetDevice := d;
      deletedPartition := p;
      shredAction := shred;
      status := StatusNone;
      jobs := [];
      new;
      AddJob(FileSystemJob(shred, p));
      AddJob(DeletePartitionJob(p));
    }

    /** `addJob`: appends a job to the operation's list. */
    method AddJob(job: Job)
      modifies this
      ensures jobs == old(jobs) + [job] && status == old(status)
    {
      jobs := jobs + [job];
    }

    /** `targets(Device)`: the operation works on exactly its own device. */
    predicate TargetsDevice(d: Device) {
      d == targetDevice
    }

    /** `targets(Partition)`: the operation works on exactly the deleted partition. */
    predicate TargetsPartition(p: PartitionId) {
      p == deletedPartition
    }

    /** Every queued job works on the partition the operation targets. */
    predicate JobsOnTarget()
      reads this
    {
      forall job :: job in jobs ==> TargetsPartition(job.partition)
    }

    /**
     * The destructor's rule: the deleted partition is freed only once the
     * operation has left the pending and none states, never while it is
     * being merged or undone.
     */
    predicate FreesDeletedPartition()
      reads this
    {
      status != StatusPending && status != StatusNone
    }

    /** `checkAdjustLogicalNumbers`: renumbers the siblings when the parent is extended. */
    method CheckAdjustLogicalNumbers(undo: bool)
      requires ParentIn(targetDevice.table, deletedPartition)
      modifies targetDevice
      ensures targetDevice.table == CheckAdjust(old(targetDevice.table), deletedPartition, undo)
    {
      var part := targetDevice.table.parts[deletedPartition];
      if part.parent.ParentPartition? && Extended in targetDevice.table.parts[part.parent.id].roles {
        targetDevice.AdjustLogicalNumbersOf(part.parent.id, if undo then -1 else part.number, if undo then part.number else -1);
      }
    }

    /** `preview`: removes the partition, then closes the gap in the logical numbers. */
    method Preview()
      requires ParentIn(targetDevice.table, deletedPartition)
      modifies targetDevice
      ensures targetDevice.table == PreviewTable(old(targetDevice.table), deletedPartition)
    {
      targetDevice.RemovePreviewPartition(deletedPartition);
      CheckAdjustLogicalNumbers(false);
    }

    /** `undo`: reopens the gap in the logical numbers, then re-inserts the partition. */
    method Undo()
      requires SiblingsIn(targetDevice.table, deletedPartition)
      modifies targetDevice
      ensures targetDevice.table == UndoTable(old(targetDevice.table), deletedPartition)
    {
      CheckAdjustKeepsTree(targetDevice.table, deletedPartition, true);
      CheckAdjustLogicalNumbers(true);
      targetDevice.InsertPreviewPartition(deletedPartition);
    }
  }

  /** The statuses in which the destructor frees the deleted partition. */
  lemma FreedOnlyOnceStarted(op: DeleteOperation)
    ensures op.FreesDeletedPartition() <==>
      op.status in {StatusRunning, StatusFinishedSuccess, StatusFinishedWarning, StatusError}
  {
  }
}
