/**
 * MovePhysicalVolumeJob: evacuates a list of LVM physical volumes of a
 * volume group. The destinations are the group's physical volumes minus every
 * volume being evacuated; then each source is moved in list order and the job
 * stops at the first move that fails.
 *
 * `LvmDevice::getPVs` is an input (the group's physical volumes, in the order
 * LVM reports them) and `LvmDevice::movePV` an oracle `movePV(n, source,
 * destinations)` that says whether the move succeeded. `n` counts the moves
 * made before this one, so the answer may depend on what earlier moves did to
 * the volume group; a source listed twice can get different answers.
 */
module MovePhysicalVolume {

  /** One call of `LvmDevice::movePV`: the source volume and the destinations passed along. */
  datatype MoveCall = MoveCall(source: string, destinations: seq<string>)

  /** `list` after `QStringList::removeAll(x)`: every occurrence of `x` is gone, the rest keep their order. */
  function RemoveAll(list: seq<string>, x: string): (r: seq<string>)
    ensures x !in r
    ensures forall y :: y != x ==> multiset(r)[y] == multiset(list)[y]
  {
    if list == [] then []
    else
      assert list == [list[0]] + list[1..];
      if list[0] == x then RemoveAll(list[1..], x)
      else [list[0]] + RemoveAll(list[1..], x)
  }

  /** `a` is `b` with some elements left out, the rest in their original order. */
  ghost predicate IsSubsequence(a: seq<string>, b: seq<string>)
    decreases |b|
  {
    if a == [] then true
    else if b == [] then false
    else if a[0] == b[0] then IsSubsequence(a[1..], b[1..])
    else IsSubsequence(a, b[1..])
  }

  /**
   * Reference definition of the destinations: one pass over the group's
   * physical volumes keeping those that are not being evacuated.
   */
  function Destinations(pvs: seq<string>, sources: seq<string>): (r: seq<string>)
    ensures forall y :: y in r <==> y in pvs && y !in sources
    ensures forall y :: multiset(r)[y] == if y in sources then 0 else multiset(pvs)[y]
  {
    if pvs == [] then []
    else
      assert pvs == [pvs[0]] + pvs[1..];
      if pvs[0] in sources then Destinations(pvs[1..], sources)
      else [pvs[0]] + Destinations(pvs[1..], sources)
  }

  /** With nothing to evacuate every physical volume is a destination. */
  lemma {:induction false} NothingEvacuated(pvs: seq<string>)
    ensures Destinations(pvs, []) == pvs
    decreases |pvs|
  {
    if pvs != [] {
      NothingEvacuated(pvs[1..]);
      assert pvs == [pvs[0]] + pvs[1..];
    }
  }

  /** The surviving physical volumes keep their relative order. */
  lemma {:induction false} DestinationsKeepOrder(pvs: seq<string>, sources: seq<string>)
    ensures IsSubsequence(Destinations(pvs, sources), pvs)
    decreases |pvs|
  {
    if pvs != [] {
      DestinationsKeepOrder(pvs[1..], sources);
      var rest := Destinations(pvs[1..], sources);
      if pvs[0] !in sources {
        assert Destinations(pvs, sources) == [pvs[0]] + rest;
        assert ([pvs[0]] + rest)[1..] == rest;
      } else {
        SkipHead(rest, pvs);
      }
    }
  }

  /** Dropping the head of `b` keeps a subsequence of its tail a subsequence of `b`. */
  lemma {:induction false} SkipHead(a: seq<string>, b: seq<string>)
    requires b != [] && IsSubsequence(a, b[1..])
    ensures IsSubsequence(a, b)
    decreases |b|, 0
  {
    if a != [] && a[0] == b[0] {
      // a[1..] is a subsequence of b[1..] because a is one of b[1..]
      TailOfSubsequence(a, b[1..]);
    }
  }

  /** The tail of a non-empty subsequence is again a subsequence. */
  lemma {:induction false} TailOfSubsequence(a: seq<string>, b: seq<string>)
    requires a != [] && IsSubsequence(a, b)
    ensures IsSubsequence(a[1..], b)
    decreases |b|, 1
  {
    assert b != [];
    if a[0] == b[0] {
      if a[1..] != [] {
        TailOfSubsequence(a[1..], b[1..]);
        SkipHead(a[1..], b);
      }
    } else {
      TailOfSubsequence(a, b[1..]);
      SkipHead(a[1..], b);
    }
  }

  /** Removing one more evacuated path in place extends the one-pass filter by that path. */
  lemma {:induction false} RemoveAllExtendsDestinations(pvs: seq<string>, sources: seq<string>, x: string)
    ensures RemoveAll(Destinations(pvs, sources), x) == Destinations(pvs, sources + [x])
    decreases |pvs|
  {
    if pvs != [] {
      RemoveAllExtendsDestinations(pvs[1..], sources, x);
      if pvs[0] !in sources {
        var rest := Destinations(pvs[1..], sources);
        assert Destinations(pvs, sources) == [pvs[0]] + rest;
        assert ([pvs[0]] + rest)[1..] == rest;
      }
    }
  }

  /** One more iteration of the removal loop. */
  lemma DestinationsStep(pvs: seq<string>, partList: seq<string>, i: nat)
    requires i < |partList|
    ensures Destinations(pvs, partList[..i + 1]) == RemoveAll(Destinations(pvs, partList[..i]), partList[i])
  {
    assert partList[..i + 1] == partList[..i] + [partList[i]];
    RemoveAllExtendsDestinations(pvs, partList[..i], partList[i]);
  }

  /** A path that is not in the list leaves `removeAll` nothing to do. */
  lemma {:induction false} RemoveAllAbsent(list: seq<string>, x: string)
    requires x !in list
    ensures RemoveAll(list, x) == list
    decreases |list|
  {
    if list != [] {
      RemoveAllAbsent(list[1..], x);
      assert list == [list[0]] + list[1..];
    }
  }

  /**
   * Index of the first source at or after `i` whose move fails, or |sources|
   * when every move from `i` on succeeds. The move of `sources[j]` is the
   * job's `j`-th `movePV` call, and all receive the same destination list.
   */
  function FirstFailure(sources: seq<string>, destinations: seq<string>, movePV: (nat, string, seq<string>) -> bool, i: nat): (k: nat)
    requires i <= |sources|
    ensures i <= k <= |sources|
    ensures forall j :: i <= j < k ==> movePV(j, sources[j], destinations)
    ensures k < |sources| ==> !movePV(k, sources[k], destinations)
    decreases |sources| - i
  {
    if i == |sources| then i
    else if !movePV(i, sources[i], destinations) then i
    else FirstFailure(sources, destinations, movePV, i + 1)
  }

  /**
   * First half of the job's `run`: starts from the group's physical volumes
   * and removes every evacuated path in place.
   */
  method EvacuationDestinations(pvs: seq<string>, partList: seq<string>) returns (destinations: seq<string>)
    ensures destinations == Destinations(pvs, partList)
  {
    destinations := pvs;
    NothingEvacuated(pvs);
    assert partList[..0] == [];
    for i := 0 to |partList|
      invariant destinations == Destinations(pvs, partList[..i])
    {
      var partPath := partList[i];
      DestinationsStep(pvs, partList, i);
      if partPath in destinations {
        destinations := RemoveAll(destinations, partPath);
      } else {
        RemoveAllAbsent(destinations, partPath);
      }
    }
    assert partList[..|partList|] == partList;
  }

  /** Every move succeeds exactly when no failure is found before the end of the list. */
  lemma NoFailureMeansAllMoved(sources: seq<string>, destinations: seq<string>, movePV: (nat, string, seq<string>) -> bool)
    ensures FirstFailure(sources, destinations, movePV, 0) == |sources|
      <==> forall i :: 0 <= i < |sources| ==> movePV(i, sources[i], destinations)
  {
    var k := FirstFailure(sources, destinations, movePV, 0);
    if k < |sources| {
      assert !movePV(k, sources[k], destinations);
    }
  }

  /**
   * Second half of the job's `run`: moves the sources in order, each to the
   * same destinations, and stops after the first failed move. `calls` records
   * the `movePV` calls made.
   */
  method MoveSources(partList: seq<string>, destinations: seq<string>, movePV: (nat, string, seq<string>) -> bool)
    returns (rval: bool, calls: seq<MoveCall>)
    ensures var k := FirstFailure(partList, destinations, movePV, 0);
      |calls| == if k < |partList| then k + 1 else |partList|
    ensures forall i :: 0 <= i < |calls| ==> calls[i] == MoveCall(partList[i], destinations)
    ensures rval <==> partList != [] && FirstFailure(partList, destinations, movePV, 0) == |partList|
  {
    rval := false;
    calls := [];
    var j := 0;
    ghost var k := FirstFailure(partList, destinations, movePV, 0);
    while j < |partList|
      invariant 0 <= j <= k
      invariant |calls| == j
      invariant forall n :: 0 <= n < j ==> calls[n] == MoveCall(partList[n], destinations)
      invariant rval <==> j > 0
    {
      var partPath := partList[j];
      calls := calls + [MoveCall(partPath, destinations)];
      rval := movePV(j, partPath, destinations);
      if !rval {
        assert j == k;
        break;
      }
      j := j + 1;
    }
  }

  /**
   * The job's `run`: computes the destinations, then moves the sources in
   * order and stops at the first failure. `calls` records the `movePV` calls
   * made and `finished` the values `jobFinished` was called with.
   */
  method Run(pvs: seq<string>, partList: seq<string>, movePV: (nat, string, seq<string>) -> bool)
    returns (rval: bool, destinations: seq<string>, calls: seq<MoveCall>, finished: seq<bool>)
    ensures destinations == Destinations(pvs, partList)
    ensures |calls| <= |partList|
    ensures forall i :: 0 <= i < |calls| ==> calls[i] == MoveCall(partList[i], destinations)
    ensures var k := FirstFailure(partList, destinations, movePV, 0);
      |calls| == if k < |partList| then k + 1 else |partList|
    ensures rval <==> partList != [] && forall i :: 0 <= i < |partList| ==> movePV(i, partList[i], destinations)
    ensures finished == [rval]
  {
    destinations := EvacuationDestinations(pvs, partList);
    rval, calls := MoveSources(partList, destinations, movePV);
    NoFailureMeansAllMoved(partList, destinations, movePV);
    finished := [rval];
  }

  /** The list of evacuated paths in the job's description: each path followed by a comma. */
  function PathList(paths: seq<string>): (s: string)
    ensures |s| >= |paths|
    ensures paths != [] ==> s[|s| - 1] == ','
  {
    if paths == [] then "" else PathList(paths[..|paths| - 1]) + paths[|paths| - 1] + ","
  }

  /** The description's loop: appends each path and a comma. */
  method DescriptionPaths(partList: seq<string>) returns (tmp: string)
    ensures tmp == PathList(partList)
  {
    tmp := "";
    for i := 0 to |partList|
      invariant tmp == PathList(partList[..i])
    {
      assert partList[..i + 1][..i] == partList[..i];
      tmp := tmp + partList[i] + ",";
    }
    assert partList[..|partList|] == partList;
  }

  /** Index of the first comma of `s`. */
  function FirstComma(s: string): (i: nat)
    requires ',' in s
    ensures i < |s| && s[i] == ',' && ',' !in s[..i]
  {
    if s[0] == ',' then 0 else 1 + FirstComma(s[1..])
  }

  /** Splits a text made of comma-terminated fields back into its fields. */
  function SplitFields(s: string): (fields: seq<string>)
    decreases |s|
  {
    if ',' !in s then (if s == [] then [] else [s])
    else [s[..FirstComma(s)]] + SplitFields(s[FirstComma(s) + 1..])
  }

  /** The first comma of `p + "," + rest` is the one after `p` when `p` has none. */
  lemma {:induction false} FirstCommaAfter(p: string, rest: string)
    requires ',' !in p
    ensures ',' in p + "," + rest && FirstComma(p + "," + rest) == |p|
    decreases |p|
  {
    var s := p + "," + rest;
    assert s[|p|] == ',';
    if p != [] {
      assert s[1..] == p[1..] + "," + rest;
      FirstCommaAfter(p[1..], rest);
    }
  }

  /** Prefix form of the path list: the first path, a comma, then the others. */
  lemma {:induction false} PathListCons(paths: seq<string>)
    requires paths != []
    ensures PathList(paths) == paths[0] + "," + PathList(paths[1..])
    decreases |paths|
  {
    var n := |paths|;
    if n > 1 {
      var init := paths[..n - 1];
      var last := paths[n - 1];
      PathListCons(init);
      var tail := paths[1..];
      assert tail[..|tail| - 1] == init[1..] && tail[|tail| - 1] == last;
      calc {
        PathList(paths);
        PathList(init) + last + ",";
        (init[0] + "," + PathList(init[1..])) + last + ",";
        { assert init[0] == paths[0]; }
        paths[0] + "," + (PathList(init[1..]) + last + ",");
        paths[0] + "," + PathList(tail);
      }
    } else {
      assert paths[1..] == [];
    }
  }

  /** Splitting a comma-free field followed by a comma yields that field, then the rest's fields. */
  lemma SplitFieldsCons(p: string, rest: string)
    requires ',' !in p
    ensures SplitFields(p + "," + rest) == [p] + SplitFields(rest)
  {
    var s := p + "," + rest;
    FirstCommaAfter(p, rest);
    assert s[..|p|] == p;
    assert s[|p| + 1..] == rest;
  }

  /** When no path holds a comma, the description's path list can be split back into the paths. */
  lemma {:induction false} PathListRoundTrip(paths: seq<string>)
    requires forall i :: 0 <= i < |paths| ==> ',' !in paths[i]
    ensures SplitFields(PathList(paths)) == paths
    decreases |paths|
  {
    if paths != [] {
      PathListCons(paths);
      SplitFieldsCons(paths[0], PathList(paths[1..]));
      PathListRoundTrip(paths[1..]);
      assert paths == [paths[0]] + paths[1..];
    }
  }
}
