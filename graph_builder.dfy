/**
  The parts of the scheduler's graph builder that act on requirements and
  memory objects without touching the command graph: the overlap test of
  two requirements, the merge of the access modes of requirements on the
  same memory object, the modified flag of a memory object's record, the
  list of memory objects the builder tracks and the graph printing options.
*/
module GraphBuilders {
  import opened Wrappers
  import opened Framing
  import opened AccessModes
  import opened Segments

  /** A value of type `size_t`. */
  type Size = n: nat | n < SIZE_LIMIT

  /** The record the graph builder keeps for a memory object. */
  class MemObjRecord {
    var memModified: bool

    constructor ()
      ensures !memModified
    {
      memModified := false;
    }
  }

  /** A memory object (SYCLMemObjI), with the record it owns or null. */
  class MemObj {
    var record: MemObjRecord?

    constructor (record: MemObjRecord?)
      ensures this.record == record
    {
      this.record := record;
    }
  }

  /** The part of a requirement doOverlap reads: byte offset, element count and element size. */
  datatype Extent = Extent(offsetInBytes: Size, rangeSize: Size, elemSize: Size)

  /** A requirement (AccessorImplHost) on a memory object. */
  class Requirement {
    const memObj: MemObj
    const extent: Extent
    var accessMode: Mode

    constructor (memObj: MemObj, extent: Extent, accessMode: Mode)
      ensures this.memObj == memObj && this.extent == extent && this.accessMode == accessMode
    {
      this.memObj := memObj;
      this.extent := extent;
      this.accessMode := accessMode;
    }
  }

  // ---------------------------------------------------------------------
  // doOverlap

  /** The end of the extent, `MOffsetInBytes + MAccessRange.size() * MElemSize`, in unbounded arithmetic. */
  function End(e: Extent): (end: nat)
    ensures end >= e.offsetInBytes
  {
    e.offsetInBytes + e.rangeSize * e.elemSize
  }

  /** The same sum in `size_t` arithmetic, which wraps. */
  function WrappedEnd(e: Extent): Size {
    End(e) % SIZE_LIMIT
  }

  /** The end of the extent does not wrap around. */
  predicate NoWrap(e: Extent) {
    End(e) < SIZE_LIMIT
  }

  lemma WrappedEndExact(e: Extent)
    requires NoWrap(e)
    ensures WrappedEnd(e) == End(e)
  {
  }

  /** doOverlap as written: the two comparisons are joined by `||`. */
  predicate DoOverlapAsWritten(l: Extent, r: Extent) {
    WrappedEnd(l) >= r.offsetInBytes || WrappedEnd(r) >= l.offsetInBytes
  }

  /** doOverlap as its comment intends: each extent reaches the start of the other. */
  predicate DoOverlap(l: Extent, r: Extent) {
    WrappedEnd(l) >= r.offsetInBytes && WrappedEnd(r) >= l.offsetInBytes
  }

  lemma DoOverlapAsWrittenSymmetric(l: Extent, r: Extent)
    ensures DoOverlapAsWritten(l, r) == DoOverlapAsWritten(r, l)
  {
  }

  lemma DoOverlapSymmetric(l: Extent, r: Extent)
    ensures DoOverlap(l, r) == DoOverlap(r, l)
  {
  }

  /** As written, any two extents that do not wrap around overlap. */
  lemma {:induction false} DoOverlapAsWrittenAlwaysHolds(l: Extent, r: Extent)
    requires NoWrap(l) && NoWrap(r)
    ensures DoOverlapAsWritten(l, r)
  {
    WrappedEndExact(l);
    WrappedEndExact(r);
  }

  /** Bytes 0..1 and 10..11 are reported as overlapping by the test as written, and not by the corrected one. */
  lemma DoOverlapAsWrittenDisjointExtents()
    ensures DoOverlapAsWritten(Extent(0, 1, 1), Extent(10, 1, 1))
    ensures !DoOverlap(Extent(0, 1, 1), Extent(10, 1, 1))
  {
  }

  /**
    Without wrap-around the corrected test holds exactly when the two closed
    byte ranges from the offset to the end share a byte.
  */
  lemma DoOverlapIff(l: Extent, r: Extent)
    requires NoWrap(l) && NoWrap(r)
    ensures DoOverlap(l, r) <==> exists x: nat :: InRange(x, l) && InRange(x, r)
  {
    WrappedEndExact(l);
    WrappedEndExact(r);
    if DoOverlap(l, r) {
      var x: nat := if l.offsetInBytes <= r.offsetInBytes then r.offsetInBytes else l.offsetInBytes;
      assert InRange(x, l) && InRange(x, r);
    }
  }

  predicate InRange(x: nat, e: Extent) {
    e.offsetInBytes <= x <= End(e)
  }

  // ---------------------------------------------------------------------
  // markModifiedIfWrite

  /** markModifiedIfWrite: every mode but read marks the record modified; read leaves it as it was. */
  method MarkModifiedIfWrite(record: MemObjRecord, req: Requirement)
    modifies record
    ensures record.memModified == (old(record.memModified) || req.accessMode != Read)
  {
    match req.accessMode
    case Write | ReadWrite | DiscardWrite | DiscardReadWrite | Atomic =>
      record.memModified := true;
    case Read =>
  }

  // ---------------------------------------------------------------------
  // combineAccessModesOfReqs

  /** The memory object of each requirement. */
  function MemObjsOf(reqs: seq<Requirement>): (objs: seq<MemObj>)
    ensures |objs| == |reqs| && forall i :: 0 <= i < |reqs| ==> objs[i] == reqs[i].memObj
  {
    if reqs == [] then [] else [reqs[0].memObj] + MemObjsOf(reqs[1..])
  }

  /** The access mode of each requirement. */
  function ModesOf(reqs: seq<Requirement>): (modes: seq<Mode>)
    reads set r | r in reqs
    ensures |modes| == |reqs| && forall i :: 0 <= i < |reqs| ==> modes[i] == reqs[i].accessMode
  {
    if reqs == [] then [] else [reqs[0].accessMode] + ModesOf(reqs[1..])
  }

  /** Some memory object occurs twice. */
  predicate HasDuplicates(objs: seq<MemObj>) {
    exists i, j :: 0 <= i < j < |objs| && objs[i] == objs[j]
  }

  lemma HasDuplicatesSnoc(objs: seq<MemObj>, o: MemObj)
    ensures HasDuplicates(objs + [o]) <==> HasDuplicates(objs) || o in objs
  {
    var s := objs + [o];
    if o in objs {
      var i :| 0 <= i < |objs| && objs[i] == o;
      assert s[i] == s[|objs|];
    }
    if HasDuplicates(s) {
      var i, j :| 0 <= i < j < |s| && s[i] == s[j];
      if j < |objs| {
        assert objs[i] == objs[j];
      } else {
        assert objs[i] == o;
      }
    }
    if HasDuplicates(objs) {
      var i, j :| 0 <= i < j < |objs| && objs[i] == objs[j];
      assert s[i] == s[j];
    }
  }

  /**
    The `CombinedModes` map after the first loop of combineAccessModesOfReqs:
    the first mode seen for a memory object is inserted, and each later one
    is combined into its entry.
  */
  function CombinedModes(objs: seq<MemObj>, modes: seq<Mode>): (m: map<MemObj, Mode>)
    requires |objs| == |modes|
    ensures m.Keys == set o | o in objs
    decreases |objs|
  {
    if objs == [] then map[]
    else
      var n := |objs| - 1;
      var m := CombinedModes(objs[..n], modes[..n]);
      assert objs == objs[..n] + [objs[n]];
      if objs[n] in m then m[objs[n] := CombineAccessModes(m[objs[n]], modes[n])]
      else m[objs[n] := modes[n]]
  }

  /** The modes of the requirements on `o`, in order. */
  function ModesOn(objs: seq<MemObj>, modes: seq<Mode>, o: MemObj): (ms: seq<Mode>)
    requires |objs| == |modes|
    ensures ms == [] <==> o !in objs
    decreases |objs|
  {
    if objs == [] then []
    else
      var n := |objs| - 1;
      var init := ModesOn(objs[..n], modes[..n], o);
      assert o in objs <==> o in objs[..n] || o == objs[n];
      if objs[n] == o then init + [modes[n]] else init
  }

  /** Every entry of the map is the left fold of combineAccessModes over the modes on that object. */
  lemma {:induction false} CombinedModesIsFold(objs: seq<MemObj>, modes: seq<Mode>, o: MemObj)
    requires |objs| == |modes| && o in objs
    ensures CombinedModes(objs, modes)[o] == CombineAll(ModesOn(objs, modes, o))
    decreases |objs|
  {
    var n := |objs| - 1;
    var init := ModesOn(objs[..n], modes[..n], o);
    if o in objs[..n] {
      CombinedModesIsFold(objs[..n], modes[..n], o);
      if objs[n] == o {
        var ms := init + [modes[n]];
        assert ms[..|ms| - 1] == init;
      }
    }
  }

  /** The mode of a requirement is one of the modes on its memory object. */
  lemma {:induction false} ModeIsOnItsObject(objs: seq<MemObj>, modes: seq<Mode>, i: nat)
    requires |objs| == |modes| && i < |objs|
    ensures modes[i] in ModesOn(objs, modes, objs[i])
    decreases |objs|
  {
    var n := |objs| - 1;
    if i < n {
      ModeIsOnItsObject(objs[..n], modes[..n], i);
    }
  }

  /** The merged mode of each requirement allows the mode it had. */
  lemma CombinedModeServesEach(objs: seq<MemObj>, modes: seq<Mode>, i: nat)
    requires |objs| == |modes| && i < |objs|
    ensures Below(modes[i], CombinedModes(objs, modes)[objs[i]])
    ensures IsAccessModeAllowed(modes[i], CombinedModes(objs, modes)[objs[i]])
  {
    CombinedModesIsFold(objs, modes, objs[i]);
    ModeIsOnItsObject(objs, modes, i);
    CombineAllCovers(ModesOn(objs, modes, objs[i]));
    BelowAllowed(modes[i], CombinedModes(objs, modes)[objs[i]]);
  }

  /** One step of the first loop of combineAccessModesOfReqs. */
  lemma CombinedModesStep(objs: seq<MemObj>, modes: seq<Mode>, i: nat)
    requires |objs| == |modes| && i < |objs|
    ensures var m := CombinedModes(objs[..i], modes[..i]);
      CombinedModes(objs[..i + 1], modes[..i + 1]) ==
        if objs[i] in m then m[objs[i] := CombineAccessModes(m[objs[i]], modes[i])] else m[objs[i] := modes[i]]
    ensures HasDuplicates(objs[..i + 1]) <==> HasDuplicates(objs[..i]) || objs[i] in CombinedModes(objs[..i], modes[..i])
  {
    assert objs[..i + 1][..i] == objs[..i] && modes[..i + 1][..i] == modes[..i];
    assert objs[..i + 1] == objs[..i] + [objs[i]];
    HasDuplicatesSnoc(objs[..i], objs[i]);
  }

  /**
    combineAccessModesOfReqs: when some memory object has several
    requirements, every requirement gets the combination of all the modes on
    its memory object; otherwise nothing changes.
  */
  method CombineAccessModesOfReqs(reqs: seq<Requirement>)
    modifies set r | r in reqs
    ensures var objs := MemObjsOf(reqs);
      var modes := old(ModesOf(reqs));
      forall i :: 0 <= i < |reqs| ==>
        reqs[i].accessMode == if HasDuplicates(objs) then CombinedModes(objs, modes)[objs[i]] else modes[i]
  {
    ghost var objs, modes := MemObjsOf(reqs), ModesOf(reqs);
    var combined: map<MemObj, Mode> := map[];
    var hasDuplicateMemObjects := false;
    var i := 0;
    while i < |reqs|
      invariant 0 <= i <= |reqs|
      invariant combined == CombinedModes(objs[..i], modes[..i])
      invariant hasDuplicateMemObjects == HasDuplicates(objs[..i])
      invariant forall j :: 0 <= j < |reqs| ==> reqs[j].accessMode == modes[j]
    {
      var req := reqs[i];
      CombinedModesStep(objs, modes, i);
      if req.memObj in combined {
        combined := combined[req.memObj := CombineAccessModes(combined[req.memObj], req.accessMode)];
        hasDuplicateMemObjects := true;
      } else {
        combined := combined[req.memObj := req.accessMode];
      }
      i := i + 1;
    }
    assert objs[..i] == objs && modes[..i] == modes;
    if !hasDuplicateMemObjects {
      return;
    }
    forall r | r in reqs ensures r.memObj in combined {
      var j :| 0 <= j < |reqs| && reqs[j] == r;
      assert objs[j] in objs;
    }
    AssignCombinedModes(reqs, combined);
  }

  /** The second loop of combineAccessModesOfReqs: each requirement takes its memory object's entry. */
  method AssignCombinedModes(reqs: seq<Requirement>, combined: map<MemObj, Mode>)
    requires forall r | r in reqs :: r.memObj in combined
    modifies set r | r in reqs
    ensures forall j :: 0 <= j < |reqs| ==> reqs[j].accessMode == combined[reqs[j].memObj]
  {
    var i := 0;
    while i < |reqs|
      invariant 0 <= i <= |reqs|
      invariant forall j :: 0 <= j < i ==> reqs[j].accessMode == combined[reqs[j].memObj]
    {
      reqs[i].accessMode := combined[reqs[i].memObj];
      i := i + 1;
    }
  }

  // ---------------------------------------------------------------------
  // The graph builder's own state

  /** `s` without its first occurrence of `x`, and unchanged when `x` does not occur. */
  function RemoveFirst(s: seq<MemObj>, x: MemObj): seq<MemObj> {
    if s == [] then []
    else if s[0] == x then s[1..]
    else [s[0]] + RemoveFirst(s[1..], x)
  }

  lemma {:induction false} RemoveFirstAt(s: seq<MemObj>, x: MemObj, i: nat)
    requires i <= |s| && forall j :: 0 <= j < i ==> s[j] != x
    ensures i < |s| && s[i] == x ==> RemoveFirst(s, x) == s[..i] + s[i + 1..]
    ensures i == |s| ==> RemoveFirst(s, x) == s
    decreases i
  {
    if i > 0 {
      RemoveFirstAt(s[1..], x, i - 1);
      assert s[1..][..i - 1] == s[1..i];
      assert s[..i] == [s[0]] + s[1..i];
      if i < |s| { assert s[1..][i..] == s[i + 1..]; }
      if i == |s| { assert s == [s[0]] + s[1..]; }
    }
  }

  /** Removing takes exactly one occurrence of `x` away when there is one, and nothing else. */
  lemma {:induction false} RemoveFirstMultiset(s: seq<MemObj>, x: MemObj)
    ensures multiset(RemoveFirst(s, x)) == if x in s then multiset(s) - multiset{x} else multiset(s)
  {
    if s != [] {
      var t := s[1..];
      RemoveFirstMultiset(t, x);
      assert s == [s[0]] + t;
      assert multiset(s) == multiset{s[0]} + multiset(t);
      if s[0] != x {
        var r := RemoveFirst(t, x);
        assert RemoveFirst(s, x) == [s[0]] + r;
        assert multiset(RemoveFirst(s, x)) == multiset{s[0]} + multiset(r);
        assert x in s <==> x in t;
      }
    }
  }

  /** The order of what remains is kept: the result is `s` without the position of the first `x`. */
  lemma RemoveFirstKeepsOrder(s: seq<MemObj>, x: MemObj, i: nat)
    requires i < |s| && s[i] == x && x !in s[..i]
    ensures RemoveFirst(s, x) == s[..i] + s[i + 1..]
  {
    forall j | 0 <= j < i ensures s[j] != x {
      assert s[j] == s[..i][j];
    }
    RemoveFirstAt(s, x, i);
  }

  /** The name of printing point `k`, in the order of MPrintOptionsArray. */
  function OptionName(k: nat): string
    requires k < 8
  {
    match k
    case 0 => "before_addCG"
    case 1 => "after_addCG"
    case 2 => "before_addCopyBack"
    case 3 => "after_addCopyBack"
    case 4 => "before_addHostAcc"
    case 5 => "after_addHostAcc"
    case 6 => "after_fusionComplete"
    case 7 => "after_fusionCancel"
  }

  /** `sub` occurs in `s` at position `i`. */
  predicate OccursAt(s: string, sub: string, i: nat) {
    i + |sub| <= |s| && s[i..i + |sub|] == sub
  }

  /** `s.find(sub) != std::string::npos` */
  predicate Contains(s: string, sub: string) {
    exists i: nat | i <= |s| :: OccursAt(s, sub, i)
  }

  /** Whether the printing option k is set for the SYCL_PRINT_EXECUTION_GRAPH value `env`. */
  predicate PrintOptionSet(env: Option<string>, k: nat)
    requires k < 8
  {
    env.Some? && (Contains(env.value, "always") || Contains(env.value, OptionName(k)))
  }

  class GraphBuilder {
    const printOptions: array<bool>
    var memObjs: seq<MemObj>

    /**
      The constructor's option parsing: with "always" in the value every
      option is set, otherwise exactly those whose names occur in it.
    */
    constructor (env: Option<string>)
      ensures fresh(printOptions) && printOptions.Length == 8
      ensures forall k :: 0 <= k < 8 ==> printOptions[k] == PrintOptionSet(env, k)
      ensures memObjs == []
    {
      memObjs := [];
      printOptions := new bool[8](_ => false);
      new;
      if env.Some? {
        var graphPrintOpts := env.value;
        var enableAlways := Contains(graphPrintOpts, "always");
        EnableIfNamed(graphPrintOpts, enableAlways, 0);
        EnableIfNamed(graphPrintOpts, enableAlways, 1);
        EnableIfNamed(graphPrintOpts, enableAlways, 2);
        EnableIfNamed(graphPrintOpts, enableAlways, 3);
        EnableIfNamed(graphPrintOpts, enableAlways, 4);
        EnableIfNamed(graphPrintOpts, enableAlways, 5);
        EnableIfNamed(graphPrintOpts, enableAlways, 6);
        EnableIfNamed(graphPrintOpts, enableAlways, 7);
      }
    }

    /** One of the constructor's tests: option k is set when its name occurs in the value or "always" does. */
    method EnableIfNamed(graphPrintOpts: string, enableAlways: bool, k: nat)
      requires k < printOptions.Length == 8
      modifies printOptions
      ensures forall j :: 0 <= j < 8 ==>
        printOptions[j] == (old(printOptions[j]) || (j == k && (Contains(graphPrintOpts, OptionName(k)) || enableAlways)))
    {
      if Contains(graphPrintOpts, OptionName(k)) || enableAlways {
        printOptions[k] := true;
      }
    }

    /**
      removeRecordForMemObj: erase the first occurrence of the memory object
      from the tracked list, if any, and reset the object's record.
    */
    method RemoveRecordForMemObj(memObject: MemObj)
      modifies this, memObject
      ensures memObjs == RemoveFirst(old(memObjs), memObject)
      ensures memObject.record == null
    {
      var it := 0;
      while it < |memObjs| && memObjs[it] != memObject
        invariant 0 <= it <= |memObjs|
        invariant forall j :: 0 <= j < it ==> memObjs[j] != memObject
      {
        it := it + 1;
      }
      RemoveFirstAt(memObjs, memObject, it);
      if it < |memObjs| {
        memObjs := memObjs[..it] + memObjs[it + 1..];
      }
      memObject.record := null;
    }
  }

  /** The option "always" sets every printing point. */
  lemma AlwaysSetsAll(env: string, k: nat)
    requires k < 8 && Contains(env, "always")
    ensures PrintOptionSet(Some(env), k)
  {
  }

  /** Without "always", a printing point is set exactly when its name occurs in the value. */
  lemma OptionSetByName(env: string, k: nat)
    requires k < 8 && !Contains(env, "always")
    ensures PrintOptionSet(Some(env), k) <==> exists i: nat :: OccursAt(env, OptionName(k), i)
  {
  }
}
