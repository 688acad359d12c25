/** Selection of the areas to scan: one pass over the map that jumps over whole objects and
    whole address ranges, and the plain per-area filter it agrees with. */
module MapAreaSet {
  import opened Target

  datatype AddrRange = AddrRange(min: int, max: int)

  /** The scan constraints. Areas and objects are identified by list position. */
  datatype Constraints = Constraints(
    omitAreas: Option<seq<nat>>,
    omitObjs: Option<seq<nat>>,
    exclusiveAreas: Option<seq<nat>>,
    exclusiveObjs: Option<seq<nat>>,
    omitAddrRanges: Option<seq<AddrRange>>,
    exclusiveAddrRanges: Option<seq<AddrRange>>,
    access: Option<bv8>)

  // "[vvar]", "/dev", "/memfd" and "/run", as bytes
  const PATHNAME_BLACKLIST: seq<seq<byte>> := [
    [0x5B, 0x76, 0x76, 0x61, 0x72, 0x5D],
    [0x2F, 0x64, 0x65, 0x76],
    [0x2F, 0x6D, 0x65, 0x6D, 0x66, 0x64],
    [0x2F, 0x72, 0x75, 0x6E]]

  // ----- the filter -----

  /** Every permission asked for is present. */
  predicate Permits(access: bv8, wanted: bv8) {
    access & wanted & 0x0F == wanted & 0x0F
  }

  predicate Contains(r: AddrRange, area: Area) {
    r.min <= area.start && area.end <= r.max
  }

  predicate InSome<T(==)>(x: T, among: Option<seq<T>>) {
    among.Some? && x in among.value
  }

  predicate InSomeRange(area: Area, ranges: Option<seq<AddrRange>>) {
    ranges.Some? && exists i :: 0 <= i < |ranges.value| && Contains(ranges.value[i], area)
  }

  predicate ObjectRejected(c: Constraints, vmap: VmMap, o: nat)
    requires o < |vmap.objs|
  {
    InSome(o, c.omitObjs) || vmap.objs[o].pathname in PATHNAME_BLACKLIST
  }

  predicate Omitted(c: Constraints, vmap: VmMap, n: nat)
    requires MapWellFormed(vmap) && n < |vmap.areas|
  {
    var area := vmap.areas[n];
    || (c.access.Some? && !Permits(area.access, c.access.value))
    || (area.obj.Some? && ObjectRejected(c, vmap, area.obj.value))
    || InSome(n, c.omitAreas)
    || InSomeRange(area, c.omitAddrRanges)
  }

  predicate ExclusiveUsed(c: Constraints) {
    c.exclusiveObjs.Some? || c.exclusiveAreas.Some? || c.exclusiveAddrRanges.Some?
  }

  predicate Exclusive(c: Constraints, vmap: VmMap, n: nat)
    requires n < |vmap.areas|
  {
    var area := vmap.areas[n];
    || (area.obj.Some? && InSome(area.obj.value, c.exclusiveObjs))
    || InSome(n, c.exclusiveAreas)
    || InSomeRange(area, c.exclusiveAddrRanges)
  }

  /** What the documentation asks of an area: in no omitting set, and in some exclusive set when
      there are any. */
  predicate Selected(c: Constraints, vmap: VmMap, n: nat)
    requires MapWellFormed(vmap) && n < |vmap.areas|
  {
    !Omitted(c, vmap, n) && (ExclusiveUsed(c) ==> Exclusive(c, vmap, n))
  }

  /** Areas are in address order without overlap, and from any area of an object to the last one
      of the object there are only areas of that object. */
  predicate MapWellFormed(vmap: VmMap) {
    && (forall i, j :: 0 <= i < j < |vmap.areas| ==> vmap.areas[i].end <= vmap.areas[j].start)
    && (forall i :: 0 <= i < |vmap.areas| ==> vmap.areas[i].start <= vmap.areas[i].end)
    && forall i :: 0 <= i < |vmap.areas| && vmap.areas[i].obj.Some? ==>
         var o := vmap.areas[i].obj.value;
         && o < |vmap.objs| && vmap.objs[o].areas != []
         && i <= LastArea(vmap.objs[o]) < |vmap.areas|
         && forall k :: i <= k <= LastArea(vmap.objs[o]) ==> vmap.areas[k].obj == Some(o)
  }

  function LastArea(obj: Obj): nat
    requires obj.areas != []
  {
    obj.areas[|obj.areas| - 1]
  }

  // ----- the helpers of the pass -----

  method IsAccess(areaAccess: bv8, accessBitfield: bv8) returns (r: bool)
    ensures r == Permits(areaAccess, accessBitfield)
    ensures r <==>
              && (accessBitfield & 1 != 0 ==> areaAccess & 1 != 0) && (accessBitfield & 2 != 0 ==> areaAccess & 2 != 0)
              && (accessBitfield & 4 != 0 ==> areaAccess & 4 != 0) && (accessBitfield & 8 != 0 ==> areaAccess & 8 != 0)
  {
    var bitmask: bv8 := 1;
    while bitmask <= 8
      invariant bitmask == 1 || bitmask == 2 || bitmask == 4 || bitmask == 8 || bitmask == 16
      invariant areaAccess & accessBitfield & (bitmask - 1) == accessBitfield & (bitmask - 1)
      decreases 16 - bitmask as int
    {
      var areaAccessBit := areaAccess & bitmask;
      var accessBitfieldBit := accessBitfield & bitmask;
      if accessBitfieldBit != 0 {
        if areaAccessBit & accessBitfieldBit == 0 {
          return false;
        }
      }
      bitmask := bitmask << 1;
    }
    return true;
  }

  method InAddrRanges(area: Area, ranges: seq<AddrRange>) returns (r: Option<AddrRange>)
    ensures r.Some? <==> InSomeRange(area, Some(ranges))
    ensures r.Some? ==> r.value in ranges && Contains(r.value, area)
    ensures r.Some? ==> r.value.min <= area.start && area.end <= r.value.max
    ensures r.None? ==> forall i :: 0 <= i < |ranges| ==> !(ranges[i].min <= area.start && area.end <= ranges[i].max)
  {
    for i := 0 to |ranges|
      invariant forall j :: 0 <= j < i ==> !Contains(ranges[j], area)
    {
      if ranges[i].min <= area.start && area.end <= ranges[i].max {
        return Some(ranges[i]);
      }
    }
    return None;
  }

  method IsBlacklisted(pathname: seq<byte>) returns (r: bool)
    ensures r <==> pathname in PATHNAME_BLACKLIST
    ensures r <==>
              || pathname == [0x5B, 0x76, 0x76, 0x61, 0x72, 0x5D] || pathname == [0x2F, 0x64, 0x65, 0x76]
              || pathname == [0x2F, 0x6D, 0x65, 0x6D, 0x66, 0x64] || pathname == [0x2F, 0x72, 0x75, 0x6E]
  {
    for i := 0 to |PATHNAME_BLACKLIST|
      invariant forall j :: 0 <= j < i ==> pathname != PATHNAME_BLACKLIST[j]
    {
      if pathname == PATHNAME_BLACKLIST[i] {
        return true;
      }
    }
    return false;
  }

  // ----- the pass -----

  /** Areas `from` to `to` are all left out by the filter. */
  ghost predicate NoneSelected(c: Constraints, vmap: VmMap, from: nat, to: nat)
    requires MapWellFormed(vmap) && to <= |vmap.areas|
  {
    forall k :: from <= k < to ==> !Selected(c, vmap, k)
  }

  /** A rejected object may be skipped to its last area. */
  lemma SkipObject(c: Constraints, vmap: VmMap, n: nat)
    requires MapWellFormed(vmap) && n < |vmap.areas| && vmap.areas[n].obj.Some?
    requires ObjectRejected(c, vmap, vmap.areas[n].obj.value)
    ensures NoneSelected(c, vmap, n, LastArea(vmap.objs[vmap.areas[n].obj.value]) + 1)
  {
  }

  /** Exactly the selected areas before position `upTo`. */
  ghost predicate Collected(c: Constraints, vmap: VmMap, nodes: set<nat>, upTo: nat)
    requires MapWellFormed(vmap) && upTo <= |vmap.areas|
  {
    forall k: nat :: k in nodes <==> k < upTo && Selected(c, vmap, k)
  }

  /** Permission by permission: every one of the four that is asked for is there. */
  lemma PermitsExactly(access: bv8, wanted: bv8)
    ensures Permits(access, wanted) <==>
              && (wanted & 1 != 0 ==> access & 1 != 0) && (wanted & 2 != 0 ==> access & 2 != 0)
              && (wanted & 4 != 0 ==> access & 4 != 0) && (wanted & 8 != 0 ==> access & 8 != 0)
  {
  }

  /** The set of a finished pass, clause by clause: an area is in it exactly if it has every permission
      asked for, neither it nor its object is omitted, its object has none of the four pathnames, no
      omitted range holds it, and an exclusive set or range holds it or its object if any are given. */
  lemma SelectionExactly(c: Constraints, vmap: VmMap, nodes: set<nat>, n: nat)
    requires MapWellFormed(vmap) && Collected(c, vmap, nodes, |vmap.areas|)
    ensures n in nodes <==>
      && n < |vmap.areas|
      && var area := vmap.areas[n];
         && (c.access.Some? ==>
               && (c.access.value & 1 != 0 ==> area.access & 1 != 0)
               && (c.access.value & 2 != 0 ==> area.access & 2 != 0)
               && (c.access.value & 4 != 0 ==> area.access & 4 != 0)
               && (c.access.value & 8 != 0 ==> area.access & 8 != 0))
         && (c.omitAreas.Some? ==> n !in c.omitAreas.value)
         && (c.omitObjs.Some? && area.obj.Some? ==> area.obj.value !in c.omitObjs.value)
         && (area.obj.Some? ==>
               var pathname := vmap.objs[area.obj.value].pathname;
               && pathname != [0x5B, 0x76, 0x76, 0x61, 0x72, 0x5D] && pathname != [0x2F, 0x64, 0x65, 0x76]
               && pathname != [0x2F, 0x6D, 0x65, 0x6D, 0x66, 0x64] && pathname != [0x2F, 0x72, 0x75, 0x6E])
         && (c.omitAddrRanges.Some? ==>
               var rs := c.omitAddrRanges.value;
               forall i :: 0 <= i < |rs| ==> !(rs[i].min <= area.start && area.end <= rs[i].max))
         && (c.exclusiveAreas.Some? || c.exclusiveObjs.Some? || c.exclusiveAddrRanges.Some? ==>
               || (c.exclusiveAreas.Some? && n in c.exclusiveAreas.value)
               || (c.exclusiveObjs.Some? && area.obj.Some? && area.obj.value in c.exclusiveObjs.value)
               || (c.exclusiveAddrRanges.Some? &&
                   var rs := c.exclusiveAddrRanges.value;
                   exists i :: 0 <= i < |rs| && rs[i].min <= area.start && area.end <= rs[i].max))
  {
    if n < |vmap.areas| && c.access.Some? {
      PermitsExactly(vmap.areas[n].access, c.access.value);
    }
  }

  class AreaSet {
    var areaNodes: set<nat>

    constructor ()
      ensures areaNodes == {}
    {
      areaNodes := {};
    }

    /** Walk from an area in an omitted range to the first area that ends beyond the range, or
        past the end of the list. */
    static method SkipRange(c: Constraints, vmap: VmMap, from: nat, r: AddrRange) returns (next: nat)
      requires MapWellFormed(vmap) && from < |vmap.areas|
      requires c.omitAddrRanges.Some? && r in c.omitAddrRanges.value && Contains(r, vmap.areas[from])
      ensures from < next <= |vmap.areas| && NoneSelected(c, vmap, from, next)
    {
      next := from;
      var area := vmap.areas[next];
      while area.end <= r.max
        invariant from <= next < |vmap.areas| && area == vmap.areas[next]
        invariant from < next || area.end <= r.max
        invariant NoneSelected(c, vmap, from, next)
        decreases |vmap.areas| - next
      {
        assert r.min <= area.start;
        assert Contains(r, area);
        next := next + 1;
        if next == |vmap.areas| {
          break;
        }
        area := vmap.areas[next];
      }
    }

    /** Whether an area passes every test of one turn of the loop, and where the walk goes on. */
    method Consider(c: Constraints, vmap: VmMap, node: nat) returns (next: nat)
      requires MapWellFormed(vmap) && node < |vmap.areas|
      requires Collected(c, vmap, areaNodes, node)
      modifies this
      ensures node < next <= |vmap.areas|
      ensures Collected(c, vmap, areaNodes, next)
    {
      var area := vmap.areas[node];
      if c.access.Some? && c.access.value != 0 {
        var permitted := IsAccess(area.access, c.access.value);
        if !permitted {
          return node + 1;
        }
      }
      if area.obj.Some? {
        var o := area.obj.value;
        var rejected := c.omitObjs.Some? && o in c.omitObjs.value;
        if !rejected {
          rejected := IsBlacklisted(vmap.objs[o].pathname);
        }
        if rejected {
          SkipObject(c, vmap, node);
          return LastArea(vmap.objs[o]) + 1;
        }
      }
      if c.omitAreas.Some? && node in c.omitAreas.value {
        return node + 1;
      }
      if c.omitAddrRanges.Some? {
        var r := InAddrRanges(area, c.omitAddrRanges.value);
        if r.Some? {
          next := SkipRange(c, vmap, node, r.value);
          return;
        }
      }
      assert !Omitted(c, vmap, node);
      var add := Includes(c, vmap, node);
      if add {
        areaNodes := areaNodes + {node};
      }
      return node + 1;
    }

    /** Whether the exclusive sets, if there are any, let an area in. */
    static method Includes(c: Constraints, vmap: VmMap, node: nat) returns (add: bool)
      requires node < |vmap.areas|
      ensures add <==> (ExclusiveUsed(c) ==> Exclusive(c, vmap, node))
    {
      var area := vmap.areas[node];
      add := !ExclusiveUsed(c);
      // `obj` may be left over from an earlier area in the source, but then the area's own object
      // is null, which no exclusive set holds
      if c.exclusiveObjs.Some? && area.obj.Some? && area.obj.value in c.exclusiveObjs.value {
        add := true;
      } else if c.exclusiveAreas.Some? && node in c.exclusiveAreas.value {
        add := true;
      } else if c.exclusiveAddrRanges.Some? {
        var r := InAddrRanges(area, c.exclusiveAddrRanges.value);
        if r.Some? {
          add := true;
        }
      }
    }

    /** Rebuild the set. `-1` reports a missing map or an empty selection. */
    method UpdateSet(c: Constraints, vmap: Option<VmMap>) returns (ret: int)
      requires vmap.Some? ==> MapWellFormed(vmap.value)
      modifies this
      ensures vmap.None? || vmap.value.areas == [] ==> ret == -1 && areaNodes == {}
      ensures vmap.Some? ==> Collected(c, vmap.value, areaNodes, |vmap.value.areas|)
      ensures ret == 0 || ret == -1
      ensures ret == -1 <==> areaNodes == {}
    {
      areaNodes := {};
      if vmap.None? || vmap.value.areas == [] {
        return -1;
      }
      var areas := vmap.value.areas;
      var node := 0;
      while node < |areas|
        invariant 0 <= node <= |areas|
        invariant Collected(c, vmap.value, areaNodes, node)
      {
        node := Consider(c, vmap.value, node);
      }
      ret := if areaNodes == {} then -1 else 0;
    }
  }
}
