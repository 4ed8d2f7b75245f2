/**
 The allocator: the two globals of the source (the head of the group list and the
 synthetic address counter) become the fields of one `Allocator` object, and each
 operation becomes a method that updates them in place.
 */
module Mems {
  import opened Chain
  import opened Coalescing

  /**
   A group after `mems_free` hits its segment `si`: the segment is marked free, its
   size is subtracted from `used` in size_t, and the group's list is coalesced.
   */
  function Release(g: Group, si: nat): (r: Group)
    requires si < |g.segments|
    ensures r.psize == g.psize && r.used < SIZE_MOD
    ensures (r.used + g.segments[si].size) % SIZE_MOD == g.used % SIZE_MOD
    ensures NoAdjacentFree(r.segments)
  {
    var seg := g.segments[si];
    var marked := g.segments[si := seg.(kind := Free)];
    CoalesceNoAdjacentFree(marked);
    Group(g.psize, SizeSub(g.used, seg.size), Coalesce(marked))
  }

  /**
   Releasing conserves the group's total segment size, and every allocated segment
   other than the released one keeps its place, size and address.
   */
  lemma ReleaseKeepsOthers(g: Group, si: nat)
    requires si < |g.segments|
    ensures TotalSize(Release(g, si).segments) == TotalSize(g.segments)
    ensures AllocatedOf(Release(g, si).segments)
            == AllocatedOf(g.segments[..si]) + AllocatedOf(g.segments[si + 1..])
  {
    var segs := g.segments;
    var seg := segs[si];
    var marked := segs[si := seg.(kind := Free)];
    assert segs == segs[..si] + [seg] + segs[si + 1..];
    assert marked == segs[..si] + [seg.(kind := Free)] + segs[si + 1..];
    CoalesceKeepsTotal(marked);
    TotalSizeAppend(segs[..si] + [seg], segs[si + 1..]);
    TotalSizeAppend(segs[..si], [seg]);
    TotalSizeAppend(segs[..si] + [seg.(kind := Free)], segs[si + 1..]);
    TotalSizeAppend(segs[..si], [seg.(kind := Free)]);
    TotalSizeCons(seg, []);
    TotalSizeCons(seg.(kind := Free), []);
    CoalesceKeepsAllocated(marked);
    AllocatedOfAppend(segs[..si] + [seg.(kind := Free)], segs[si + 1..]);
    AllocatedOfAppend(segs[..si], [seg.(kind := Free)]);
    assert AllocatedOf([seg.(kind := Free)]) == [] + AllocatedOf([seg.(kind := Free)][1..]);
  }

  /**
   With distinct addresses in the group, the released address can still be found
   after coalescing exactly when the released segment heads the list or follows an
   allocated segment; otherwise it has been absorbed by the free segment before it.
   */
  lemma ReleasedAddressFindable(g: Group, si: nat)
    requires si < |g.segments| && Distinct(g.segments)
    ensures g.segments[si].addr in Addrs(Release(g, si).segments)
            <==> si == 0 || g.segments[si - 1].kind == Allocated
  {
    var seg := g.segments[si];
    var marked := g.segments[si := seg.(kind := Free)];
    assert marked[si].addr == seg.addr;
    if si == 0 || g.segments[si - 1].kind == Allocated {
      SurvivorKept(marked, si);
    } else {
      assert Distinct(marked) by {
        forall i, j | 0 <= i < j < |marked|
          ensures marked[i].addr != marked[j].addr
        {
          assert marked[i].addr == g.segments[i].addr && marked[j].addr == g.segments[j].addr;
        }
      }
      AbsorbedDropped(marked, si);
    }
  }

  /** Marking a segment free leaves the addresses of the list as they were. */
  lemma MarkKeepsAddrs(segs: seq<Segment>, si: nat)
    requires si < |segs|
    ensures Addrs(segs[si := segs[si].(kind := Free)]) == Addrs(segs)
  {
    var marked := segs[si := segs[si].(kind := Free)];
    assert forall j :: 0 <= j < |marked| ==> marked[j].addr == segs[j].addr;
  }

  /** Releasing a segment issues no new address: the group's addresses can only shrink. */
  lemma ReleaseAddrs(g: Group, si: nat)
    requires si < |g.segments|
    ensures Addrs(Release(g, si).segments) <= Addrs(g.segments)
  {
    var marked := g.segments[si := g.segments[si].(kind := Free)];
    MarkKeepsAddrs(g.segments, si);
    CoalesceAddrs(marked);
  }

  /** Releasing a segment keeps the group's addresses distinct. */
  lemma ReleaseDistinct(g: Group, si: nat)
    requires si < |g.segments| && Distinct(g.segments)
    ensures Distinct(Release(g, si).segments)
  {
    var marked := g.segments[si := g.segments[si].(kind := Free)];
    assert forall j :: 0 <= j < |marked| ==> marked[j].addr == g.segments[j].addr;
    CoalesceDistinct(marked);
  }

  /**
   `used` wraps on the first release: a 40-byte segment placed in a fresh page and then
   released leaves `used` at 2^64 - 40, and the head test then refuses a 10-byte
   request that the page has room for.
   */
  lemma ReleaseWrapsUsed()
    ensures var g := Release(Group(PAGE_SIZE, 0, [Segment(40, Allocated, BASE_ADDRESS)]), 0);
            WellFormed(g) && g.used == SIZE_MOD - 40 && Exceeds(g, 10) && HasRoom(g, 10)
  {
    var g := Release(Group(PAGE_SIZE, 0, [Segment(40, Allocated, BASE_ADDRESS)]), 0);
    assert g.used == SIZE_MOD - 40;
    WrappedUsedRejectsRoomyHead(g, 10);
  }

  /** Pushing a segment with an address held nowhere on the front of a group keeps every address unique. */
  lemma PushUnique(groups: seq<Group>, gi: nat, x: Segment)
    requires gi < |groups| && Unique(groups)
    requires forall h :: 0 <= h < |groups| ==> x.addr !in Addrs(groups[h].segments)
    ensures Unique(groups[gi := groups[gi].(segments := [x] + groups[gi].segments)])
  {
    var segs := groups[gi].segments;
    DistinctCons(x, segs);
    AddrsCons(x, segs);
  }

  /** Pushing a segment at or above every held address, and below the bound, keeps every address below the bound. */
  lemma PushIssuedBelow(groups: seq<Group>, gi: nat, x: Segment, bound: nat)
    requires gi < |groups| && IssuedBelow(groups, x.addr) && x.addr < bound
    ensures IssuedBelow(groups[gi := groups[gi].(segments := [x] + groups[gi].segments)], bound)
  {
    AddrsCons(x, groups[gi].segments);
  }

  /** Putting a group with no segments in front keeps every address below the bound. */
  lemma PrependIssuedBelow(groups: seq<Group>, g: Group, bound: nat)
    requires IssuedBelow(groups, bound) && g.segments == []
    ensures IssuedBelow([g] + groups, bound)
  {
    var all := [g] + groups;
    assert forall h :: 1 <= h < |all| ==> all[h] == groups[h - 1];
  }

  /** Putting a distinct group holding no address held elsewhere in front keeps every address unique. */
  lemma PrependUnique(groups: seq<Group>, g: Group)
    requires Unique(groups) && Distinct(g.segments)
    requires forall h :: 0 <= h < |groups| ==> Addrs(g.segments) !! Addrs(groups[h].segments)
    ensures Unique([g] + groups)
  {
    var all := [g] + groups;
    assert forall h :: 1 <= h < |all| ==> all[h] == groups[h - 1];
  }

  /**
   The loop of `combineFreeSubNodes`: walks the list with a current segment, absorbing
   the next segment into it while both are free and otherwise moving on.
   */
  method MergeFreeRuns(segs: seq<Segment>) returns (merged: seq<Segment>)
    ensures merged == Coalesce(segs)
  {
    if segs == [] {
      return [];
    }
    // the list as it is being rewritten is `done + pending`; the walk stands on `pending[0]`
    var done: seq<Segment> := [];
    var pending := segs;
    ghost var target := Coalesce(segs);
    assert done + Coalesce(pending) == target;
    while |pending| > 1
      invariant pending != []
      invariant done + Coalesce(pending) == target
      decreases |pending|
    {
      if pending[0].kind == Free && pending[1].kind == Free {
        // absorb the next segment into the current one and stay on it
        MergeHead(pending);
        pending := [pending[0].(size := pending[0].size + pending[1].size)] + pending[2..];
      } else {
        KeepHead(pending);
        done := done + [pending[0]];
        pending := pending[1..];
      }
    }
    CoalesceSingle(pending);
    merged := done + pending;
  }

  class Allocator {
    /** The group list, head (most recently created) first. */
    var groups: seq<Group>
    /** The synthetic address counter `v_ptr`. */
    var next: nat

    /** Every group has a granted, page-multiple mapping and a size_t `used`. */
    ghost predicate Valid()
      reads this
    {
      forall h :: 0 <= h < |groups| ==> WellFormed(groups[h])
    }

    /** The state at program start: no groups, counter at its base. */
    constructor ()
      ensures Valid() && groups == [] && next == BASE_ADDRESS
    {
      groups := [];
      next := BASE_ADDRESS;
    }

    /**
     `addToMainChain`: maps the request rounded up to a page multiple and pushes the
     new group, with nothing used and no segments, on the front of the list.
     */
    method AddToMainChain(size: nat)
      requires Valid() && 0 < size <= MAX_MAPPING
      modifies this
      ensures Valid() && next == old(next)
      ensures groups == [Group(RoundUp(size), 0, [])] + old(groups)
      ensures groups[0].psize % PAGE_SIZE == 0 && size <= groups[0].psize < size + PAGE_SIZE
    {
      FreshGroupHasRoom(size);
      groups := [Group(RoundUp(size), 0, [])] + groups;
    }

    /**
     `addToSubChain`: pushes a segment carrying the current counter value on the front
     of group `gi`'s list and advances the counter by its size; nothing else changes.
     */
    method AddToSubChain(gi: nat, size: nat, kind: Kind) returns (addr: nat)
      requires Valid() && gi < |groups|
      modifies this
      ensures Valid()
      ensures addr == old(next) && next == old(next) + size
      ensures groups == old(groups)[gi := old(groups)[gi].(segments := [Segment(size, kind, addr)] + old(groups)[gi].segments)]
    {
      addr := next;
      var g := groups[gi];
      groups := groups[gi := g.(segments := [Segment(size, kind, addr)] + g.segments)];
      next := next + size;
    }

    /**
     `mems_init`: resets the counter. The group list is kept, because the source clears
     a local variable that shadows the global head.
     */
    method Init()
      requires Valid()
      modifies this
      ensures Valid() && groups == old(groups) && next == BASE_ADDRESS
    {
      next := BASE_ADDRESS;
    }

    /** `mems_finish`: empties the group list; the counter is not reset. */
    method Finish()
      modifies this
      ensures Valid() && groups == [] && next == old(next)
    {
      groups := [];
    }

    /**
     `mems_malloc`: creates a group first when there is none or the head fails the
     size_t test `used + size > psize`, then places an allocated segment of `size` in the
     head group, whose capacity test always passes, so the scan never moves on and never
     returns NULL. No group's `used` changes. The returned address is the counter's old
     value, is found by translation in the head group, and is new whenever every address
     held so far lies below the counter.
     */
    method Malloc(size: nat) returns (addr: nat)
      requires Valid() && size <= MAX_MAPPING
      requires NeedsGroup(groups, size) ==> 0 < size
      modifies this
      ensures Valid()
      ensures addr == old(next) && next == old(next) + size
      ensures groups == if NeedsGroup(old(groups), size)
                        then [Group(RoundUp(size), 0, [Segment(size, Allocated, addr)])] + old(groups)
                        else old(groups)[0 := old(groups)[0].(segments := [Segment(size, Allocated, addr)] + old(groups)[0].segments)]
      ensures Translate(groups, addr) == Some(Physical(0, 0))
      ensures IssuedBelow(old(groups), old(next)) ==> Locate(old(groups), addr).None?
      ensures IssuedBelow(old(groups), old(next)) && 0 < size ==> IssuedBelow(groups, next)
      ensures IssuedBelow(old(groups), old(next)) && Unique(old(groups)) ==> Unique(groups)
    {
      if groups == [] || Exceeds(groups[0], size) {
        AddToMainChain(size);
        FreshGroupHasRoom(size);
      } else {
        UnexceededHasRoom(groups[0], size);
      }
      // The first group probed always has room: the branch that links a further group
      // and the NULL return after the scan are never reached.
      assert HasRoom(groups[0], size);
      ghost var before := groups;
      addr := AddToSubChain(0, size, Allocated);
      assert [Segment(size, Allocated, addr)] + [] == [Segment(size, Allocated, addr)];
      assert groups[0].segments[0].addr == addr;
      assert FindSegment(groups[0].segments, addr) == Some(0);
      if IssuedBelow(old(groups), old(next)) && NeedsGroup(old(groups), size) {
        PrependIssuedBelow(old(groups), before[0], addr);
      }
      if IssuedBelow(before, addr) && Unique(old(groups)) {
        assert Unique(before) by {
          if NeedsGroup(old(groups), size) {
            PrependUnique(old(groups), before[0]);
          }
        }
        PushUnique(before, 0, Segment(size, Allocated, addr));
      }
      if IssuedBelow(before, addr) && 0 < size {
        PushIssuedBelow(before, 0, Segment(size, Allocated, addr), next);
      }
    }

    /**
     `mems_get`: scans groups head first and each group's segments head first; on the
     first segment holding `a` yields that group with the source's offset, zero.
     */
    method Get(a: nat) returns (r: Option<Physical>)
      ensures r == Translate(groups, a)
    {
      var gi := 0;
      while gi < |groups|
        invariant gi <= |groups|
        invariant forall h :: 0 <= h < gi ==> a !in Addrs(groups[h].segments)
      {
        var segs := groups[gi].segments;
        var si := 0;
        while si < |segs|
          invariant si <= |segs|
          invariant forall j :: 0 <= j < si ==> segs[j].addr != a
        {
          if segs[si].addr == a {
            r := Some(Physical(gi, a - segs[si].addr));
            return;
          }
          si := si + 1;
        }
        gi := gi + 1;
      }
      r := None;
    }

    /** `combineFreeSubNodes`: runs the merge pass over group `gi`'s list in place. */
    method CombineFreeSubNodes(gi: nat)
      requires Valid() && gi < |groups|
      modifies this
      ensures Valid() && next == old(next)
      ensures groups == old(groups)[gi := old(groups)[gi].(segments := Coalesce(old(groups)[gi].segments))]
      ensures Unique(old(groups)) ==> Unique(groups)
    {
      var merged := MergeFreeRuns(groups[gi].segments);
      if Unique(groups) {
        CoalesceDistinct(groups[gi].segments);
        CoalesceAddrs(groups[gi].segments);
        ReplaceUnique(groups, gi, groups[gi].(segments := merged));
      }
      groups := groups[gi := groups[gi].(segments := merged)];
    }

    /**
     `mems_free`: finds the first segment holding `a` as `mems_get` does; on a hit, that
     group becomes its `Release` and every other group is untouched; on a miss nothing
     changes.
     */
    method Free(a: nat)
      requires Valid()
      modifies this
      ensures Valid() && next == old(next)
      ensures Locate(old(groups), a).None? ==> groups == old(groups)
      ensures Locate(old(groups), a).Some? ==>
                var (gi, si) := Locate(old(groups), a).value;
                groups == old(groups)[gi := Release(old(groups)[gi], si)]
      ensures IssuedBelow(old(groups), next) ==> IssuedBelow(groups, next)
      ensures Unique(old(groups)) ==> Unique(groups)
    {
      var gi := 0;
      while gi < |groups|
        invariant gi <= |groups|
        invariant groups == old(groups) && next == old(next)
        invariant forall h :: 0 <= h < gi ==> a !in Addrs(groups[h].segments)
      {
        var g := groups[gi];
        var si := 0;
        while si < |g.segments|
          invariant si <= |g.segments|
          invariant groups == old(groups) && next == old(next)
          invariant forall j :: 0 <= j < si ==> g.segments[j].addr != a
        {
          var seg := g.segments[si];
          if seg.addr == a {
            FirstHit(groups, a, gi, si);
            var marked := g.segments[si := seg.(kind := Kind.Free)];
            groups := groups[gi := Group(g.psize, SizeSub(g.used, seg.size), marked)];
            CombineFreeSubNodes(gi);
            assert groups[gi] == Release(g, si);
            ReleaseAddrs(g, si);
            if IssuedBelow(old(groups), next) {
              ReplaceIssuedBelow(old(groups), gi, groups[gi], next);
            }
            if Unique(old(groups)) {
              ReleaseDistinct(g, si);
              ReplaceUnique(old(groups), gi, groups[gi]);
            }
            return;
          }
          si := si + 1;
        }
        gi := gi + 1;
      }
    }
  }
}
