/**
 The data model of the two-level chain: page groups (`MainChainNode`), each owning a
 list of segments (`SubChainNode`), together with the size_t arithmetic the allocator
 performs on them, its placement tests and the address lookup shared by `mems_get`
 and `mems_free`.

 The `prev` links of both lists are replaced by list order: index 0 is the head.
 */
module Chain {

  /** Granularity of the page source. */
  const PAGE_SIZE: nat := 4096

  /** The first synthetic address handed out after start-up and after `mems_init`. */
  const BASE_ADDRESS: nat := 1000

  /** `size_t` is 64 bits wide: its arithmetic is modulo 2^64. */
  const SIZE_MOD: nat := 0x1_0000_0000_0000_0000

  /**
   The model's assumption about the page source: a mapping of more than zero and at
   most this many bytes (the 47-bit user address space of x86-64 Linux) is granted,
   and any other request is refused, after which the allocator calls `exit(1)`.
   */
  const MAX_MAPPING: nat := 0x8000_0000_0000

  datatype Option<T> = None | Some(value: T)

  /** The `type` field of a segment: 0 is free, 1 is allocated. */
  datatype Kind = Free | Allocated

  /** A segment: its byte length, its kind and the synthetic address it was issued. */
  datatype Segment = Segment(size: nat, kind: Kind, addr: nat)

  /**
   A page group: the byte length of its backing mapping (`psize`), the size_t counter
   `used`, and its segments, most recently created first.
   */
  datatype Group = Group(psize: nat, used: nat, segments: seq<Segment>)

  /** What `mems_get` yields: the owning group (its base) and the offset added to it. */
  datatype Physical = Physical(group: nat, offset: nat)

  /**
   The mapping length `addToMainChain` asks for: the request rounded up to a page
   multiple, computed in size_t, so that a request within a page of 2^64 wraps to 0.
   */
  function RoundUp(size: nat): (r: nat)
    requires size < SIZE_MOD
    ensures r % PAGE_SIZE == 0 && r < SIZE_MOD
    ensures size <= SIZE_MOD - PAGE_SIZE ==> size <= r < size + PAGE_SIZE
    ensures size > SIZE_MOD - PAGE_SIZE ==> r == 0
  {
    (size + PAGE_SIZE - 1) % SIZE_MOD / PAGE_SIZE * PAGE_SIZE
  }

  /** The rounded length lies in the range the model treats as granted exactly when the request itself does. */
  lemma MappableRequest(size: nat)
    requires size < SIZE_MOD
    ensures 0 < RoundUp(size) <= MAX_MAPPING <==> 0 < size <= MAX_MAPPING
  {
    var r := RoundUp(size);
    if 0 < size <= MAX_MAPPING {
      assert r / PAGE_SIZE * PAGE_SIZE == r;
      assert r / PAGE_SIZE <= MAX_MAPPING / PAGE_SIZE;
    }
  }

  /** `used -= size` on size_t. */
  function SizeSub(used: nat, size: nat): (r: nat)
    ensures r < SIZE_MOD
    ensures (r + size) % SIZE_MOD == used % SIZE_MOD
    ensures used < SIZE_MOD && size <= used ==> r == used - size
  {
    (used - size) % SIZE_MOD
  }

  /** The invariant every group keeps: a granted, page-multiple mapping and a size_t `used`. */
  predicate WellFormed(g: Group)
  {
    0 < g.psize <= MAX_MAPPING && g.psize % PAGE_SIZE == 0 && g.used < SIZE_MOD
  }

  /**
   The test `used + size > psize`, evaluated in size_t: the plain comparison while the
   sum fits, and a comparison of the sum less 2^64 once it wraps.
   */
  function Exceeds(g: Group, size: nat): (b: bool)
    requires g.used < SIZE_MOD && size < SIZE_MOD
    ensures g.used + size < SIZE_MOD ==> (b <==> g.used + size > g.psize)
    ensures g.used + size >= SIZE_MOD ==> (b <==> g.used + size - SIZE_MOD > g.psize)
  {
    (g.used + size) % SIZE_MOD > g.psize
  }

  /**
   The capacity test `psize - used >= size`, evaluated in size_t: the plain comparison
   while `used <= psize`, and one against the difference plus 2^64 once it is negative.
   */
  function HasRoom(g: Group, size: nat): (b: bool)
    requires g.used < SIZE_MOD && g.psize < SIZE_MOD
    ensures g.used <= g.psize ==> (b <==> g.psize - g.used >= size)
    ensures g.used > g.psize ==> (b <==> g.psize - g.used + SIZE_MOD >= size)
  {
    (g.psize - g.used) % SIZE_MOD >= size
  }

  /**
   Whether `mems_malloc` creates a group before it scans: there is no head, or the head
   fails the test `used + size > psize`. A head whose sum does not wrap is kept exactly
   when the request fits in what is left of its mapping.
   */
  function NeedsGroup(groups: seq<Group>, size: nat): (b: bool)
    requires groups != [] ==> groups[0].used < SIZE_MOD
    requires size < SIZE_MOD
    ensures groups == [] ==> b
    ensures groups != [] && groups[0].used + size < SIZE_MOD ==>
              (b <==> groups[0].used + size > groups[0].psize)
  {
    groups == [] || Exceeds(groups[0], size)
  }

  /** A group fresh from `addToMainChain` is well formed and passes the capacity test for its request. */
  lemma FreshGroupHasRoom(size: nat)
    requires 0 < size <= MAX_MAPPING
    ensures WellFormed(Group(RoundUp(size), 0, [])) && HasRoom(Group(RoundUp(size), 0, []), size)
  {
    MappableRequest(size);
  }

  /**
   A well-formed head that does not exceed its mapping for a request the page source
   could grant also passes the capacity test, so the scan never reaches its second group.
   */
  lemma UnexceededHasRoom(g: Group, size: nat)
    requires WellFormed(g) && size <= MAX_MAPPING
    requires !Exceeds(g, size)
    ensures HasRoom(g, size)
  {
    if g.used <= g.psize {
      assert (g.used + size) % SIZE_MOD == g.used + size;
      assert (g.psize - g.used) % SIZE_MOD == g.psize - g.used;
    } else {
      assert (g.psize - g.used) % SIZE_MOD == g.psize - g.used + SIZE_MOD;
      assert (g.used + size) % SIZE_MOD
             == if g.used + size < SIZE_MOD then g.used + size else g.used + size - SIZE_MOD;
    }
  }

  /**
   Once `used` has wrapped below zero, the head test rejects every request smaller than
   the amount by which it wrapped, although the capacity test passes for all of them.
   */
  lemma WrappedUsedRejectsRoomyHead(g: Group, size: nat)
    requires WellFormed(g) && g.used > g.psize && g.used + size < SIZE_MOD
    ensures Exceeds(g, size) && HasRoom(g, size)
  {
  }

  /** The synthetic addresses held by a list of segments. */
  function Addrs(segs: seq<Segment>): set<nat>
  {
    set j | 0 <= j < |segs| :: segs[j].addr
  }

  /** Whether no two segments of the list hold the same address. */
  predicate Distinct(segs: seq<Segment>)
  {
    forall i, j :: 0 <= i < j < |segs| ==> segs[i].addr != segs[j].addr
  }

  /** The inner search of `mems_get` and `mems_free`: the position of the first segment holding `a`. */
  function FindSegment(segs: seq<Segment>, a: nat): (r: Option<nat>)
    ensures r.None? <==> a !in Addrs(segs)
    ensures r.Some? ==> r.value < |segs| && segs[r.value].addr == a
                        && forall j :: 0 <= j < r.value ==> segs[j].addr != a
  {
    if segs == [] then None
    else if segs[0].addr == a then Some(0)
    else
      match FindSegment(segs[1..], a)
      case None =>
        assert forall j :: 1 <= j < |segs| ==> segs[j] == segs[1..][j - 1];
        None
      case Some(j) => Some(j + 1)
  }

  /**
   The nested search of `mems_get` and `mems_free`: the first group, head first, holding
   `a`, and the first of its segments holding it.
   */
  function Locate(groups: seq<Group>, a: nat): (r: Option<(nat, nat)>)
    ensures r.None? <==> forall h :: 0 <= h < |groups| ==> a !in Addrs(groups[h].segments)
    ensures r.Some? ==> r.value.0 < |groups|
                        && FindSegment(groups[r.value.0].segments, a) == Some(r.value.1)
                        && forall h :: 0 <= h < r.value.0 ==> a !in Addrs(groups[h].segments)
  {
    if groups == [] then None
    else
      match FindSegment(groups[0].segments, a)
      case Some(si) => Some((0, si))
      case None =>
        match Locate(groups[1..], a)
        case None =>
          assert forall h :: 1 <= h < |groups| ==> groups[h] == groups[1..][h - 1];
          None
        case Some((gi, si)) =>
          assert forall h :: 1 <= h < gi + 1 ==> groups[h] == groups[1..][h - 1];
          Some((gi + 1, si))
  }

  /** A hit at `(gi, si)` with no hit in an earlier group or earlier in its own list is what `Locate` finds. */
  lemma FirstHit(groups: seq<Group>, a: nat, gi: nat, si: nat)
    requires gi < |groups| && si < |groups[gi].segments| && groups[gi].segments[si].addr == a
    requires forall h :: 0 <= h < gi ==> a !in Addrs(groups[h].segments)
    requires forall j :: 0 <= j < si ==> groups[gi].segments[j].addr != a
    ensures Locate(groups, a) == Some((gi, si))
  {
    assert a in Addrs(groups[gi].segments);
  }

  /**
   `mems_get`: the owning group of the first segment holding `a`, with the offset the
   source adds to that group's base, which is always zero; nothing when no segment holds `a`.
   */
  function Translate(groups: seq<Group>, a: nat): (r: Option<Physical>)
    ensures r.None? <==> forall h :: 0 <= h < |groups| ==> a !in Addrs(groups[h].segments)
    ensures r.Some? ==> r.value.offset == 0 && r.value.group < |groups|
                        && a in Addrs(groups[r.value.group].segments)
                        && forall h :: 0 <= h < r.value.group ==> a !in Addrs(groups[h].segments)
  {
    match Locate(groups, a)
    case None => None
    case Some((gi, si)) => Some(Physical(gi, a - groups[gi].segments[si].addr))
  }

  /** Every synthetic address held anywhere in the chain lies below `bound`. */
  predicate IssuedBelow(groups: seq<Group>, bound: nat)
  {
    forall h, a :: 0 <= h < |groups| && a in Addrs(groups[h].segments) ==> a < bound
  }

  /** No address is held twice: the segments of each group and of different groups are distinct. */
  predicate Unique(groups: seq<Group>)
  {
    (forall h :: 0 <= h < |groups| ==> Distinct(groups[h].segments))
    && forall h, k :: 0 <= h < k < |groups| ==> Addrs(groups[h].segments) !! Addrs(groups[k].segments)
  }

  /** A segment whose address is not in a distinct list can be put in front of it. */
  lemma DistinctCons(x: Segment, r: seq<Segment>)
    requires Distinct(r) && x.addr !in Addrs(r)
    ensures Distinct([x] + r)
  {
    var s := [x] + r;
    forall i, j | 0 <= i < j < |s|
      ensures s[i].addr != s[j].addr
    {
      assert s[j] == r[j - 1];
      if i > 0 {
        assert s[i] == r[i - 1];
      }
    }
  }

  /** Replacing a group by a distinct one holding no new address keeps every address unique. */
  lemma ReplaceUnique(groups: seq<Group>, gi: nat, g: Group)
    requires gi < |groups| && Unique(groups)
    requires Distinct(g.segments) && Addrs(g.segments) <= Addrs(groups[gi].segments)
    ensures Unique(groups[gi := g])
  {
  }

  /** Replacing a group by one holding no new address keeps every address below the bound. */
  lemma ReplaceIssuedBelow(groups: seq<Group>, gi: nat, g: Group, bound: nat)
    requires gi < |groups| && IssuedBelow(groups, bound)
    requires Addrs(g.segments) <= Addrs(groups[gi].segments)
    ensures IssuedBelow(groups[gi := g], bound)
  {
  }
}
