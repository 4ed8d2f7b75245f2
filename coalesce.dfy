/**
 Coalescing of one group's segment list (`combineFreeSubNodes`). Adjacency is list
 adjacency, i.e. insertion order, not address order.

 `Coalesce` states the outcome of the source's single pass by maximal runs: every
 maximal run of free segments becomes its first segment, which keeps its address and
 takes the run's total size; allocated segments are kept as they are.
 */
module Coalescing {
  import opened Chain

  /** The sum of the sizes of a list of segments. */
  function TotalSize(s: seq<Segment>): nat
  {
    if s == [] then 0 else s[0].size + TotalSize(s[1..])
  }

  lemma {:induction false} TotalSizeAppend(a: seq<Segment>, b: seq<Segment>)
    ensures TotalSize(a + b) == TotalSize(a) + TotalSize(b)
  {
    if a == [] {
      assert a + b == b;
    } else {
      assert (a + b)[1..] == a[1..] + b;
      TotalSizeAppend(a[1..], b);
    }
  }

  /** The allocated segments of a list, in list order. */
  function AllocatedOf(s: seq<Segment>): seq<Segment>
  {
    if s == [] then []
    else (if s[0].kind == Allocated then [s[0]] else []) + AllocatedOf(s[1..])
  }

  lemma {:induction false} AllocatedOfAppend(a: seq<Segment>, b: seq<Segment>)
    ensures AllocatedOf(a + b) == AllocatedOf(a) + AllocatedOf(b)
  {
    if a == [] {
      assert a + b == b;
    } else {
      var head := if a[0].kind == Allocated then [a[0]] else [];
      assert (a + b)[0] == a[0] && (a + b)[1..] == a[1..] + b;
      assert AllocatedOf(a + b) == head + AllocatedOf(a[1..] + b);
      AllocatedOfAppend(a[1..], b);
      assert AllocatedOf(a) == head + AllocatedOf(a[1..]);
    }
  }

  lemma AllocatedOfCons(x: Segment, r: seq<Segment>)
    ensures AllocatedOf([x] + r) == (if x.kind == Allocated then [x] else []) + AllocatedOf(r)
  {
    assert ([x] + r)[1..] == r;
  }

  lemma TotalSizeCons(x: Segment, r: seq<Segment>)
    ensures TotalSize([x] + r) == x.size + TotalSize(r)
  {
    assert ([x] + r)[1..] == r;
  }

  lemma AddrsCons(x: Segment, r: seq<Segment>)
    ensures Addrs([x] + r) == {x.addr} + Addrs(r)
  {
    var s := [x] + r;
    assert s[0].addr == x.addr;
    forall a | a in Addrs(s)
      ensures a in {x.addr} + Addrs(r)
    {
      var j :| 0 <= j < |s| && s[j].addr == a;
      if j > 0 {
        assert r[j - 1].addr == a;
      }
    }
    forall a | a in Addrs(r)
      ensures a in Addrs(s)
    {
      var j :| 0 <= j < |r| && r[j].addr == a;
      assert s[j + 1].addr == a;
    }
  }

  /**
   A segment placed in front of an already coalesced remainder: a free segment absorbs
   the remainder's first segment when that one is free too.
   */
  function Absorb(x: Segment, t: seq<Segment>): (r: seq<Segment>)
    ensures r != [] && r[0].addr == x.addr && r[0].kind == x.kind
    ensures x.kind == Allocated || t == [] || t[0].kind == Allocated ==> r == [x] + t
    ensures x.kind == Free && t != [] && t[0].kind == Free ==>
              r[0].size == x.size + t[0].size && r[1..] == t[1..]
  {
    if x.kind == Free && t != [] && t[0].kind == Free then
      [x.(size := x.size + t[0].size)] + t[1..]
    else
      [x] + t
  }

  /** The list after the merge pass of `combineFreeSubNodes`. */
  function Coalesce(s: seq<Segment>): (r: seq<Segment>)
    ensures |r| <= |s|
    ensures s != [] ==> r != [] && r[0].addr == s[0].addr && r[0].kind == s[0].kind
  {
    if s == [] then [] else Absorb(s[0], Coalesce(s[1..]))
  }

  /** Absorbing two free segments one after the other is absorbing their sum. */
  lemma AbsorbTwice(x: Segment, y: Segment, t: seq<Segment>)
    requires x.kind == Free && y.kind == Free
    ensures Absorb(x, Absorb(y, t)) == Absorb(x.(size := x.size + y.size), t)
  {
  }

  /** No two list-adjacent segments are both free. */
  predicate NoAdjacentFree(s: seq<Segment>)
  {
    forall i :: 0 < i < |s| ==> s[i - 1].kind == Allocated || s[i].kind == Allocated
  }

  /** A segment that is allocated, or has no free successor, is kept as it is. */
  lemma KeepStep(x: Segment, r: seq<Segment>)
    requires x.kind == Allocated || r == [] || r[0].kind == Allocated
    ensures Coalesce([x] + r) == [x] + Coalesce(r)
  {
    assert ([x] + r)[1..] == r;
  }

  /** Absorbing the second segment of a list into a free first one leaves the coalesced list unchanged. */
  lemma MergeHead(s: seq<Segment>)
    requires |s| >= 2 && s[0].kind == Free && s[1].kind == Free
    ensures Coalesce(s) == Coalesce([s[0].(size := s[0].size + s[1].size)] + s[2..])
  {
    var x' := s[0].(size := s[0].size + s[1].size);
    assert s[1..][1..] == s[2..];
    assert ([x'] + s[2..])[1..] == s[2..];
    AbsorbTwice(s[0], s[1], Coalesce(s[2..]));
  }

  /** A single segment is already coalesced. */
  lemma CoalesceSingle(s: seq<Segment>)
    requires |s| == 1
    ensures Coalesce(s) == s
  {
    assert s[1..] == [];
  }

  /** Unless its first two segments are both free, a list's first segment is final. */
  lemma KeepHead(s: seq<Segment>)
    requires s != [] && (|s| == 1 || s[0].kind == Allocated || s[1].kind == Allocated)
    ensures Coalesce(s) == [s[0]] + Coalesce(s[1..])
  {
    KeepStep(s[0], s[1..]);
    assert s == [s[0]] + s[1..];
  }

  /**
   The pass by maximal runs: a free segment followed by the free segments `p` and then
   by an allocated segment or the end becomes one free segment that keeps its address
   and takes the run's total size.
   */
  lemma {:induction false} CoalesceFreeRun(x: Segment, p: seq<Segment>, q: seq<Segment>)
    requires x.kind == Free && forall i :: 0 <= i < |p| ==> p[i].kind == Free
    requires q == [] || q[0].kind == Allocated
    ensures Coalesce([x] + p + q) == [x.(size := x.size + TotalSize(p))] + Coalesce(q)
    decreases |p|
  {
    var s := [x] + p + q;
    if p == [] {
      assert s == [x] + q;
      KeepStep(x, q);
    } else {
      var y := p[0];
      var p' := p[1..];
      assert p == [y] + p';
      CoalesceFreeRun(y, p', q);
      assert s[1..] == [y] + p' + q;
      var t := Coalesce(s[1..]);
      assert t == [y.(size := y.size + TotalSize(p'))] + Coalesce(q);
      assert t[0].kind == Free && t[1..] == Coalesce(q);
      TotalSizeCons(y, p');
    }
  }

  /** After the pass no two list-adjacent segments are both free. */
  lemma {:induction false} CoalesceNoAdjacentFree(s: seq<Segment>)
    ensures NoAdjacentFree(Coalesce(s))
  {
    if s != [] {
      var t := Coalesce(s[1..]);
      CoalesceNoAdjacentFree(s[1..]);
      var r := Coalesce(s);
      var rest := r[1..];
      assert r == [r[0]] + rest;
      assert rest == t || rest == t[1..];
      forall i | 0 < i < |r|
        ensures r[i - 1].kind == Allocated || r[i].kind == Allocated
      {
        if rest == t[1..] && t != [] {
          assert r[i] == t[i];
          if i > 1 {
            assert r[i - 1] == t[i - 1];
          }
        } else {
          assert r[i] == t[i - 1];
          if i > 1 {
            assert r[i - 1] == t[i - 2];
          }
        }
      }
    }
  }

  /** The pass conserves the total size of the segments. */
  lemma {:induction false} CoalesceKeepsTotal(s: seq<Segment>)
    ensures TotalSize(Coalesce(s)) == TotalSize(s)
  {
    if s != [] {
      var t := Coalesce(s[1..]);
      CoalesceKeepsTotal(s[1..]);
      assert s == [s[0]] + s[1..];
      TotalSizeCons(s[0], s[1..]);
      if s[0].kind == Free && t != [] && t[0].kind == Free {
        assert t == [t[0]] + t[1..];
        TotalSizeCons(t[0], t[1..]);
        TotalSizeCons(s[0].(size := s[0].size + t[0].size), t[1..]);
      } else {
        TotalSizeCons(s[0], t);
      }
    }
  }

  /** Allocated segments keep their order, size and address through the pass. */
  lemma {:induction false} CoalesceKeepsAllocated(s: seq<Segment>)
    ensures AllocatedOf(Coalesce(s)) == AllocatedOf(s)
  {
    if s != [] {
      var t := Coalesce(s[1..]);
      CoalesceKeepsAllocated(s[1..]);
      assert s == [s[0]] + s[1..];
      AllocatedOfCons(s[0], s[1..]);
      if s[0].kind == Free && t != [] && t[0].kind == Free {
        assert t == [t[0]] + t[1..];
        AllocatedOfCons(t[0], t[1..]);
        AllocatedOfCons(s[0].(size := s[0].size + t[0].size), t[1..]);
      } else {
        AllocatedOfCons(s[0], t);
      }
    }
  }

  /** A list with no two adjacent free segments is left unchanged by the pass. */
  lemma {:induction false} CoalesceFixpoint(s: seq<Segment>)
    requires NoAdjacentFree(s)
    ensures Coalesce(s) == s
  {
    if s != [] {
      assert NoAdjacentFree(s[1..]) by {
        forall i | 0 < i < |s[1..]|
          ensures s[1..][i - 1].kind == Allocated || s[1..][i].kind == Allocated
        {
          assert s[1..][i - 1] == s[i] && s[1..][i] == s[i + 1];
        }
      }
      CoalesceFixpoint(s[1..]);
      assert s == [s[0]] + s[1..];
      if |s| > 1 {
        assert s[0].kind == Allocated || s[1].kind == Allocated;
      }
    }
  }

  /** The pass leaves a list unchanged exactly when no two adjacent segments are both free. */
  lemma CoalesceFixpointIff(s: seq<Segment>)
    ensures Coalesce(s) == s <==> NoAdjacentFree(s)
  {
    CoalesceNoAdjacentFree(s);
    if NoAdjacentFree(s) {
      CoalesceFixpoint(s);
    }
  }

  /** Running the pass twice gives the same list as running it once. */
  lemma CoalesceIdempotent(s: seq<Segment>)
    ensures Coalesce(Coalesce(s)) == Coalesce(s)
  {
    CoalesceNoAdjacentFree(s);
    CoalesceFixpoint(Coalesce(s));
  }

  /** The pass keeps the addresses of a list distinct. */
  lemma {:induction false} CoalesceDistinct(s: seq<Segment>)
    requires Distinct(s)
    ensures Distinct(Coalesce(s))
  {
    if s != [] {
      var t := Coalesce(s[1..]);
      assert Distinct(s[1..]) by {
        forall i, j | 0 <= i < j < |s[1..]|
          ensures s[1..][i].addr != s[1..][j].addr
        {
          assert s[1..][i] == s[i + 1] && s[1..][j] == s[j + 1];
        }
      }
      CoalesceDistinct(s[1..]);
      CoalesceAddrs(s[1..]);
      assert s[0].addr !in Addrs(s[1..]);
      var r := Coalesce(s);
      if s[0].kind == Free && t != [] && t[0].kind == Free {
        assert t == [t[0]] + t[1..];
        AddrsCons(t[0], t[1..]);
        assert Distinct(t[1..]) by {
          forall i, j | 0 <= i < j < |t[1..]|
            ensures t[1..][i].addr != t[1..][j].addr
          {
            assert t[1..][i] == t[i + 1] && t[1..][j] == t[j + 1];
          }
        }
        assert r == [r[0]] + t[1..];
        DistinctCons(r[0], t[1..]);
      } else {
        DistinctCons(s[0], t);
      }
    }
  }

  /**
   Every address left after the pass was held before it, and every address after the
   first one was held by a segment after the first one.
   */
  lemma {:induction false} CoalesceAddrs(s: seq<Segment>)
    ensures Addrs(Coalesce(s)) <= Addrs(s)
    ensures s != [] ==> Addrs(Coalesce(s)[1..]) <= Addrs(s[1..])
  {
    if s != [] {
      var t := Coalesce(s[1..]);
      var r := Coalesce(s);
      CoalesceAddrs(s[1..]);
      assert s == [s[0]] + s[1..];
      AddrsCons(s[0], s[1..]);
      assert r == [r[0]] + r[1..];
      AddrsCons(r[0], r[1..]);
      if t != [] {
        assert t == [t[0]] + t[1..];
        AddrsCons(t[0], t[1..]);
      }
      assert r[1..] == t || r[1..] == t[1..];
    }
  }

  /** A segment not preceded by a free one survives the pass with its address. */
  lemma {:induction false} SurvivorKept(s: seq<Segment>, i: nat)
    requires i < |s|
    requires i == 0 || s[i - 1].kind == Allocated
    ensures s[i].addr in Addrs(Coalesce(s))
    ensures i > 0 ==> s[i].addr in Addrs(Coalesce(s)[1..])
  {
    var r := Coalesce(s);
    assert r == [r[0]] + r[1..];
    AddrsCons(r[0], r[1..]);
    if i > 0 {
      var t := Coalesce(s[1..]);
      assert s[1..][i - 1] == s[i];
      if i == 1 {
        assert r[1..] == t;
        assert t[0].addr == s[1].addr;
      } else {
        assert s[1..][i - 2] == s[i - 1];
        SurvivorKept(s[1..], i - 1);
        assert t == [t[0]] + t[1..];
        AddrsCons(t[0], t[1..]);
        assert r[1..] == t || r[1..] == t[1..];
      }
    }
  }

  /**
   With distinct addresses, a free segment preceded by a free one is absorbed: its
   address is no longer held after the pass.
   */
  lemma {:induction false} AbsorbedDropped(s: seq<Segment>, i: nat)
    requires Distinct(s)
    requires 0 < i < |s| && s[i - 1].kind == Free && s[i].kind == Free
    ensures s[i].addr !in Addrs(Coalesce(s))
  {
    var t := Coalesce(s[1..]);
    var r := Coalesce(s);
    assert r == [r[0]] + r[1..];
    AddrsCons(r[0], r[1..]);
    assert r[0].addr == s[0].addr != s[i].addr;
    assert t == [t[0]] + t[1..];
    AddrsCons(t[0], t[1..]);
    assert Distinct(s[1..]) by {
      forall p, q | 0 <= p < q < |s[1..]|
        ensures s[1..][p].addr != s[1..][q].addr
      {
        assert s[1..][p] == s[p + 1] && s[1..][q] == s[q + 1];
      }
    }
    if i == 1 {
      // merged into the first segment: only the remainder's tail is kept
      assert r[1..] == t[1..];
      CoalesceAddrs(s[1..]);
      assert s[1] !in s[1..][1..] by {
        forall j | 0 <= j < |s[1..][1..]|
          ensures s[1..][1..][j].addr != s[1].addr
        {
          assert s[1..][1..][j] == s[j + 2];
        }
      }
      assert s[1].addr !in Addrs(s[1..][1..]);
    } else {
      assert s[1..][i - 1] == s[i] && s[1..][i - 2] == s[i - 1];
      AbsorbedDropped(s[1..], i - 1);
      assert r[1..] == t || r[1..] == t[1..];
    }
  }
}
