/** The pool of frame buffers. */
module BufferPool {
  import opened RefCounting

  const SIZE_T_RANGE := 0x1_0000_0000_0000_0000

  /** The handle is the only one to hold its buffer. */
  ghost predicate Sole(at: Pointers, h: Handle) {
    h in at && at[h] != null && Count(at, at[h]) == 1
  }

  /** The pool's handles: all of them hold buffers, no two the same. */
  ghost predicate Distinct(at: Pointers, hs: seq<Handle>) {
    && (forall i :: 0 <= i < |hs| ==> hs[i] in at && at[hs[i]] != null)
    && (forall i, j :: 0 <= i < j < |hs| ==> hs[i] != hs[j] && at[hs[i]] != at[hs[j]])
  }

  /** How many of the handles share their buffer with a client. */
  ghost function Used(at: Pointers, hs: seq<Handle>): nat {
    if hs == [] then 0 else Used(at, hs[..|hs| - 1]) + if Sole(at, hs[|hs| - 1]) then 0 else 1
  }

  /** Every handle outside the pool is as it was. */
  ghost predicate ClientsKept(before: Pointers, after: Pointers, pool: seq<Handle>) {
    forall h :: h in before && h !in pool ==> h in after && after[h] == before[h]
  }

  /** Every handle is as it was; there may be more. */
  ghost predicate Grown(before: Pointers, after: Pointers) {
    forall h :: h in before ==> h in after && after[h] == before[h]
  }

  /** A handle that the pool has let go of no longer exists. */
  ghost predicate LeftAreGone(after: Pointers, pool: seq<Handle>, pool': seq<Handle>) {
    forall h :: h in after && h in pool ==> h in pool'
  }

  /** All new handles are among these. */
  ghost predicate NewAre(before: Pointers, after: Pointers, hs: seq<Handle>) {
    forall h :: h in after && h !in before ==> h in hs
  }

  /** New handles do not bring back what is gone. */
  lemma NewOnTop(before: Pointers, now: Pointers, after: Pointers, pool: seq<Handle>, kept: seq<Handle>,
                 pool': seq<Handle>, r: Handle)
    requires Within(before, now) && LeftAreGone(now, pool, kept) && NewAre(now, after, pool' + [r])
    requires r !in pool && forall h :: h in kept ==> h in pool'
    ensures LeftAreGone(after, pool, pool') && NewAre(before, after, pool' + [r])
  {
    forall h | h in after && h in pool
      ensures h in pool'
    {
      if h !in now {
        assert h in pool' + [r];
      }
    }
  }

  lemma GrownKeeps(before: Pointers, now: Pointers, after: Pointers, pool: seq<Handle>)
    requires ClientsKept(before, now, pool) && Grown(now, after)
    ensures ClientsKept(before, after, pool)
  {
  }

  /** What only a handle of the pool holds now, no client held before. */
  lemma HeldByPool(before: Pointers, now: Pointers, pool: seq<Handle>, b: Buffer, free: Handle)
    requires ClientsKept(before, now, pool) && free in pool
    requires forall h :: h in now && now[h] == b ==> h == free
    ensures forall h :: h in before && before[h] == b ==> h in pool
  {
  }

  lemma NotHeld(at: Pointers, b: Buffer)
    requires forall h :: h in at ==> at[h] != b
    ensures Count(at, b) == 0
  {
    assert Holders(at, b) == {};
  }

  /** The handles of a list whose buffer has the geometry, in order. */
  ghost function Matching(at: Pointers, hs: seq<Handle>, geometry: Geometry): seq<Handle> {
    if hs == [] then []
    else
      var last := hs[|hs| - 1];
      Matching(at, hs[..|hs| - 1], geometry)
      + if last in at && at[last] != null && at[last].geometry == geometry then [last] else []
  }

  lemma {:induction false} MatchingExactly(at: Pointers, hs: seq<Handle>, geometry: Geometry, h: Handle)
    ensures h in Matching(at, hs, geometry) <==> h in hs && h in at && at[h] != null && at[h].geometry == geometry
  {
    if hs != [] {
      var front, last := hs[..|hs| - 1], hs[|hs| - 1];
      MatchingExactly(at, front, geometry, h);
      assert hs == front + [last];
    }
  }

  /** Some buffer of the geometry in the pool is held by no client. */
  ghost predicate FreeMatch(at: Pointers, hs: seq<Handle>, geometry: Geometry) {
    exists h :: h in hs && Sole(at, h) && at[h].geometry == geometry
  }

  /** Place i of the list is the first with a buffer that no client holds. */
  ghost predicate FirstFree(at: Pointers, hs: seq<Handle>, i: int) {
    0 <= i < |hs| && Sole(at, hs[i]) && forall j :: 0 <= j < i ==> !Sole(at, hs[j])
  }

  ghost predicate PointsTo(at: Pointers, h: Handle, b: Buffer?) { h in at && at[h] == b }

  /** The list without its first n free buffers. */
  ghost function WithoutFree(at: Pointers, hs: seq<Handle>, n: int): seq<Handle> {
    if hs == [] || n <= 0 then hs
    else if Sole(at, hs[0]) then WithoutFree(at, hs[1..], n - 1)
    else [hs[0]] + WithoutFree(at, hs[1..], n)
  }

  ghost predicate HeldAlike(before: Pointers, now: Pointers, h: Handle) {
    h in before && h in now && now[h] == before[h]
  }

  /** Letting go of the others makes no difference to which of the matching buffers are free. */
  lemma FreeStays(before: Pointers, now: Pointers, pool: seq<Handle>, geometry: Geometry)
    requires SameCounts(before, now, Matching(before, pool, geometry))
    ensures FreeMatch(before, pool, geometry) <==> exists h :: h in Matching(before, pool, geometry) && Sole(now, h)
    ensures forall h :: h in Matching(before, pool, geometry) ==> (Sole(now, h) <==> Sole(before, h))
    ensures forall h :: h in Matching(before, pool, geometry) && Sole(now, h) ==> h in pool && before[h] == now[h]
    ensures forall i :: FirstFree(now, Matching(before, pool, geometry), i) ==>
                          && FirstFree(before, Matching(before, pool, geometry), i)
                          && HeldAlike(before, now, Matching(before, pool, geometry)[i])
  {
    hide Count, Matching;
    var kept := Matching(before, pool, geometry);
    forall h | h in kept
      ensures h in pool && (Sole(now, h) <==> Sole(before, h)) && h in now && h in before && before[h] == now[h]
      ensures before[h] != null && before[h].geometry == geometry
    {
      MatchingExactly(before, pool, geometry, h);
      var i :| 0 <= i < |kept| && kept[i] == h;
    }
    if FreeMatch(before, pool, geometry) {
      var h :| h in pool && Sole(before, h) && before[h].geometry == geometry;
      MatchingExactly(before, pool, geometry, h);
    }
  }

  lemma RemoveKeepsCount(at: Pointers, h: Handle, b: Buffer)
    requires h in at && at[h] != b
    ensures Count(at - {h}, b) == Count(at, b)
  {
    CountRemove(at, h, b);
  }

  /** A buffer that only the pool holds is held by no client. */
  lemma SoleMeansNoClient(at: Pointers, h: Handle, g: Handle)
    requires Sole(at, h) && g in at && at[g] == at[h]
    ensures g == h
  {
    var s := Holders(at, at[h]);
    assert g in s && |s - {h}| == 0;
  }

  lemma ErasedRest(at: Pointers, h: Handle, rest: seq<Handle>)
    requires Distinct(at, [h] + rest)
    ensures h in at && Distinct(at - {h}, rest) && SameCounts(at, at - {h}, rest)
  {
    hide Count;
    var all, less := [h] + rest, at - {h};
    assert all[0] == h && forall i :: 0 <= i < |rest| ==> all[i + 1] == rest[i];
    forall i | 0 <= i < |rest|
      ensures rest[i] in less && Count(less, less[rest[i]]) == Count(at, at[rest[i]])
    {
      RemoveKeepsCount(at, h, at[all[i + 1]]);
    }
    forall i, j | 0 <= i < j < |rest|
      ensures rest[i] != rest[j] && less[rest[i]] != less[rest[j]]
    {
      assert all[i + 1] != all[j + 1] && at[all[i + 1]] != at[all[j + 1]];
    }
  }

  class I420BufferPool {
    const world: World
    var buffers: seq<Handle>
    var maxNumberOfBuffers: nat

    ghost predicate Valid()
      reads this, world, world.at.Keys, world.buffers
    {
      && world.Valid() && Distinct(world.at, buffers)
      && |buffers| <= maxNumberOfBuffers < SIZE_T_RANGE
    }

    constructor (world: World, maxNumberOfBuffers: nat)
      requires world.Valid() && maxNumberOfBuffers < SIZE_T_RANGE
      ensures Valid() && buffers == [] && this.world == world && this.maxNumberOfBuffers == maxNumberOfBuffers
    {
      this.world, this.maxNumberOfBuffers := world, maxNumberOfBuffers;
      buffers := [];
    }

    /** Erase one handle of a list: the others keep their buffers and counts. */
    method Erase(h: Handle, ghost rest: seq<Handle>)
      requires world.Valid() && Distinct(world.at, [h] + rest)
      modifies world`at, world.buffers
      ensures world.Valid() && world.at == old(world.at) - {h} && Distinct(world.at, rest)
      ensures SameCounts(old(world.at), world.at, rest)
    {
      hide Distinct, SameCounts;
      ghost var at := world.at;
      ErasedRest(at, h, rest);
      world.Destroy(h);
    }

    /** One step of a walk through the list: the current handle is erased or kept. */
    method Visit(kept: seq<Handle>, h: Handle, ghost rest: seq<Handle>, erase: bool) returns (kept': seq<Handle>)
      requires world.Valid() && Distinct(world.at, kept + ([h] + rest))
      modifies world`at, world.buffers
      ensures world.Valid() && Distinct(world.at, kept' + rest)
      ensures kept' == if erase then kept else kept + [h]
      ensures world.at == if erase then old(world.at) - {h} else old(world.at)
      ensures SameCounts(old(world.at), world.at, kept' + rest)
    {
      hide Count;
      if erase {
        HeadInFront(world.at, kept, [h] + rest);
        assert ([h] + rest)[1..] == rest;
        Erase(h, kept + rest);
        kept' := kept;
      } else {
        assert kept + ([h] + rest) == (kept + [h]) + rest;
        kept' := kept + [h];
      }
    }

    /** The first part of CreateBuffer: let go of the buffers of another geometry. */
    method DropMismatched(geometry: Geometry)
      requires Valid()
      modifies this`buffers, world`at, world.buffers
      ensures Valid() && world.buffers == old(world.buffers)
      ensures ClientsKept(old(world.at), world.at, old(buffers)) && Within(old(world.at), world.at)
      ensures LeftAreGone(world.at, old(buffers), buffers)
      ensures buffers == Matching(old(world.at), old(buffers), geometry) && SameCounts(old(world.at), world.at, buffers)
      ensures forall h :: h in buffers ==> h in old(buffers) && h.ptr != null && h.ptr.geometry == geometry
    {
      hide Distinct, SameCounts, Count, ClientsKept, Within, Matching;
      ghost var at := world.at;
      var all, kept := buffers, [];
      DroppingStarts(at, all, geometry);
      for i := 0 to |all|
        modifies world`at, world.buffers
        invariant world.Valid() && Dropping(at, world.at, all, kept, i, geometry)
      {
        ghost var now, was := world.at, kept;
        DroppingHere(at, now, all, kept, i, geometry);
        var erase := all[i].ptr.geometry != geometry;
        kept := Visit(kept, all[i], all[i + 1..], erase);
        DroppingNext(at, now, world.at, all, was, kept, i, geometry, erase);
      }
      DroppingEnds(at, world.at, all, kept, geometry);
      buffers := kept;
    }

    /** The second part: a buffer that only the pool holds. */
    method FindFree() returns (free: Handle?)
      requires Valid()
      ensures free != null ==> exists i :: FirstFree(world.at, buffers, i) && buffers[i] == free
      ensures free == null ==> forall h :: h in buffers ==> !Sole(world.at, h)
    {
      for i := 0 to |buffers|
        invariant forall j :: 0 <= j < i ==> !Sole(world.at, buffers[j])
      {
        if buffers[i].ptr.HasOneRef() {
          assert FirstFree(world.at, buffers, i);
          return buffers[i];
        }
      }
      return null;
    }

    /** A buffer of the wanted geometry that no client holds, from the pool or new, or none if all are in use
        and the pool is full. */
    method CreateBuffer(geometry: Geometry) returns (r: Handle)
      requires Valid()
      modifies this`buffers, world, world.buffers
      ensures Valid() && maxNumberOfBuffers == old(maxNumberOfBuffers)
      ensures fresh(r) && r in world.at && r !in buffers && ClientsKept(old(world.at), world.at, old(buffers))
      ensures LeftAreGone(world.at, old(buffers), buffers) && NewAre(old(world.at), world.at, buffers + [r])
      ensures forall h :: h in buffers ==> h in old(buffers) || fresh(h)
      ensures old(world.buffers) <= world.buffers && fresh(world.buffers - old(world.buffers))
      ensures forall h :: h in buffers ==> h.ptr != null && h.ptr.geometry == geometry
      ensures r.ptr != null ==>
                && r.ptr.geometry == geometry && Count(world.at, r.ptr) == 2
                && (exists h :: h in buffers && h.ptr == r.ptr)
                && forall h :: h in old(world.at) && old(world.at)[h] == r.ptr ==> h in old(buffers)
      ensures FreeMatch(old(world.at), old(buffers), geometry) ==>
                && buffers == Matching(old(world.at), old(buffers), geometry)
                && exists i :: FirstFree(old(world.at), buffers, i) && PointsTo(old(world.at), buffers[i], r.ptr)
      ensures !FreeMatch(old(world.at), old(buffers), geometry) ==>
                var kept := Matching(old(world.at), old(buffers), geometry);
                && kept <= buffers && (r.ptr == null <==> |kept| == maxNumberOfBuffers)
                && (r.ptr == null ==> buffers == kept) && (r.ptr != null ==> fresh(r.ptr) && |buffers| == |kept| + 1)
    {
      hide Distinct, Count, Sole, ClientsKept, Within, Grown, LeftAreGone, NewAre, Matching, SameCounts;
      ghost var before, pool := world.at, buffers;
      DropMismatched(geometry);
      ghost var dropped, kept := world.at, buffers;
      FreeStays(before, dropped, pool, geometry);
      ghost var i;
      r, i := Provide(geometry);
      GrownKeeps(before, dropped, world.at, pool);
      NewOnTop(before, dropped, world.at, pool, kept, buffers, r);
      if i >= 0 {
        HeldByPool(before, dropped, pool, r.ptr, kept[i]);
        assert FirstFree(before, buffers, i) && PointsTo(before, buffers[i], r.ptr);
      }
    }

    /** A buffer for the caller from a pool that holds buffers of this geometry only: the first that no client
        holds, which is at place i, else (i is -1) a new one, else none. */
    method Provide(geometry: Geometry) returns (r: Handle, ghost i: int)
      requires Valid() && forall h :: h in buffers ==> h.ptr != null && h.ptr.geometry == geometry
      modifies this`buffers, world, world.buffers
      ensures Valid() && fresh(r) && r in world.at && r !in buffers && Grown(old(world.at), world.at)
      ensures NewAre(old(world.at), world.at, buffers + [r])
      ensures old(buffers) <= buffers && forall h :: h in buffers ==> h in old(buffers) || fresh(h)
      ensures old(world.buffers) <= world.buffers && fresh(world.buffers - old(world.buffers))
      ensures forall h :: h in buffers ==> h.ptr != null && h.ptr.geometry == geometry
      ensures r.ptr != null ==> Count(world.at, r.ptr) == 2 && exists h :: h in buffers && h.ptr == r.ptr
      ensures i >= 0 ==>
                && buffers == old(buffers) && r.ptr != null
                && FirstFree(old(world.at), buffers, i) && PointsTo(old(world.at), buffers[i], r.ptr)
                && forall h :: h in old(world.at) && old(world.at)[h] == r.ptr ==> h == buffers[i]
      ensures i < 0 ==>
                && (forall h :: h in old(buffers) ==> !Sole(old(world.at), h))
                && (r.ptr == null <==> |old(buffers)| == maxNumberOfBuffers)
                && (r.ptr == null ==> buffers == old(buffers))
                && (r.ptr != null ==> fresh(r.ptr) && |buffers| == |old(buffers)| + 1)
    {
      hide Distinct, Count, Sole, Grown, NewAre;
      var free := FindFree();
      i := -1;
      if free != null {
        i :| FirstFree(world.at, buffers, i) && buffers[i] == free;
        r := Share(free);
      } else if |buffers| >= maxNumberOfBuffers {
        r := Refuse();
      } else {
        r := Allocate(geometry);
      }
    }

    /** Hand out a buffer that only the pool holds. */
    method Share(free: Handle) returns (r: Handle)
      requires Valid() && free in buffers && Sole(world.at, free)
      modifies world`at, world.buffers
      ensures Valid() && fresh(r) && r in world.at && r !in buffers && Grown(old(world.at), world.at)
      ensures NewAre(old(world.at), world.at, buffers + [r])
      ensures r.ptr == free.ptr && r.ptr != null && Count(world.at, r.ptr) == 2
      ensures PointsTo(old(world.at), free, r.ptr)
      ensures forall h :: h in old(world.at) && old(world.at)[h] == r.ptr ==> h == free
    {
      hide Count;
      ghost var at := world.at;
      world.HeldIsLive(free);
      r := world.Make(free.ptr);
      CountAdd(at, r, r.ptr, r.ptr);
      forall h | h in at && at[h] == r.ptr
        ensures h == free
      {
        SoleMeansNoClient(at, free, h);
      }
    }

    /** The null pointer of a full pool. */
    method Refuse() returns (r: Handle)
      requires Valid()
      modifies world`at
      ensures Valid() && fresh(r) && r in world.at && r !in buffers && Grown(old(world.at), world.at)
      ensures NewAre(old(world.at), world.at, buffers + [r])
      ensures r.ptr == null
    {
      hide Count;
      r := world.Make(null);
    }

    /** Allocate a buffer, one handle for the pool and one for the caller. */
    method Allocate(geometry: Geometry) returns (r: Handle)
      requires Valid() && |buffers| < maxNumberOfBuffers
      modifies this`buffers, world, world.buffers
      ensures Valid() && fresh(r) && r in world.at && r !in buffers && Grown(old(world.at), world.at)
      ensures NewAre(old(world.at), world.at, buffers + [r])
      ensures r.ptr != null && fresh(r.ptr) && r.ptr.geometry == geometry && Count(world.at, r.ptr) == 2
      ensures world.buffers == old(world.buffers) + {r.ptr}
      ensures |buffers| == |old(buffers)| + 1 && buffers[..|old(buffers)|] == old(buffers)
      ensures forall h :: h in old(buffers) ==> h in buffers
      ensures forall h :: h in buffers ==> h in old(buffers) || fresh(h)
      ensures fresh(buffers[|buffers| - 1]) && buffers[|buffers| - 1].ptr == r.ptr
    {
      hide Count;
      ghost var at := world.at;
      r := world.MakeNew(geometry);
      NotHeld(at, r.ptr);
      CountAdd(at, r, r.ptr, r.ptr);
      world.HeldIsLive(r);
      var pooled := world.Make(r.ptr);
      CountAdd(at[r := r.ptr], pooled, r.ptr, r.ptr);
      buffers := buffers + [pooled];
    }

    /** Clear the pool. */
    method Release()
      requires Valid()
      modifies this`buffers, world`at, world.buffers
      ensures Valid() && buffers == []
      ensures ClientsKept(old(world.at), world.at, old(buffers)) && Within(old(world.at), world.at)
      ensures LeftAreGone(world.at, old(buffers), [])
    {
      hide Distinct, SameCounts, ClientsKept, Within, LeftAreGone;
      ghost var at := world.at;
      var all := buffers;
      ClearingStarts(at, all);
      for i := 0 to |all|
        modifies world`at, world.buffers
        invariant world.Valid() && Clearing(at, world.at, all, i)
      {
        ghost var now := world.at;
        ClearingHere(at, now, all, i);
        var none := Visit([], all[i], all[i + 1..], true);
        ClearingNext(at, now, world.at, all, i);
      }
      ClearingEnds(at, world.at, all);
      buffers := [];
    }

    /** How many of the pool's buffers are in use. */
    method CountUsed() returns (usedBuffersCount: nat)
      requires Valid()
      ensures usedBuffersCount == Used(world.at, buffers)
    {
      usedBuffersCount := 0;
      for i := 0 to |buffers|
        invariant usedBuffersCount == Used(world.at, buffers[..i])
      {
        assert buffers[..i + 1][..i] == buffers[..i];
        if !buffers[i].ptr.HasOneRef() {
          usedBuffersCount := usedBuffersCount + 1;
        }
      }
      assert buffers[..|buffers|] == buffers;
    }

    /** Change the limit. If the pool is over it, free buffers go until it is met; if the pool is under it, the
        number to purge wraps around, and every free buffer goes. Buffers in use always stay. */
    method Resize(maxNumber: nat) returns (ok: bool)
      requires Valid() && maxNumber < SIZE_T_RANGE
      modifies this`buffers, this`maxNumberOfBuffers, world`at, world.buffers
      ensures Valid() && ClientsKept(old(world.at), world.at, old(buffers)) && Within(old(world.at), world.at)
      ensures LeftAreGone(world.at, old(buffers), buffers)
      ensures ok <==> old(Used(world.at, buffers)) <= maxNumber
      ensures !ok ==> buffers == old(buffers) && maxNumberOfBuffers == old(maxNumberOfBuffers)
      ensures !ok ==> world.at == old(world.at)
      ensures ok ==> maxNumberOfBuffers == maxNumber
      ensures ok ==> |buffers| == if |old(buffers)| >= maxNumber then maxNumber else old(Used(world.at, buffers))
      ensures ok ==> forall h :: h in old(buffers) && !Sole(old(world.at), h) ==> h in buffers
      ensures ok ==>
                buffers == WithoutFree(old(world.at), old(buffers),
                                       if |old(buffers)| >= maxNumber then |old(buffers)| - maxNumber
                                       else |old(buffers)|)
      ensures forall h :: h in buffers ==> h in old(buffers)
    {
      hide Distinct, Count, Sole, Used, WithoutFree;
      var used := CountUsed();
      if used > maxNumber {
        return false;
      }
      ghost var at := world.at;
      var purge := (|buffers| - maxNumber) % SIZE_T_RANGE;
      WrappedPurge(|buffers|, maxNumber);
      maxNumberOfBuffers := maxNumber;
      WithoutMore(at, buffers, purge);
      PurgeFree(purge);
      ok := true;
    }

    method PurgeStep(ghost at: Pointers, all: seq<Handle>, kept: seq<Handle>, i: nat, ghost purge: nat, left: nat)
      returns (kept': seq<Handle>, left': nat)
      requires world.Valid() && i < |all| && 0 < left <= purge
      requires Purging(at, world.at, all, kept, i, purge - left, left)
      modifies world`at, world.buffers
      ensures world.Valid() && left' <= left && Purging(at, world.at, all, kept', i + 1, purge - left', left')
      ensures kept' == if Sole(at, all[i]) then kept else kept + [all[i]]
      ensures left' == if Sole(at, all[i]) then left - 1 else left
    {
      ghost var now := world.at;
      PurgingHere(at, now, all, kept, i, purge - left, left);
      var erase := all[i].ptr.HasOneRef();
      kept' := Visit(kept, all[i], all[i + 1..], erase);
      left' := if erase then left - 1 else left;
      PurgingNext(at, now, world.at, all, kept, kept', i, purge - left, left, erase);
    }

    /** The erasing walk of Resize: free buffers go, from the front, at most purge of them. */
    method PurgeFree(purge: nat)
      requires world.Valid() && Distinct(world.at, buffers)
      modifies this`buffers, world`at, world.buffers
      ensures world.Valid() && Distinct(world.at, buffers)
      ensures ClientsKept(old(world.at), world.at, old(buffers)) && Within(old(world.at), world.at)
      ensures LeftAreGone(world.at, old(buffers), buffers)
      ensures forall h :: h in old(buffers) && !Sole(old(world.at), h) ==> h in buffers
      ensures forall h :: h in buffers ==> h in old(buffers)
      ensures |buffers| == Larger(old(Used(world.at, buffers)), |old(buffers)| - purge)
      ensures buffers == WithoutFree(old(world.at), old(buffers), purge)
    {
      hide Distinct, SameCounts, Count, Sole, Used, ClientsKept, Within, WithoutFree, Purging;
      ghost var at := world.at;
      var all, kept, left, i := buffers, [], purge, 0;
      PurgingStarts(at, all, purge);
      assert all[0..] == all && [] + WithoutFree(at, all, purge) == WithoutFree(at, all, purge);
      while i < |all| && left > 0
        modifies world`at, world.buffers
        invariant world.Valid() && i <= |all| && 0 <= left <= purge
        invariant Purging(at, world.at, all, kept, i, purge - left, left)
        invariant WithoutFree(at, all, purge) == kept + WithoutFree(at, all[i..], left)
      {
        WithoutNext(at, all, kept, i, left);
        kept, left := PurgeStep(at, all, kept, i, purge, left);
        i := i + 1;
      }
      WithoutNone(at, all[i..], left);
      buffers := kept + all[i..];
      PurgingEnds(at, world.at, all, kept, i, purge - left, left, buffers);
    }
  }

  lemma WithoutNext(at: Pointers, all: seq<Handle>, kept: seq<Handle>, i: nat, left: int)
    requires i < |all| && left > 0
    ensures kept + WithoutFree(at, all[i..], left) ==
            if Sole(at, all[i]) then kept + WithoutFree(at, all[i + 1..], left - 1)
            else kept + [all[i]] + WithoutFree(at, all[i + 1..], left)
  {
    assert all[i..][1..] == all[i + 1..];
  }

  lemma WithoutNone(at: Pointers, hs: seq<Handle>, n: int)
    ensures hs == [] || n <= 0 ==> WithoutFree(at, hs, n) == hs
  {
  }

  /** To take away more than there are is to take away all. */
  lemma {:induction false} WithoutMore(at: Pointers, hs: seq<Handle>, n: nat)
    ensures n >= |hs| ==> WithoutFree(at, hs, n) == WithoutFree(at, hs, |hs|)
  {
    if hs != [] && n >= |hs| {
      if Sole(at, hs[0]) {
        WithoutMore(at, hs[1..], n - 1);
      } else {
        WithoutMore(at, hs[1..], n);
        WithoutMore(at, hs[1..], |hs|);
      }
    }
  }

  function Larger(a: int, b: int): int { if a > b then a else b }

  /** The subtraction in size_t. */
  lemma WrappedPurge(size: nat, limit: nat)
    requires size < SIZE_T_RANGE && limit < SIZE_T_RANGE
    ensures size >= limit ==> (size - limit) % SIZE_T_RANGE == size - limit
    ensures size < limit ==> (size - limit) % SIZE_T_RANGE > size
  {
  }

  ghost predicate Clearing(before: Pointers, now: Pointers, all: seq<Handle>, i: nat) {
    && i <= |all| && Distinct(now, [] + all[i..]) && ClientsKept(before, now, all) && Within(before, now)
    && LeftAreGone(now, all, all[i..])
  }

  lemma ClearingStarts(at: Pointers, all: seq<Handle>)
    requires Distinct(at, all)
    ensures Clearing(at, at, all, 0)
  {
    assert [] + all[0..] == all;
  }

  lemma ClearingHere(before: Pointers, now: Pointers, all: seq<Handle>, i: nat)
    requires Clearing(before, now, all, i) && i < |all|
    ensures Distinct(now, [] + ([all[i]] + all[i + 1..]))
  {
    assert [] + all[i..] == [] + ([all[i]] + all[i + 1..]);
  }

  lemma ClearingNext(before: Pointers, now: Pointers, after: Pointers, all: seq<Handle>, i: nat)
    requires Clearing(before, now, all, i) && i < |all| && after == now - {all[i]} && Distinct(after, [] + all[i + 1..])
    ensures Clearing(before, after, all, i + 1)
  {
    hide Distinct;
  }

  lemma ClearingEnds(before: Pointers, now: Pointers, all: seq<Handle>)
    requires Clearing(before, now, all, |all|)
    ensures Distinct(now, []) && ClientsKept(before, now, all) && Within(before, now) && LeftAreGone(now, all, [])
  {
  }

  /** The walk of Resize, i handles in, of which gone were erased; left more may go. */
  ghost predicate Purging(before: Pointers, now: Pointers, all: seq<Handle>, kept: seq<Handle>, i: nat, gone: int,
                          left: int) {
    && i <= |all| && gone >= 0 && left >= 0 && |kept| + gone == i && (forall h :: h in kept ==> h in all)
    && Distinct(now, kept + all[i..]) && ClientsKept(before, now, all) && Within(before, now)
    && SameCounts(before, now, kept + all[i..]) && LeftAreGone(now, all, kept + all[i..])
    && (forall j :: 0 <= j < i && !Sole(before, all[j]) ==> all[j] in kept)
    && Used(before, all[..i]) <= |kept| && (left > 0 ==> |kept| == Used(before, all[..i]))
  }

  lemma PurgingHere(before: Pointers, now: Pointers, all: seq<Handle>, kept: seq<Handle>, i: nat, gone: int, left: int)
    requires Purging(before, now, all, kept, i, gone, left) && i < |all|
    ensures kept + all[i..] == kept + ([all[i]] + all[i + 1..])
    ensures all[i] in now && now[all[i]] != null && (Sole(now, all[i]) <==> Sole(before, all[i]))
  {
    assert all[i] == (kept + all[i..])[|kept|];
    assert all[i..] == [all[i]] + all[i + 1..];
  }

  lemma SameCountsTwice(a: Pointers, b: Pointers, c: Pointers, hs: seq<Handle>, gs: seq<Handle>)
    requires SameCounts(a, b, hs) && SameCounts(b, c, gs) && forall h :: h in gs ==> h in hs
    ensures SameCounts(a, c, gs)
  {
    forall k | 0 <= k < |gs|
      ensures gs[k] in a && gs[k] in c && c[gs[k]] == a[gs[k]]
      ensures c[gs[k]] != null ==> Count(c, c[gs[k]]) == Count(a, a[gs[k]])
    {
      assert gs[k] in hs;
      var j :| 0 <= j < |hs| && hs[j] == gs[k];
    }
  }

  lemma PurgingNext(before: Pointers, now: Pointers, after: Pointers, all: seq<Handle>, kept: seq<Handle>,
                    kept': seq<Handle>,
                    i: nat, gone: int, left: int, erase: bool)
    requires Purging(before, now, all, kept, i, gone, left) && i < |all| && left > 0
    requires erase <==> Sole(before, all[i])
    requires after == if erase then now - {all[i]} else now
    requires kept' == if erase then kept else kept + [all[i]]
    requires Distinct(after, kept' + all[i + 1..]) && SameCounts(now, after, kept' + all[i + 1..])
    ensures Purging(before, after, all, kept', i + 1,
                    if erase then gone + 1 else gone, if erase then left - 1 else left)
  {
    assert all[..i + 1][..i] == all[..i];
    SameCountsTwice(before, now, after, kept + all[i..], kept' + all[i + 1..]);
  }

  lemma PurgingStarts(at: Pointers, all: seq<Handle>, purge: nat)
    requires Distinct(at, all)
    ensures Purging(at, at, all, [], 0, 0, purge)
  {
    assert [] + all[0..] == all && all[..0] == [];
  }

  /** The limit is met, because the buffers in use fit it. */
  lemma PurgingEnds(before: Pointers, now: Pointers, all: seq<Handle>, kept: seq<Handle>, i: nat, gone: int,
                    left: int, rest: seq<Handle>)
    requires Purging(before, now, all, kept, i, gone, left) && (i == |all| || left == 0) && rest == kept + all[i..]
    ensures |rest| == Larger(Used(before, all), |all| - gone - left)
    ensures forall h :: h in all && !Sole(before, h) ==> h in rest
    ensures forall h :: h in rest ==> h in all
    ensures Distinct(now, rest) && ClientsKept(before, now, all) && Within(before, now) && LeftAreGone(now, all, rest)
  {
    assert all == all[..i] + all[i..];
    if i == |all| {
      assert all[..i] == all;
    }
    UsedBound(before, all, i);
  }

  lemma {:induction false} UsedBound(at: Pointers, hs: seq<Handle>, i: nat)
    requires i <= |hs|
    ensures Used(at, hs) <= Used(at, hs[..i]) + |hs| - i
  {
    if i == |hs| {
      assert hs[..i] == hs;
    } else {
      UsedBound(at, hs[..|hs| - 1], i);
      assert hs[..|hs| - 1][..i] == hs[..i];
    }
  }

  /** The walk of DropMismatched, i handles in. */
  ghost predicate Dropping(before: Pointers, now: Pointers, all: seq<Handle>, kept: seq<Handle>, i: nat,
                           geometry: Geometry) {
    && i <= |all| && |kept| <= i && LeftAreGone(now, all, kept + all[i..])
    && kept == Matching(before, all[..i], geometry) && SameCounts(before, now, kept + all[i..])
    && Distinct(now, kept + all[i..]) && ClientsKept(before, now, all) && Within(before, now)
    && forall h :: h in kept ==> h in all && h in now && now[h] != null && now[h].geometry == geometry
  }

  lemma DroppingStarts(at: Pointers, all: seq<Handle>, geometry: Geometry)
    requires Distinct(at, all)
    ensures Dropping(at, at, all, [], 0, geometry)
  {
    assert [] + all == all;
  }

  lemma DroppingEnds(before: Pointers, now: Pointers, all: seq<Handle>, kept: seq<Handle>, geometry: Geometry)
    requires Dropping(before, now, all, kept, |all|, geometry)
    ensures |kept| <= |all| && Distinct(now, kept) && ClientsKept(before, now, all) && Within(before, now)
    ensures LeftAreGone(now, all, kept) && kept == Matching(before, all, geometry) && SameCounts(before, now, kept)
    ensures forall h :: h in kept ==> h in all && h in now && now[h] != null && now[h].geometry == geometry
  {
    assert kept + all[|all|..] == kept && all[..|all|] == all;
  }

  lemma DroppingHere(before: Pointers, now: Pointers, all: seq<Handle>, kept: seq<Handle>, i: nat, geometry: Geometry)
    requires Dropping(before, now, all, kept, i, geometry) && i < |all|
    ensures kept + all[i..] == kept + ([all[i]] + all[i + 1..])
    ensures all[i] in now && now[all[i]] != null
  {
    assert all[i] == (kept + all[i..])[|kept|];
    assert all[i..] == [all[i]] + all[i + 1..];
  }

  lemma MatchingNext(at: Pointers, all: seq<Handle>, i: nat, geometry: Geometry)
    requires i < |all|
    ensures Matching(at, all[..i + 1], geometry) == Matching(at, all[..i], geometry) +
              if all[i] in at && at[all[i]] != null && at[all[i]].geometry == geometry then [all[i]] else []
  {
    assert all[..i + 1][..i] == all[..i];
  }

  /** One step of a walk: what holds of the handles still there goes on holding. */
  lemma StepKeeps(before: Pointers, now: Pointers, after: Pointers, all: seq<Handle>, kept: seq<Handle>,
                  kept': seq<Handle>,
                  i: nat, erase: bool)
    requires i < |all| && LeftAreGone(now, all, kept + all[i..]) && SameCounts(before, now, kept + all[i..])
    requires after == if erase then now - {all[i]} else now
    requires kept' == if erase then kept else kept + [all[i]]
    requires SameCounts(now, after, kept' + all[i + 1..])
    ensures LeftAreGone(after, all, kept' + all[i + 1..]) && SameCounts(before, after, kept' + all[i + 1..])
  {
    assert all[i..] == [all[i]] + all[i + 1..];
    hide SameCounts;
    assert forall h :: h in kept' + all[i + 1..] ==> h in kept + all[i..];
    SameCountsTwice(before, now, after, kept + all[i..], kept' + all[i + 1..]);
  }

  lemma KeptMatches(now: Pointers, after: Pointers, all: seq<Handle>, kept: seq<Handle>, kept': seq<Handle>,
                    i: nat, geometry: Geometry, erase: bool)
    requires i < |all| && all[i] in now && now[all[i]] != null && (erase <==> now[all[i]].geometry != geometry)
    requires forall h :: h in kept ==> h in all && h in now && now[h] != null && now[h].geometry == geometry
    requires after == if erase then now - {all[i]} else now
    requires kept' == if erase then kept else kept + [all[i]]
    ensures forall h :: h in kept' ==> h in all && h in after && after[h] != null && after[h].geometry == geometry
  {
  }

  lemma DroppingNext(before: Pointers, now: Pointers, after: Pointers, all: seq<Handle>, kept: seq<Handle>,
                     kept': seq<Handle>,
                     i: nat, geometry: Geometry, erase: bool)
    requires Dropping(before, now, all, kept, i, geometry) && i < |all|
    requires all[i] in now && now[all[i]] != null && (erase <==> now[all[i]].geometry != geometry)
    requires after == if erase then now - {all[i]} else now
    requires kept' == if erase then kept else kept + [all[i]]
    requires Distinct(after, kept' + all[i + 1..]) && SameCounts(now, after, kept' + all[i + 1..])
    ensures Dropping(before, after, all, kept', i + 1, geometry)
  {
    MatchingNext(before, all, i, geometry);
    hide SameCounts, LeftAreGone, Matching, Distinct;
    StepKeeps(before, now, after, all, kept, kept', i, erase);
    KeptMatches(now, after, all, kept, kept', i, geometry, erase);
  }

  /** No handle is new, and none points elsewhere. */
  ghost predicate Within(before: Pointers, after: Pointers) {
    forall h :: h in after ==> h in before && after[h] == before[h]
  }

  ghost predicate SameCounts(before: Pointers, after: Pointers, hs: seq<Handle>) {
    forall i :: 0 <= i < |hs| ==>
      && hs[i] in before && hs[i] in after && after[hs[i]] == before[hs[i]]
      && (after[hs[i]] != null ==> Count(after, after[hs[i]]) == Count(before, before[hs[i]]))
  }

  /** The order of the list does not matter for it to be distinct. */
  lemma HeadInFront(at: Pointers, a: seq<Handle>, b: seq<Handle>)
    requires Distinct(at, a + b) && b != []
    ensures b[0] in at && at[b[0]] != null
    ensures Distinct(at, [b[0]] + (a + b[1..]))
  {
    var whole, moved := a + b, [b[0]] + (a + b[1..]);
    assert whole[|a|] == b[0];
    forall i | 0 < i < |moved|
      ensures moved[i] == whole[if i <= |a| then i - 1 else i] && moved[0] != moved[i] && at[moved[0]] != at[moved[i]]
    {
    }
    forall i, j | 0 < i < j < |moved|
      ensures moved[i] != moved[j] && at[moved[i]] != at[moved[j]]
    {
      assert moved[i] == whole[if i <= |a| then i - 1 else i] && moved[j] == whole[if j <= |a| then j - 1 else j];
    }
  }
}
