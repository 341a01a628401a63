/** Whole runs of a program that uses the pool: its own handles come and go by copy, move, swap and assignment. */
module BufferSession {
  import opened RefCounting
  import opened BufferPool

  /** Operations by the positions of the client's handles. */
  datatype Op =
    | Create(geometry: Geometry)
    | Copy(i: nat)
    | Drop(i: nat)
    | Assign(i: nat, j: nat)
    | Move(i: nat, j: nat)
    | Swap(i: nat, j: nat)
    | Resize(maxNumber: nat)
    | Release

  /** What an operation does to what the client's handles point to. A new buffer is one that no handle of the client
      points to. */
  ghost predicate Follows(ps: seq<Buffer?>, op: Op, ps': seq<Buffer?>) {
    match op
    case Create(geometry) =>
      && |ps'| == |ps| + 1 && ps'[..|ps|] == ps
      && (ps'[|ps|] != null ==> ps'[|ps|] !in ps && ps'[|ps|].geometry == geometry)
    case Copy(i) => ps' == if i < |ps| then ps + [ps[i]] else ps
    case Drop(i) => ps' == if i < |ps| then ps[..i] + ps[i + 1..] else ps
    case Assign(i, j) => ps' == if i < |ps| && j < |ps| then ps[i := ps[j]] else ps
    case Move(i, j) => ps' == if i < |ps| && j < |ps| then ps[j := null][i := ps[j]] else ps
    case Swap(i, j) => ps' == if i < |ps| && j < |ps| then ps[i := ps[j]][j := ps[i]] else ps
    case Resize(_) => ps' == ps
    case Release => ps' == ps
  }

  ghost predicate AllDifferent(hs: seq<Handle>) {
    forall i, j :: 0 <= i < j < |hs| ==> hs[i] != hs[j]
  }

  /** The handles that exist are those of the client and those of the pool, and none is both. */
  ghost predicate Settled(at: Pointers, pool: seq<Handle>, clients: seq<Handle>) {
    && AllDifferent(clients)
    && (forall h :: h in clients ==> h in at && h !in pool)
    && (forall h :: h in at ==> h in clients || h in pool)
  }

  /** How many of these handles hold b. */
  ghost function Holding(at: Pointers, hs: seq<Handle>, b: Buffer): nat
    requires forall h :: h in hs ==> h in at
  {
    if hs == [] then 0
    else Holding(at, hs[..|hs| - 1], b) + if at[hs[|hs| - 1]] == b then 1 else 0
  }

  lemma {:induction false} HoldingElsewhere(at: Pointers, hs: seq<Handle>, b: Buffer, h: Handle)
    requires h !in hs && forall g :: g in hs ==> g in at
    ensures Holding(at - {h}, hs, b) == Holding(at, hs, b)
  {
    if hs != [] {
      HoldingElsewhere(at, hs[..|hs| - 1], b, h);
    }
  }

  /** Counting handle by handle gives the count. */
  lemma {:induction false} CountByHandle(at: Pointers, hs: seq<Handle>, b: Buffer)
    requires AllDifferent(hs) && (forall h :: h in hs ==> h in at) && (forall h :: h in at ==> h in hs)
    ensures Count(at, b) == Holding(at, hs, b)
  {
    if hs == [] {
      assert Holders(at, b) == {};
    } else {
      var front, last := hs[..|hs| - 1], hs[|hs| - 1];
      assert hs == front + [last];
      CountByHandle(at - {last}, front, b);
      CountRemove(at, last, b);
      HoldingElsewhere(at, front, b, last);
    }
  }

  lemma {:induction false} HoldingSplits(at: Pointers, a: seq<Handle>, c: seq<Handle>, b: Buffer)
    requires forall h :: h in a + c ==> h in at
    ensures (forall h :: h in a ==> h in at) && (forall h :: h in c ==> h in at)
    ensures Holding(at, a + c, b) == Holding(at, a, b) + Holding(at, c, b)
  {
    forall h | h in a || h in c
      ensures h in a + c && h in at
    {
    }
    if c == [] {
      assert a + c == a;
    } else {
      assert (a + c)[..|a + c| - 1] == a + c[..|c| - 1];
      HoldingSplits(at, a, c[..|c| - 1], b);
    }
  }

  class Program {
    const pool: I420BufferPool
    var clients: seq<Handle>

    ghost predicate Valid()
      reads this, pool, pool.world, pool.world.at.Keys, pool.world.buffers
    {
      pool.Valid() && Settled(pool.world.at, pool.buffers, clients)
    }

    /** What the client's handles point to. */
    ghost function Pointers(): (ps: seq<Buffer?>)
      reads this, clients
      ensures |ps| == |clients|
    {
      seq(|clients|, k requires 0 <= k < |clients| reads this, clients => clients[k].ptr)
    }

    constructor (maxNumberOfBuffers: nat)
      requires maxNumberOfBuffers < SIZE_T_RANGE
      ensures Valid() && clients == [] && fresh(pool) && fresh(pool.world)
      ensures pool.world.at == map[] && pool.world.buffers == {}
    {
      var world := new World();
      pool := new I420BufferPool(world, maxNumberOfBuffers);
      clients := [];
    }

    /** The count of every buffer is the number of handles in the pool and at the client that hold it, and the
        buffer is deleted exactly when there are none. */
    lemma Accounting(b: Buffer)
      requires Valid() && b in pool.world.buffers
      ensures forall h :: h in pool.buffers + clients ==> h in pool.world.at
      ensures b.refCount == Holding(pool.world.at, pool.buffers, b) + Holding(pool.world.at, clients, b)
      ensures b.deleted <==> b.refCount == 0
    {
      var at, all := pool.world.at, pool.buffers + clients;
      assert AllDifferent(all) by {
        forall i, j | 0 <= i < j < |all|
          ensures all[i] != all[j]
        {
          assert j >= |pool.buffers| ==> all[j] in clients;
          assert i < |pool.buffers| ==> all[i] in pool.buffers;
        }
      }
      CountByHandle(at, all, b);
      HoldingSplits(at, pool.buffers, clients, b);
    }

    lemma PointersAre()
      requires Valid()
      ensures Held(pool.world.at, clients, Pointers())
      ensures Settled(pool.world.at, pool.buffers, clients)
    {
    }

    /** The client asks the pool for a buffer. */
    method Obtain(geometry: Geometry)
      requires Valid()
      modifies this`clients, pool`buffers, pool.world, pool.world.buffers
      ensures Valid() && old(pool.world.buffers) <= pool.world.buffers
          && fresh(pool.world.buffers - old(pool.world.buffers))
      ensures |clients| == |old(clients)| + 1 && clients[..|old(clients)|] == old(clients)
      ensures fresh(clients[|old(clients)|])
      ensures Follows(old(Pointers()), Create(geometry), Pointers())
      ensures pool.maxNumberOfBuffers == old(pool.maxNumberOfBuffers)
    {
      hide Distinct, Settled, ClientsKept, LeftAreGone, NewAre, Count, Sole, Matching, FreeMatch, FirstFree, PointsTo;
      SettledApart(pool.world.at, pool.buffers, clients);
      PointersAre();
      hide Follows, Held;
      ghost var before, pooled, had, ps := pool.world.at, pool.buffers, clients, Pointers();
      var r := pool.CreateBuffer(geometry);
      NotClients(before, pooled, had, ps, r.ptr, geometry);
      clients := clients + [r];
      assert Pointers() == ps + [r.ptr];
      SettledMore(before, pooled, had, pool.world.at, pool.buffers, r);
    }

    /** A copy of one of the client's handles. */
    method CopyOf(i: nat)
      requires Valid() && i < |clients|
      modifies this`clients, pool.world`at, pool.world.buffers
      ensures Valid() && |clients| == |old(clients)| + 1 && clients[..|old(clients)|] == old(clients)
      ensures fresh(clients[|old(clients)|])
      ensures Pointers() == old(Pointers()) + [old(Pointers())[i]]
    {
      hide Distinct, Settled, Count;
      ghost var at, ps := pool.world.at, Pointers();
      PointersAre();
      var h := clients[i];
      if h.ptr != null {
        pool.world.HeldIsLive(h);
      }
      var r := pool.world.Make(h.ptr);
      SettledAdd(at, pool.buffers, clients, r, h.ptr);
      clients := clients + [r];
      assert Pointers() == ps + [ps[i]];
    }

    /** The end of one of the client's handles. */
    method End(i: nat)
      requires Valid() && i < |clients|
      modifies this`clients, pool.world`at, pool.world.buffers
      ensures Valid() && clients == old(clients[..i] + clients[i + 1..])
      ensures Pointers() == old(Pointers()[..i] + Pointers()[i + 1..])
    {
      hide Distinct, Settled, Count;
      ghost var ps := Pointers();
      SettledRemove(pool.world.at, pool.buffers, clients, i);
      pool.world.Destroy(clients[i]);
      clients := clients[..i] + clients[i + 1..];
      assert Pointers() == ps[..i] + ps[i + 1..];
    }

    /** Assignment, move assignment and swap among the client's handles, the same one included. */
    method Reseat(op: Op)
      requires Valid() && (op.Assign? || op.Move? || op.Swap?) && op.i < |clients| && op.j < |clients|
      modifies pool.world`at, pool.world.buffers, clients
      ensures Valid() && Follows(old(Pointers()), op, Pointers())
    {
      hide Distinct, Settled, Count, Follows, Held;
      PointersAre();
      ghost var at, ps := pool.world.at, Pointers();
      HeldAt(at, pool.buffers, clients, ps);
      var g, h := clients[op.i], clients[op.j];
      if op.Assign? {
        if h.ptr != null {
          pool.world.HeldIsLive(h);
        }
        pool.world.Assign(g, h.ptr);
      } else if op.Move? {
        pool.world.AssignByMove(g, h);
      } else {
        pool.world.Swap(g, h);
      }
      SettledStays(at, pool.world.at, pool.buffers, clients);
      PointersAre();
      ReseatFollows(at, clients, ps, op, pool.world.at, Pointers());
    }

    /** The pool's own handles go. */
    method OnPool(op: Op)
      requires Valid() && (op.Resize? || op.Release?) && (op.Resize? ==> op.maxNumber < SIZE_T_RANGE)
      modifies pool`buffers, pool`maxNumberOfBuffers, pool.world`at, pool.world.buffers
      ensures Valid() && Pointers() == old(Pointers())
      ensures op.Release? ==> pool.buffers == [] && pool.maxNumberOfBuffers == old(pool.maxNumberOfBuffers)
      ensures op.Resize? ==>
                pool.maxNumberOfBuffers ==
                if old(Used(pool.world.at, pool.buffers)) <= op.maxNumber then op.maxNumber
                else old(pool.maxNumberOfBuffers)
    {
      hide Distinct, Settled, ClientsKept, LeftAreGone, Within, Sole, Used;
      ghost var before, pooled := pool.world.at, pool.buffers;
      if op.Resize? {
        var ok := pool.Resize(op.maxNumber);
      } else {
        pool.Release();
      }
      SettledLess(before, pooled, clients, pool.world.at, pool.buffers);
    }

    /** One operation; positions and limits out of range do nothing. */
    method Perform(op: Op)
      requires Valid()
      modifies this`clients, pool`buffers, pool`maxNumberOfBuffers, pool.world, pool.world.buffers, clients
      ensures Valid() && old(pool.world.buffers) <= pool.world.buffers
          && fresh(pool.world.buffers - old(pool.world.buffers))
      ensures forall h :: h in clients ==> h in old(clients) || fresh(h)
      ensures Follows(old(Pointers()), op, Pointers())
      ensures op.Release? ==> pool.buffers == []
      ensures op.Resize? || pool.maxNumberOfBuffers == old(pool.maxNumberOfBuffers)
    {
      hide Distinct, Settled, Sole;
      match op
      case Create(geometry) =>
        Obtain(geometry);
      case Copy(i) =>
        if i < |clients| { CopyOf(i); }
      case Drop(i) =>
        if i < |clients| { End(i); }
      case Resize(maxNumber) =>
        if maxNumber < SIZE_T_RANGE { OnPool(op); }
      case Release =>
        OnPool(op);
      case _ =>
        if op.i < |clients| && op.j < |clients| { Reseat(op); }
    }

    /** Over any run: every operation does to the client's handles what it should, no buffer is handed out while
        the client holds it, the counts are right, nothing is lost or deleted early, and the pool keeps its limit. */
    method Run(ops: seq<Op>) returns (ghost trace: seq<seq<Buffer?>>)
      requires Valid() && clients == [] && pool.world.at == map[] && pool.world.buffers == {}
      modifies this`clients, pool`buffers, pool`maxNumberOfBuffers, pool.world
      ensures Valid() && |pool.buffers| <= pool.maxNumberOfBuffers
      ensures |trace| == |ops| + 1 && trace[0] == [] && trace[|ops|] == Pointers()
      ensures forall i :: 0 <= i < |ops| ==> Follows(trace[i], ops[i], trace[i + 1])
      ensures forall b :: b in pool.world.buffers ==>
                && (forall h :: h in pool.buffers + clients ==> h in pool.world.at)
                && b.refCount == Holding(pool.world.at, pool.buffers, b) + Holding(pool.world.at, clients, b)
                && (b.deleted <==> b.refCount == 0)
    {
      trace := [Pointers()];
      for i := 0 to |ops|
        invariant Valid() && fresh(pool.world.buffers) && fresh(clients)
        invariant |trace| == i + 1 && trace[0] == [] && trace[i] == Pointers()
        invariant forall k :: 0 <= k < i ==> Follows(trace[k], ops[k], trace[k + 1])
      {
        hide Distinct, Settled, Follows;
        Perform(ops[i]);
        trace := trace + [Pointers()];
        assert forall k :: 0 <= k < |clients| ==> clients[k] in clients;
      }
      forall b | b in pool.world.buffers
        ensures forall h :: h in pool.buffers + clients ==> h in pool.world.at
        ensures b.refCount == Holding(pool.world.at, pool.buffers, b) + Holding(pool.world.at, clients, b)
        ensures b.deleted <==> b.refCount == 0
      {
        Accounting(b);
      }
    }
  }

  /** What the handles point to. */
  ghost predicate Held(at: Pointers, clients: seq<Handle>, ps: seq<Buffer?>) {
    |ps| == |clients| && forall k :: 0 <= k < |clients| ==> clients[k] in at && at[clients[k]] == ps[k]
  }

  lemma HeldAt(at: Pointers, pool: seq<Handle>, clients: seq<Handle>, ps: seq<Buffer?>)
    requires Settled(at, pool, clients) && Held(at, clients, ps)
    ensures forall h :: h in clients ==> h in at
    ensures AllDifferent(clients)
    ensures forall k :: 0 <= k < |clients| ==> at[clients[k]] == ps[k]
  {
  }

  /** A buffer that only handles of the pool held is new to the client. */
  lemma NotClients(at: Pointers, pool: seq<Handle>, clients: seq<Handle>, ps: seq<Buffer?>, b: Buffer?,
                   geometry: Geometry)
    requires Settled(at, pool, clients) && Held(at, clients, ps)
    requires b != null ==> b.geometry == geometry && forall h :: h in at && at[h] == b ==> h in pool
    ensures Follows(ps, Create(geometry), ps + [b])
  {
    forall k | 0 <= k < |ps|
      ensures b == null || ps[k] != b
    {
      assert clients[k] in clients;
    }
  }

  lemma ReseatFollows(at: Pointers, clients: seq<Handle>, ps: seq<Buffer?>, op: Op, at': Pointers, ps': seq<Buffer?>)
    requires AllDifferent(clients) && Held(at, clients, ps) && Held(at', clients, ps')
    requires (op.Assign? || op.Move? || op.Swap?) && op.i < |clients| && op.j < |clients|
    requires var g, h := clients[op.i], clients[op.j];
             at' == if op.Assign? then at[g := at[h]]
                    else if op.Move? then at[h := null][g := at[h]]
                    else at[g := at[h]][h := at[g]]
    ensures Follows(ps, op, ps')
  {
  }

  lemma SettledAdd(at: Pointers, pool: seq<Handle>, clients: seq<Handle>, r: Handle, p: Buffer?)
    requires Distinct(at, pool) && Settled(at, pool, clients) && r !in at
    ensures Distinct(at[r := p], pool) && Settled(at[r := p], pool, clients + [r])
  {
    assert r !in pool && r !in clients;
  }

  lemma SettledRemove(at: Pointers, pool: seq<Handle>, clients: seq<Handle>, i: nat)
    requires Distinct(at, pool) && Settled(at, pool, clients) && i < |clients|
    ensures clients[i] in at
    ensures Distinct(at - {clients[i]}, pool) && Settled(at - {clients[i]}, pool, clients[..i] + clients[i + 1..])
  {
    var h, rest := clients[i], clients[..i] + clients[i + 1..];
    assert h in clients;
    forall g | g in clients && g != h
      ensures g in rest
    {
      var k :| 0 <= k < |clients| && clients[k] == g;
      assert rest[if k < i then k else k - 1] == g;
    }
  }

  /** Handles of the client that point elsewhere. */
  lemma SettledStays(before: Pointers, after: Pointers, pool: seq<Handle>, clients: seq<Handle>)
    requires Distinct(before, pool) && Settled(before, pool, clients)
    requires forall h :: h in before <==> h in after
    requires forall h :: h in before && h !in clients ==> after[h] == before[h]
    ensures Distinct(after, pool) && Settled(after, pool, clients)
  {
    assert forall i :: 0 <= i < |pool| ==> pool[i] !in clients;
  }

  lemma SettledApart(at: Pointers, pool: seq<Handle>, clients: seq<Handle>)
    requires Settled(at, pool, clients)
    ensures forall h :: h in clients ==> h !in pool
  {
  }

  lemma SettledMore(before: Pointers, pool: seq<Handle>, clients: seq<Handle>, after: Pointers, pool': seq<Handle>,
                    r: Handle)
    requires Settled(before, pool, clients) && r !in before && r in after && r !in pool'
    requires ClientsKept(before, after, pool) && LeftAreGone(after, pool, pool') && NewAre(before, after, pool' + [r])
    requires forall h :: h in clients ==> h !in pool'
    ensures Settled(after, pool', clients + [r])
  {
    forall h | h in after
      ensures h in clients + [r] || h in pool'
    {
      if h !in before {
        assert h in pool' + [r];
      }
    }
  }

  lemma SettledLess(before: Pointers, pool: seq<Handle>, clients: seq<Handle>, after: Pointers, pool': seq<Handle>)
    requires Settled(before, pool, clients) && Within(before, after)
    requires ClientsKept(before, after, pool) && LeftAreGone(after, pool, pool')
    requires forall h :: h in pool' ==> h in pool
    ensures Settled(after, pool', clients)
  {
  }
}
