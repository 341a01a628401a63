/** The robust mutexes that each thread holds, on a list of the thread's own. */
module RobustMutexes {
  import opened IntrusiveLists

  /** stateInconsistent is -1 once the owner has died without unlocking. */
  class Mutex {
    var ownerThread: Thread?
    var stateInconsistent: int

    constructor ()
      ensures ownerThread == null && stateInconsistent == 0
    {
      ownerThread, stateInconsistent := null, 0;
    }
  }

  /** A mutex by its robust node. */
  type Robust = Node<Mutex>

  class Thread {
    var robustMxList: Node?<Mutex>
    ghost var held: seq<Robust>

    ghost predicate Valid()
      reads this, held
    {
      Chained(held) && robustMxList == At(held, 0)
    }

    constructor ()
      ensures Valid() && held == []
    {
      robustMxList, held := null, [];
    }

    method PushFront(robust: Robust)
      requires Valid() && robust !in held
      modifies this, robust, held
      ensures Valid() && held == [robust] + old(held)
    {
      if robustMxList == null {
        robust.prev := null;
        robust.next := null;
        robustMxList := robust;
      } else {
        robust.prev := null;
        robust.next := robustMxList;
        robustMxList.prev := robust;
        robustMxList := robust;
      }
      held := [robust] + held;
    }

    method Unlink(robust: Robust)
      requires Valid() && robust in held
      modifies this, held
      ensures Valid() && held == Without(old(held), IndexOf(old(held), robust))
      ensures forall n :: n in held ==> n in old(held) && n != robust
    {
      ghost var k := IndexOf(held, robust);
      Neighbours(held, k);
      OthersStay(held, k);
      if robust.next != null {
        robust.next.prev := robust.prev;
      }
      if robust.prev != null {
        robust.prev.next := robust.next;
      }
      if robustMxList == robust {
        robustMxList := robust.next;
      }
      held := Without(held, k);
    }
  }

  /** No two robust nodes are of the same mutex. */
  ghost predicate Paired(nodes: set<Robust>) {
    forall n, m :: n in nodes && m in nodes && n.item == m.item ==> n == m
  }

  /** All threads and all robust mutexes. */
  class Locks {
    ghost var threads: set<Thread>
    ghost var nodes: set<Robust>

    /** What t holds t owns, so no mutex is on two lists. */
    ghost predicate Owns(t: Thread)
      reads this, t, nodes, set n | n in nodes :: n.item
    {
      forall n :: n in t.held ==> n in nodes && n.item.ownerThread == t
    }

    ghost predicate Valid()
      reads this, threads, nodes, set n | n in nodes :: n.item
    {
      Paired(nodes) && forall t :: t in threads ==> Owns(t) && t.Valid()
    }

    constructor ()
      ensures Valid() && threads == {} && nodes == {}
    {
      threads, nodes := {}, {};
    }

    /** A new thread holds nothing. */
    method Enrol() returns (t: Thread)
      requires Valid()
      modifies this`threads
      ensures Valid() && fresh(t) && t.held == [] && threads == old(threads) + {t}
    {
      t := new Thread();
      threads := threads + {t};
    }

    /** A new mutex is on no list. */
    method NewMutex() returns (robust: Robust)
      requires Valid()
      modifies this`nodes
      ensures Valid() && fresh(robust) && fresh(robust.item) && nodes == old(nodes) + {robust}
      ensures robust.item.ownerThread == null && forall t :: t in threads ==> robust !in t.held
    {
      var mx := new Mutex();
      robust := new Node(mx);
      nodes := nodes + {robust};
    }

    /** The thread has locked the mutex: it goes to the front of the thread's list. */
    method Add(robust: Robust, self: Thread)
      requires Valid() && robust in nodes && self in threads
      requires forall t :: t in threads ==> robust !in t.held
      modifies self, robust.item`ownerThread, robust, self.held
      ensures Valid() && robust.item.ownerThread == self && self.held == [robust] + old(self.held)
    {
      Apart(self, robust);
      robust.item.ownerThread := self;
      label pointed:
      self.PushFront(robust);
      forall t | t in threads
        ensures Owns(t) && t.Valid()
      {
        if t != self {
          assert old@pointed(t.Valid());
          forall i | 0 <= i < |t.held|
            ensures t.held[i].next == old@pointed(t.held[i].next) && t.held[i].prev == old@pointed(t.held[i].prev)
          {
            assert t.held[i] in t.held;
          }
        }
      }
    }

    /** The lists of other threads share no node with the list of t, nor is the given node on them. */
    lemma Apart(t: Thread, robust: Robust)
      requires Valid() && t in threads && robust in nodes
      requires forall u :: u in threads && u != t ==> robust !in u.held
      ensures forall u, n :: u in threads && u != t && n in u.held ==>
                               n !in t.held && n != robust && n.item != robust.item
    {
      hide Chained;
    }

    /** The mutex goes from its owner's list, from wherever it is; the new owner is otp. */
    method Remove(robust: Robust, otp: Thread?)
      requires Valid() && robust in nodes && robust.item.ownerThread != null && robust.item.ownerThread in threads
      requires robust in robust.item.ownerThread.held
      modifies robust.item.ownerThread, robust.item`ownerThread, robust.item.ownerThread.held
      ensures Valid() && robust.item.ownerThread == otp
      ensures var owner := old(robust.item.ownerThread);
              owner.held == Without(old(owner.held), IndexOf(old(owner.held), robust))
    {
      var owner := robust.item.ownerThread;
      Apart(owner, robust);
      robust.item.ownerThread := otp;
      label pointed:
      owner.Unlink(robust);
      forall t | t in threads
        ensures Owns(t) && t.Valid()
      {
        if t != owner {
          assert old@pointed(t.Valid());
          forall i | 0 <= i < |t.held|
            ensures t.held[i].next == old@pointed(t.held[i].next) && t.held[i].prev == old@pointed(t.held[i].prev)
          {
            assert t.held[i] in t.held;
          }
        }
      }
    }

    /** A thread that exits gives up what it still holds; every such mutex is marked. */
    method Exit(sp: Thread)
      requires Valid() && sp in threads
      modifies sp, sp.held, set n | n in sp.held :: n.item
      ensures Valid() && sp.held == [] && sp.robustMxList == null
      ensures forall n :: n in old(sp.held) ==> n.item.stateInconsistent == -1 && n.item.ownerThread == sp
    {
      ghost var all, i := sp.held, 0;
      while sp.robustMxList != null
        invariant Valid() && 0 <= i <= |all| && sp.held == all[i..]
        invariant forall j :: 0 <= j < i ==> all[j].item.stateInconsistent == -1 && all[j].item.ownerThread == sp
        decreases |all| - i
      {
        hide Chained, Paired;
        assert all[i..][0] == all[i] && all[i..][1..] == all[i + 1..];
        GiveUpFirst(sp);
        i := i + 1;
      }
    }

    /** The front mutex of the list: off it, and marked. */
    method GiveUpFirst(sp: Thread)
      requires Valid() && sp in threads && sp.held != []
      modifies sp, sp.held, sp.held[0].item
      ensures Valid() && sp.held == old(sp.held[1..])
      ensures old(sp.held[0]).item.stateInconsistent == -1 && old(sp.held[0]).item.ownerThread == sp
    {
      var robust := sp.robustMxList;
      IndexIs(sp.held, 0);
      assert robust in sp.held;
      Remove(robust, sp);
      robust.item.stateInconsistent := -1;
    }
  }
  // ----- whole runs -----

  /** A thread locks a mutex, the owner of a mutex unlocks it, or a thread exits. */
  datatype LockOp = Lock(n: Robust, t: Thread) | Unlock(n: Robust, to: Thread?) | Exits(t: Thread)

  /** What one operation does to the list of thread t. */
  ghost function HeldNext(held: seq<Robust>, op: LockOp, t: Thread): seq<Robust> {
    match op
    case Lock(n, u) => if u == t then [n] + held else held
    case Unlock(n, _) => if n in held then Without(held, IndexOf(held, n)) else held
    case Exits(u) => if u == t then [] else held
  }

  /** What is on a thread's list after some operations, from what was on it before. */
  ghost function HeldAfter(before: seq<Robust>, ops: seq<LockOp>, t: Thread): seq<Robust> {
    if ops == [] then before else HeldNext(HeldAfter(before, ops[..|ops| - 1], t), ops[|ops| - 1], t)
  }

  /** What each thread holds. */
  type Lists = map<Thread, seq<Robust>>

  ghost function Held(threads: set<Thread>): Lists
    reads threads
  {
    map t | t in threads :: t.held
  }

  ghost function ListsAfter(start: Lists, ops: seq<LockOp>): Lists {
    map t | t in start :: HeldAfter(start[t], ops, t)
  }

  /** Only a free mutex is locked, and only one that some thread holds is unlocked. */
  ghost predicate Allowed(held: Lists, nodes: set<Robust>, op: LockOp) {
    match op
    case Lock(n, t) => n in nodes && t in held && forall u :: u in held ==> n !in held[u]
    case Unlock(n, _) => n in nodes && exists u :: u in held && n in held[u]
    case Exits(t) => t in held
  }

  ghost predicate Legal(start: Lists, nodes: set<Robust>, ops: seq<LockOp>) {
    forall i :: 0 <= i < |ops| ==> Allowed(ListsAfter(start, ops[..i]), nodes, ops[i])
  }

  method DoLock(n: Robust, t: Thread, locks: Locks)
    requires locks.Valid() && Allowed(Held(locks.threads), locks.nodes, Lock(n, t))
    modifies locks.threads, locks.nodes, n.item
    ensures locks.Valid()
    ensures forall u :: u in locks.threads ==> u.held == HeldNext(old(u.held), Lock(n, t), u)
  {
    hide Chained, Paired;
    assert forall u :: u in locks.threads ==> Held(locks.threads)[u] == u.held;
    locks.Add(n, t);
  }

  method DoUnlock(n: Robust, to: Thread?, locks: Locks)
    requires locks.Valid() && Allowed(Held(locks.threads), locks.nodes, Unlock(n, to))
    modifies locks.threads, locks.nodes, n.item
    ensures locks.Valid()
    ensures forall u :: u in locks.threads ==> u.held == HeldNext(old(u.held), Unlock(n, to), u)
  {
    hide Chained, Paired;
    ghost var t :| t in locks.threads && n in t.held;
    assert forall u :: u in locks.threads && n in u.held ==> u == t;
    locks.Remove(n, to);
  }

  /** One operation changes the list of the thread that it is about, and no other. */
  method Do(op: LockOp, locks: Locks)
    requires locks.Valid() && Allowed(Held(locks.threads), locks.nodes, op)
    modifies locks.threads, locks.nodes, set n | n in locks.nodes :: n.item
    ensures locks.Valid()
    ensures Held(locks.threads) == map t | t in locks.threads :: HeldNext(old(Held(locks.threads))[t], op, t)
  {
    hide Chained, Paired;
    match op {
      case Lock(n, t) =>
        DoLock(n, t, locks);
      case Unlock(n, to) =>
        DoUnlock(n, to, locks);
      case Exits(t) =>
        locks.Exit(t);
    }
  }

  lemma ListsNext(start: Lists, ops: seq<LockOp>, i: nat)
    requires i < |ops|
    ensures ListsAfter(start, ops[..i + 1]) ==
            map t | t in start :: HeldNext(ListsAfter(start, ops[..i])[t], ops[i], t)
  {
    assert ops[..i + 1][..i] == ops[..i];
  }

  /** Over any legal run every list is exactly what its thread holds, the last locked in front; from any
      state, so that new threads and mutexes may come between runs. */
  method Perform(ops: seq<LockOp>, locks: Locks)
    requires locks.Valid() && Legal(Held(locks.threads), locks.nodes, ops)
    modifies locks.threads, locks.nodes, set n | n in locks.nodes :: n.item
    ensures locks.Valid() && Held(locks.threads) == ListsAfter(old(Held(locks.threads)), ops)
  {
    ghost var start := Held(locks.threads);
    for i := 0 to |ops|
      invariant locks.Valid() && Held(locks.threads) == ListsAfter(start, ops[..i])
    {
      assert Allowed(ListsAfter(start, ops[..i]), locks.nodes, ops[i]);
      ListsNext(start, ops, i);
      hide Chained, Paired, Allowed, HeldNext;
      Do(ops[i], locks);
    }
    assert ops[..|ops|] == ops;
  }
}
