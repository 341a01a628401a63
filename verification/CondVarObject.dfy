/** The counter updates of the condition variable as they are made, field by field, in the object. */
module CondVarObject {
  import opened Wrappers
  import opened CondVar

  class Cond {
    var nWaitersBlocked: int
    var nWaitersGone: int
    var nWaitersToUnblock: int
    var semBlockQueue: int
    var semBlockLock: int
    var mtxUnblockLock: Option<nat>
    var freed: bool
    ghost var pcs: seq<Pc>

    ghost function View(): State
      reads this
    {
      State(nWaitersBlocked, nWaitersGone, nWaitersToUnblock, semBlockQueue, semBlockLock, mtxUnblockLock, freed, pcs)
    }

    constructor (ghost n: nat)
      ensures View() == Initial(n)
    {
      nWaitersBlocked, nWaitersGone, nWaitersToUnblock := 0, 0, 0;
      semBlockQueue, semBlockLock := 0, 1;
      mtxUnblockLock := None;
      freed := false;
      pcs := seq(n, _ => Idle);
    }

    /** The update of the wait cleanup handler; fold tells that the caller must now take the gate. */
    method RetractWaiter(ghost t: nat) returns (nSignalsWasLeft: int, fold: bool)
      requires t < |pcs| && pcs[t].Cleaning? && !freed
      modifies this
      ensures Internal(old(View()), t, 0) == Some(View())
      ensures nSignalsWasLeft == old(nWaitersToUnblock) && (fold <==> View().pcs[t] == FoldWait)
    {
      fold := false;
      nSignalsWasLeft := nWaitersToUnblock;
      if nSignalsWasLeft != 0 {
        nWaitersToUnblock := nWaitersToUnblock - 1;
      } else {
        nWaitersGone := nWaitersGone + 1;
        fold := nWaitersGone == GONE_LIMIT;
      }
      pcs := pcs[t := if fold then FoldWait else CleanUnlock(nSignalsWasLeft)];
    }

    /** Signal or broadcast under the mutex: what to issue now, or whether the gate must be closed first. */
    method Decide(ghost t: nat, unblockAll: bool) returns (nSignalsToIssue: int, needGate: bool)
      requires t < |pcs| && pcs[t] == SigChecking(unblockAll) && !freed
      modifies this
      ensures Internal(old(View()), t, 0) == Some(View())
      ensures needGate <==> View().pcs[t].SigGateWait?
      ensures View().pcs[t].SigUnlock? ==> nSignalsToIssue == View().pcs[t].issue
    {
      nSignalsToIssue, needGate := 0, false;
      if nWaitersToUnblock != 0 {
        if nWaitersBlocked == 0 {
          pcs := pcs[t := SigNoop];
          return;
        }
        if unblockAll {
          nSignalsToIssue := nWaitersBlocked;
          nWaitersToUnblock := nWaitersToUnblock + nSignalsToIssue;
          nWaitersBlocked := 0;
        } else {
          nSignalsToIssue := 1;
          nWaitersToUnblock := nWaitersToUnblock + 1;
          nWaitersBlocked := nWaitersBlocked - 1;
        }
        pcs := pcs[t := SigUnlock(nSignalsToIssue)];
      } else if nWaitersBlocked > nWaitersGone {
        needGate := true;
        pcs := pcs[t := SigGateWait(unblockAll)];
      } else {
        pcs := pcs[t := SigNoop];
      }
    }

    /** Signal or broadcast once the gate is closed. */
    method MoveWaiters(ghost t: nat, unblockAll: bool) returns (nSignalsToIssue: int)
      requires t < |pcs| && pcs[t] == SigHasGate(unblockAll) && !freed
      modifies this
      ensures Internal(old(View()), t, 0) == Some(View())
      ensures View().pcs[t] == SigUnlock(nSignalsToIssue)
    {
      if nWaitersGone != 0 {
        nWaitersBlocked := nWaitersBlocked - nWaitersGone;
        nWaitersGone := 0;
      }
      if unblockAll {
        nWaitersToUnblock := nWaitersBlocked;
        nSignalsToIssue := nWaitersToUnblock;
        nWaitersBlocked := 0;
      } else {
        nWaitersToUnblock := 1;
        nSignalsToIssue := nWaitersToUnblock;
        nWaitersBlocked := nWaitersBlocked - 1;
      }
      pcs := pcs[t := SigUnlock(nSignalsToIssue)];
    }

    /** Destroy with both locks held: busy, or freed. */
    method DestroyIfUnused(ghost t: nat) returns (busy: bool)
      requires t < |pcs| && pcs[t] == DesCheck && !freed
      modifies this
      ensures Internal(old(View()), t, 0) == Some(View())
      ensures busy <==> !freed
    {
      busy := nWaitersBlocked > nWaitersGone;
      if busy {
        semBlockLock := semBlockLock + 1;
        pcs := pcs[t := DesUnlock];
      } else {
        mtxUnblockLock := None;
        freed := true;
        pcs := pcs[t := Idle];
      }
    }
  }
}
