/** The page lock table of BufferPool.LockManager: for every locked page, the
    transactions holding a lock on it and each one's mode. */
module Locking {
  import opened Types

  /** PageLock.SHARE and PageLock.EXCLUSIVE. */
  datatype LockType = Share | Exclusive

  type Holders = map<TransactionId, LockType>

  /** An EXCLUSIVE holder is the only holder. */
  ghost predicate SoleExclusive(h: Holders)
  {
    forall t :: t in h && h[t] == Exclusive ==> h.Keys == {t}
  }

  /** The table's invariant: no page keeps an empty holder map, and an
      EXCLUSIVE holder is the only holder of its page. */
  ghost predicate WellFormed(locks: map<PageId, Holders>)
  {
    forall p :: p in locks ==> |locks[p]| > 0 && SoleExclusive(locks[p])
  }

  function HoldersOf(locks: map<PageId, Holders>, pid: PageId): Holders
  {
    if pid in locks then locks[pid] else map[]
  }

  /** The lock `tid` holds on `pid`, if any: the table read as a partial
      function from (page, transaction) to mode. */
  function Mode(locks: map<PageId, Holders>, pid: PageId, tid: TransactionId): Option<LockType>
  {
    if pid in locks && tid in locks[pid] then Some(locks[pid][tid]) else None
  }

  /** Two-phase-locking compatibility: a request by `tid` can be granted when
      every other holder of the page holds SHARE and the request is SHARE. */
  predicate Compatible(h: Holders, tid: TransactionId, req: LockType)
  {
    forall t :: t in h && t != tid ==> h[t] == Share && req == Share
  }

  /** The mode held after a grant: the stronger of the held and requested. */
  function Granted(held: Option<LockType>, req: LockType): LockType
  {
    if held == Some(Exclusive) then Exclusive else req
  }

  /** A well-formed table is determined by its (page, transaction) modes. */
  lemma ModesDetermineTable(l1: map<PageId, Holders>, l2: map<PageId, Holders>)
    requires WellFormed(l1) && WellFormed(l2)
    requires forall p, t :: Mode(l1, p, t) == Mode(l2, p, t)
    ensures l1 == l2
  {
    forall p | p in l1 ensures p in l2 && l1[p] == l2[p] {
      var t :| t in l1[p];
      assert Mode(l1, p, t) == Mode(l2, p, t);
      forall t' ensures (t' in l1[p]) == (t' in l2[p]) && (t' in l1[p] ==> l1[p][t'] == l2[p][t']) {
        assert Mode(l1, p, t') == Mode(l2, p, t');
      }
    }
    forall p | p in l2 ensures p in l1 {
      var t :| t in l2[p];
      assert Mode(l1, p, t) == Mode(l2, p, t);
    }
  }

  lemma SingletonKeys(h: Holders, tid: TransactionId)
    requires |h| == 1 && tid in h
    ensures h.Keys == {tid}
  {
    assert |h.Keys - {tid}| == |h.Keys| - 1 == 0;
  }


  /** Beside a SHARE holder, or among two or more holders, every holder
      holds SHARE. */
  lemma AllShare(h: Holders, tid: TransactionId)
    requires SoleExclusive(h)
    requires (tid in h && h[tid] == Share) || |h| > 1
    ensures forall t :: t in h ==> h[t] == Share
  {
    forall t | t in h ensures h[t] == Share {
      assert h[t] == Exclusive ==> h.Keys == {t} && |h.Keys| == 1;
    }
  }

  /** The table after `tid` is recorded with mode `m` on `pid`. */
  function Grant(locks: map<PageId, Holders>, pid: PageId, tid: TransactionId, m: LockType): map<PageId, Holders>
  {
    locks[pid := HoldersOf(locks, pid)[tid := m]]
  }

  /** Granting a compatible request keeps the invariant and changes only the
      (pid, tid) entry. */
  lemma GrantSpec(locks: map<PageId, Holders>, pid: PageId, tid: TransactionId, req: LockType)
    requires WellFormed(locks)
    requires Compatible(HoldersOf(locks, pid), tid, req)
    ensures var l' := Grant(locks, pid, tid, Granted(Mode(locks, pid, tid), req));
      && WellFormed(l')
      && Mode(l', pid, tid) == Some(Granted(Mode(locks, pid, tid), req))
      && forall p, t :: (p, t) != (pid, tid) ==> Mode(l', p, t) == Mode(locks, p, t)
  {
    var m := Granted(Mode(locks, pid, tid), req);
    var h := HoldersOf(locks, pid);
    var h' := h[tid := m];
    assert Mode(locks, pid, tid) == if tid in h then Some(h[tid]) else None;
    assert SoleExclusive(h) by {
      if pid in locks {
        assert h == locks[pid];
      }
    }
    GrantHolders(h, tid, req, m);
    var l' := Grant(locks, pid, tid, m);
    assert l' == locks[pid := h'];
    PutWellFormed(locks, pid, h');
    GrantModes(locks, pid, tid, m);
  }

  /** A grant changes no other (page, transaction) entry. */
  lemma GrantModes(locks: map<PageId, Holders>, pid: PageId, tid: TransactionId, m: LockType)
    ensures forall p, t :: (p, t) != (pid, tid) ==> Mode(Grant(locks, pid, tid, m), p, t) == Mode(locks, p, t)
  {
    var l' := Grant(locks, pid, tid, m);
    forall p, t | (p, t) != (pid, tid) ensures Mode(l', p, t) == Mode(locks, p, t) {
      if p == pid {
        assert (t in l'[pid]) == (t in HoldersOf(locks, pid));
      }
    }
  }

  /** Storing a non-empty holder map that keeps the one-exclusive rule
      keeps the table well formed. */
  lemma PutWellFormed(locks: map<PageId, Holders>, pid: PageId, h: Holders)
    requires WellFormed(locks) && |h| > 0 && SoleExclusive(h)
    ensures WellFormed(locks[pid := h])
  {
  }

  /** The page's holder map after the grant keeps its one-exclusive rule. */
  lemma GrantHolders(h: Holders, tid: TransactionId, req: LockType, m: LockType)
    requires SoleExclusive(h) && Compatible(h, tid, req)
    requires m == Granted(if tid in h then Some(h[tid]) else None, req)
    ensures var h' := h[tid := m]; |h'| > 0 && SoleExclusive(h')
  {
    var h' := h[tid := m];
    assert tid in h';
    if m == Exclusive {
      forall t | t in h' ensures t == tid {
      }
    }
    forall t | t in h' && h'[t] == Exclusive ensures h'.Keys == {t} {
    }
  }

  /** The table after `tid`'s lock on `pid` is dropped: the page's entry
      goes when no holder remains; without such a lock nothing changes. */
  function Release(locks: map<PageId, Holders>, tid: TransactionId, pid: PageId): map<PageId, Holders>
  {
    if Mode(locks, pid, tid).None? then locks
    else
      var m := locks[pid] - {tid};
      if |m| == 0 then locks - {pid} else locks[pid := m]
  }

  /** Releasing keeps the invariant and changes only the (pid, tid) entry. */
  lemma ReleaseSpec(locks: map<PageId, Holders>, tid: TransactionId, pid: PageId)
    requires WellFormed(locks)
    ensures var l' := Release(locks, tid, pid);
      && WellFormed(l')
      && Mode(l', pid, tid) == None
      && (forall p, t :: (p, t) != (pid, tid) ==> Mode(l', p, t) == Mode(locks, p, t))
      && (Mode(locks, pid, tid) == None ==> l' == locks)
  {
    if Mode(locks, pid, tid).Some? {
      var m := locks[pid] - {tid};
      if |m| == 0 {
        assert m == map[];
        ReleaseLast(locks, tid, pid);
      } else {
        ReleaseOne(locks, tid, pid);
      }
    }
  }

  /** The last holder of a page leaves: the page's entry goes. */
  lemma ReleaseLast(locks: map<PageId, Holders>, tid: TransactionId, pid: PageId)
    requires WellFormed(locks) && pid in locks && locks[pid].Keys == {tid}
    ensures var l' := locks - {pid};
      && WellFormed(l')
      && (forall p, t :: (p, t) != (pid, tid) ==> Mode(l', p, t) == Mode(locks, p, t))
  {
  }

  /** A holder among others leaves: every remaining holder holds SHARE. */
  lemma ReleaseOne(locks: map<PageId, Holders>, tid: TransactionId, pid: PageId)
    requires WellFormed(locks) && pid in locks && tid in locks[pid] && |locks[pid] - {tid}| > 0
    ensures var l' := locks[pid := locks[pid] - {tid}];
      && WellFormed(l')
      && (forall p, t :: (p, t) != (pid, tid) ==> Mode(l', p, t) == Mode(locks, p, t))
  {
    var m := locks[pid] - {tid};
    forall t | t in m ensures m[t] == Share {
      assert t in locks[pid] && t != tid;
    }
  }

  /** Compatibility read as acquireLock's case table, on a page whose holder
      map obeys the invariant. */
  lemma CompatibleCases(h: Holders, tid: TransactionId, req: LockType)
    requires SoleExclusive(h)
    ensures h == map[] ==> Compatible(h, tid, req)
    ensures tid in h && h[tid] == Share && req == Share ==> Compatible(h, tid, req)
    ensures tid in h && h[tid] == Share && req == Exclusive ==> (Compatible(h, tid, req) <==> |h| == 1)
    ensures tid in h && h[tid] == Exclusive ==> Compatible(h, tid, req)
    ensures tid !in h && h != map[] && req == Exclusive ==> !Compatible(h, tid, req)
    ensures tid !in h && req == Share ==> (Compatible(h, tid, req) <==> forall t :: t in h ==> h[t] == Share)
  {
    if tid in h && h[tid] == Share {
      AllShare(h, tid);
      if |h| == 1 {
        SingletonKeys(h, tid);
      } else {
        assert |h.Keys - {tid}| == |h| - 1;
        var other :| other in h.Keys - {tid};
      }
    }
    if tid in h && h[tid] == Exclusive {
      assert h.Keys == {tid};
    }
    if tid !in h && h != map[] {
      var other :| other in h;
    }
  }

  class LockManager {
    var locks: map<PageId, Holders>

    ghost predicate Valid()
      reads this
    {
      WellFormed(locks)
    }

    constructor ()
      ensures Valid() && locks == map[]
    {
      locks := map[];
    }

    /** isHoldLock(tid, pid). */
    function IsHoldLock(tid: TransactionId, pid: PageId): (b: bool)
      reads this
      ensures b <==> Mode(locks, pid, tid).Some?
    {
      pid in locks && tid in locks[pid]
    }

    /** acquireLock(pid, tid, lockType): a single non-blocking probe. It grants
        exactly the compatible requests, records the stronger mode for `tid`
        and leaves every other (page, transaction) entry alone; a denied
        request changes nothing and keeps a SHARE lock `tid` already holds. */
    method AcquireLock(pid: PageId, tid: TransactionId, lockType: LockType) returns (granted: bool)
      requires Valid()
      modifies this
      ensures Valid()
      ensures granted <==> Compatible(HoldersOf(old(locks), pid), tid, lockType)
      ensures granted ==> Mode(locks, pid, tid) == Some(Granted(Mode(old(locks), pid, tid), lockType))
      ensures !granted ==> locks == old(locks)
      ensures forall p, t :: (p, t) != (pid, tid) ==> Mode(locks, p, t) == Mode(old(locks), p, t)
    {
      if pid !in locks {
        GrantSpec(locks, pid, tid, lockType);
        locks := locks[pid := map[tid := lockType]];
        return true;
      }
      if tid in locks[pid] {
        granted := AcquireHeld(pid, tid, lockType);
      } else {
        granted := AcquireOthersHeld(pid, tid, lockType);
      }
    }

    /** The branch of acquireLock where `tid` already holds a lock on `pid`. */
    method AcquireHeld(pid: PageId, tid: TransactionId, lockType: LockType) returns (granted: bool)
      requires pid in locks && tid in locks[pid]
      requires Valid()
      modifies this
      ensures Valid()
      ensures granted <==> Compatible(HoldersOf(old(locks), pid), tid, lockType)
      ensures granted ==> Mode(locks, pid, tid) == Some(Granted(Mode(old(locks), pid, tid), lockType))
      ensures !granted ==> locks == old(locks)
      ensures forall p, t :: (p, t) != (pid, tid) ==> Mode(locks, p, t) == Mode(old(locks), p, t)
    {
      var pageMap := locks[pid];
      var pageLock := pageMap[tid];
      if pageLock == Share {
        if lockType == Share {
          assert SoleExclusive(pageMap);
          AllShare(pageMap, tid);
          assert pageMap[tid := Share] == pageMap;
          assert locks[pid := pageMap] == locks;
          return true;
        } else {
          if |pageMap| == 1 {
            SingletonKeys(pageMap, tid);
            GrantSpec(locks, pid, tid, lockType);
            locks := locks[pid := pageMap[tid := Exclusive]];
            return true;
          }
          assert |pageMap.Keys - {tid}| == |pageMap| - 1;
          var other :| other in pageMap.Keys - {tid};
          return false;
        }
      }
      assert pageMap.Keys == {tid};
      assert pageMap[tid := Exclusive] == pageMap;
      assert locks[pid := pageMap] == locks;
      return true;
    }

    /** The branch of acquireLock where others, but not `tid`, hold `pid`. */
    method AcquireOthersHeld(pid: PageId, tid: TransactionId, lockType: LockType) returns (granted: bool)
      requires pid in locks && tid !in locks[pid]
      requires Valid()
      modifies this
      ensures Valid()
      ensures granted <==> Compatible(HoldersOf(old(locks), pid), tid, lockType)
      ensures granted ==> Mode(locks, pid, tid) == Some(Granted(Mode(old(locks), pid, tid), lockType))
      ensures !granted ==> locks == old(locks)
      ensures forall p, t :: (p, t) != (pid, tid) ==> Mode(locks, p, t) == Mode(old(locks), p, t)
    {
      var pageMap := locks[pid];
      var other :| other in pageMap;
      if |pageMap| > 1 {
        if lockType == Share {
          assert SoleExclusive(pageMap);
          AllShare(pageMap, tid);
          GrantSpec(locks, pid, tid, lockType);
          locks := locks[pid := pageMap[tid := Share]];
          return true;
        } else {
          return false;
        }
      } else if |pageMap| == 1 {
        SingletonKeys(pageMap, other);
        if pageMap[other] == Share {
          if lockType == Share {
            GrantSpec(locks, pid, tid, lockType);
            locks := locks[pid := pageMap[tid := Share]];
            return true;
          } else {
            return false;
          }
        } else {
          return false;
        }
      }
      return false;
    }

    /** releaseLock(tid, pid): drops `tid`'s lock on `pid`, if any, and removes
        the page's entry when no holder remains; nothing else changes. */
    method ReleaseLock(tid: TransactionId, pid: PageId)
      requires Valid()
      modifies this
      ensures Valid()
      ensures locks == Release(old(locks), tid, pid)
      ensures Mode(locks, pid, tid) == None
      ensures forall p, t :: (p, t) != (pid, tid) ==> Mode(locks, p, t) == Mode(old(locks), p, t)
      ensures Mode(old(locks), pid, tid) == None ==> locks == old(locks)
    {
      ReleaseSpec(locks, tid, pid);
      if IsHoldLock(tid, pid) {
        var m := locks[pid] - {tid};
        if |m| == 0 {
          locks := locks - {pid};
        } else {
          locks := locks[pid := m];
        }
      }
    }

    /** completeTransaction(tid): releases every lock `tid` holds and no
        other transaction's. */
    method CompleteTransaction(tid: TransactionId)
      requires Valid()
      modifies this
      ensures Valid()
      ensures forall p :: Mode(locks, p, tid) == None
      ensures forall p, t :: t != tid ==> Mode(locks, p, t) == Mode(old(locks), p, t)
    {
      var keys := locks.Keys;
      while keys != {}
        invariant Valid()
        invariant forall p, t :: Mode(locks, p, t) == (if t == tid && p !in keys then None else Mode(old(locks), p, t))
        decreases keys
      {
        var pid :| pid in keys;
        ReleaseLock(tid, pid);
        keys := keys - {pid};
      }
    }
  }
}
