/** simpledb.storage.BufferPool: the page cache run in place, behind the
    lock manager.

    The fields are the cache's state (see PageCache): the node arena, the
    recency list of handles (most recently used first), the map from page id
    to handle, and the catalog's files as page images. Every method that
    changes them is proved to leave exactly the state, and return exactly
    the outcome, of the matching PageCache function; what those functions
    keep and compute is proved there. */
module BufferPools {
  import opened Types
  import opened Locking
  import opened PageCache

  datatype Permissions = ReadOnly | ReadWrite

  /** getPage's lock mode: SHARE for READ_ONLY, EXCLUSIVE otherwise. */
  function LockFor(perm: Permissions): (m: LockType)
    ensures m == Share <==> perm == ReadOnly
  {
    if perm == ReadOnly then Share else Exclusive
  }

  class BufferPool {
    const numPages: int
    const manager: LockManager
    var nodes: seq<LinkNode>
    var order: seq<nat>
    var pageStore: map<PageId, nat>
    var disk: map<PageId, seq<bv8>>

    ghost function State(): Cache
      reads this
    {
      Cache(nodes, order, pageStore, disk)
    }

    ghost predicate Valid()
      reads this, manager
    {
      Linked(State()) && manager.Valid()
    }

    /** new BufferPool(numPages): an empty cache and an empty lock table. */
    constructor (numPages: int, disk: map<PageId, seq<bv8>>)
      ensures Valid() && Consistent(State()) && fresh(manager)
      ensures this.numPages == numPages && State() == Cache([], [], map[], disk)
      ensures manager.locks == map[]
    {
      this.numPages := numPages;
      this.disk := disk;
      nodes := [];
      order := [];
      pageStore := map[];
      manager := new LockManager();
    }

    // ------------------------------------------------- the recency list

    /** addToHead(node): the node becomes the first after the head sentinel. */
    method AddToHead(h: nat)
      modifies this`order
      ensures order == [h] + old(order)
    {
      order := [h] + order;
    }

    /** remove(node): unlinks a linked node; the others keep their order. */
    method Remove(h: nat)
      requires Distinct(order) && h in order
      modifies this`order
      ensures order == Without(old(order), h)
    {
      var i :| 0 <= i < |order| && order[i] == h;
      WithoutAt(order, i);
      order := order[..i] + order[i + 1..];
    }

    /** moveToHead(node): the node first, the others in their old order. */
    method MoveToHead(h: nat)
      requires Distinct(order) && h in order
      modifies this`order
      ensures order == [h] + Without(old(order), h)
    {
      Remove(h);
      AddToHead(h);
    }

    /** removeTail(): unlinks and returns the last node before the tail
        sentinel. */
    method RemoveTail() returns (h: nat)
      requires Distinct(order) && order != []
      modifies this`order
      ensures h == old(order)[|old(order)| - 1]
      ensures order == old(order)[..|old(order)| - 1]
    {
      h := order[|order| - 1];
      WithoutAt(order, |order| - 1);
      Remove(h);
    }

    // ------------------------------------------------- flushing and eviction

    /** flushPage(pid). */
    method FlushPage(pid: PageId) returns (r: Outcome)
      requires Stored(State())
      modifies this`nodes, this`disk
      ensures (State(), r) == Flush(old(State()), pid)
    {
      if pid !in pageStore {
        return Fail(NullPointer);
      }
      var h := pageStore[pid];
      var page := nodes[h].page;
      if page.dirtier.Some? {
        disk := disk[page.id := page.bytes];
        nodes := nodes[h := nodes[h].(page := MarkDirty(page, false, TransactionId(0)))];
      }
      return Done;
    }

    /** evictPage(). On an empty list removeTail unlinks the head sentinel,
        whose prev is null: a NullPointerException. */
    method EvictPage() returns (r: Outcome)
      requires Stored(State())
      modifies this`nodes, this`disk, this`order, this`pageStore
      ensures (State(), r) == Evict(old(State()))
    {
      if order == [] {
        return Fail(NullPointer);
      }
      ghost var c := State();
      var h := RemoveTail();
      assert State() == c.(order := c.order[..|c.order| - 1]);
      DropLast(c.order);
      var victim := nodes[h].pageId;
      r := FlushPage(victim);
      if r.Fail? {
        return;
      }
      pageStore := pageStore - {victim};
    }

    /** flushAllPages(): flushes every resident page, in any order. */
    method FlushAllPages()
      requires Stored(State())
      modifies this`nodes, this`disk
      ensures Stored(State()) && order == old(order) && pageStore == old(pageStore)
      ensures Resident(State()) == CleanedOn(old(Resident(State())), old(pageStore).Keys)
      ensures disk == WrittenOn(old(disk), old(Resident(State())), old(pageStore).Keys)
      ensures forall p :: p in Resident(State()) ==> Resident(State())[p].dirtier.None?
    {
      ghost var res, disk0 := Resident(State()), disk;
      ghost var done: set<PageId> := {};
      var keys := pageStore.Keys;
      FlushedNone(res, disk0);
      while keys != {}
        invariant FlushedUpTo(State(), res, disk0, done) && order == old(order) && pageStore == old(pageStore)
        invariant keys !! done && keys + done == pageStore.Keys
        decreases keys
      {
        var pid :| pid in keys;
        FlushNext(pid, res, disk0, done);
        done := done + {pid};
        keys := keys - {pid};
      }
      assert done == pageStore.Keys;
      CleanedAll(res);
    }

    /** One iteration of flushAllPages' loop. */
    method FlushNext(pid: PageId, ghost res: map<PageId, Page>, ghost disk0: map<PageId, seq<bv8>>, ghost done: set<PageId>)
      requires FlushedUpTo(State(), res, disk0, done) && pid in pageStore && pid !in done
      modifies this`nodes, this`disk
      ensures FlushedUpTo(State(), res, disk0, done + {pid}) && order == old(order) && pageStore == old(pageStore)
    {
      FlushStep(State(), pid, res, disk0, done);
      var _ := FlushPage(pid);
    }

    // ------------------------------------------------- getPage

    /** getPage(tid, pid, perm): one lock probe; a refused lock is a
        TransactionAbortedException that changes nothing, a granted one is
        recorded and the page is fetched through the cache. */
    method GetPage(tid: TransactionId, pid: PageId, perm: Permissions) returns (r: Result<Page>)
      requires Valid()
      modifies this, manager
      ensures Valid()
      ensures var granted := Compatible(HoldersOf(old(manager.locks), pid), tid, LockFor(perm));
        && (granted ==> (State(), r) == Install(old(State()), pid, numPages))
        && (granted ==> Mode(manager.locks, pid, tid) == Some(Granted(Mode(old(manager.locks), pid, tid), LockFor(perm))))
        && (!granted ==> r == Err(TransactionAborted) && State() == old(State()) && manager.locks == old(manager.locks))
      ensures forall p, t :: (p, t) != (pid, tid) ==> Mode(manager.locks, p, t) == Mode(old(manager.locks), p, t)
    {
      var granted := manager.AcquireLock(pid, tid, LockFor(perm));
      if !granted {
        return Err(TransactionAborted);
      }
      r := Fetch(pid);
    }

    /** The body of getPage once its lock is held. */
    method Fetch(pid: PageId) returns (r: Result<Page>)
      requires Linked(State())
      modifies this`nodes, this`disk, this`order, this`pageStore
      ensures (State(), r) == Install(old(State()), pid, numPages)
    {
      ghost var c := State();
      if pid !in pageStore {
        if pid !in disk {
          return Err(IllegalArgument);
        }
        var page := Page(pid, disk[pid], None);
        EvictLinked(c);
        if |pageStore| >= numPages {
          var e := EvictPage();
          if e.Fail? {
            return Err(e.error);
          }
        }
        AddNodeLinked(State(), pid, page);
        InstallNode(pid, page);
        return Ok(page);
      }
      var h := pageStore[pid];
      MoveToHead(h);
      return Ok(nodes[h].page);
    }

    /** The new LinkNode of a missed page goes into the map and onto the
        list: addToHead, then getPage's moveToHead, which finds it first
        already. */
    method InstallNode(pid: PageId, page: Page)
      requires Distinct(order) && forall x :: x in order ==> x < |nodes|
      modifies this`nodes, this`order, this`pageStore
      ensures State() == AddNode(old(State()), pid, page)
    {
      var h := |nodes|;
      nodes := nodes + [LinkNode(pid, page)];
      pageStore := pageStore[pid := h];
      assert h !in order;
      ConsDistinct(h, order);
      AddToHead(h);
      WithoutPrepended(old(order), h);
      MoveToHead(h);
    }

    // ------------------------------------------------- updates and removal

    /** updateBufferPool(pages, tid). */
    method UpdateBufferPool(pages: seq<Page>, tid: TransactionId) returns (r: Outcome)
      requires Linked(State())
      modifies this`nodes, this`disk, this`order, this`pageStore
      ensures (State(), r) == UpdatePages(old(State()), pages, tid, numPages)
    {
      var i := 0;
      while i < |pages|
        invariant 0 <= i <= |pages|
        invariant Linked(State())
        invariant UpdatePages(State(), pages[i..], tid, numPages) == UpdatePages(old(State()), pages, tid, numPages)
      {
        assert pages[i..][0] == pages[i] && pages[i..][1..] == pages[i + 1..];
        r := UpdateStep(pages[i], tid);
        if r.Fail? {
          return;
        }
        i := i + 1;
      }
      return Done;
    }

    /** One iteration of updateBufferPool's loop. */
    method UpdateStep(page: Page, tid: TransactionId) returns (r: Outcome)
      requires Linked(State())
      modifies this`nodes, this`disk, this`order, this`pageStore
      ensures (State(), r) == UpdateOne(old(State()), page, tid, numPages)
    {
      ghost var c := State();
      var p := MarkDirty(page, true, tid);
      EvictLinked(c);
      if |pageStore| > numPages {
        r := EvictPage();
        if r.Fail? {
          return;
        }
      }
      if p.id !in pageStore {
        return Fail(NullPointer);
      }
      var h := pageStore[p.id];
      nodes := nodes[h := nodes[h].(page := p)];
      return Done;
    }

    /** removePage(pid), with the node unlinked as well as the map entry
        (see PageCache.RemovePage and PageCache.RemovePageAsWritten). */
    method RemovePage(pid: PageId)
      requires Linked(State())
      modifies this`order, this`pageStore
      ensures State() == PageCache.RemovePage(old(State()), pid)
    {
      if pid in pageStore {
        Remove(pageStore[pid]);
        pageStore := pageStore - {pid};
      }
    }

    /** removePage(pid) as written: `pageStore.remove(pid)` only, leaving the
        node on the recency list (see PageCache.StaleNodeCounterexample). */
    method RemovePageAsWritten(pid: PageId)
      requires Linked(State())
      modifies this`pageStore
      ensures State() == PageCache.RemovePageAsWritten(old(State()), pid)
    {
      pageStore := pageStore - {pid};
    }

    // ------------------------------------------------- locks

    /** holdsLock(tid, p). */
    function HoldsLock(tid: TransactionId, p: PageId): (b: bool)
      reads manager
      ensures b <==> Mode(manager.locks, p, tid).Some?
    {
      manager.IsHoldLock(tid, p)
    }

    /** unsafeReleasePage(tid, pid): drops `tid`'s lock on `pid` only. */
    method UnsafeReleasePage(tid: TransactionId, pid: PageId)
      requires Valid()
      modifies manager
      ensures Valid()
      ensures Mode(manager.locks, pid, tid) == None
      ensures forall p, t :: (p, t) != (pid, tid) ==> Mode(manager.locks, p, t) == Mode(old(manager.locks), p, t)
    {
      manager.ReleaseLock(tid, pid);
    }

    /** transactionComplete(tid): releases every lock of `tid`. */
    method TransactionComplete(tid: TransactionId)
      requires Valid()
      modifies manager
      ensures Valid()
      ensures forall p :: Mode(manager.locks, p, tid) == None
      ensures forall p, t :: t != tid ==> Mode(manager.locks, p, t) == Mode(old(manager.locks), p, t)
    {
      manager.CompleteTransaction(tid);
    }
  }

  /** The cache once the pages of `done` are flushed, starting from the
      resident pages `res` and the disk `disk0`. */
  ghost predicate FlushedUpTo(c: Cache, res: map<PageId, Page>, disk0: map<PageId, seq<bv8>>, done: set<PageId>)
  {
    Stored(c) && res.Keys == c.pageStore.Keys && Resident(c) == CleanedOn(res, done) && c.disk == WrittenOn(disk0, res, done)
  }

  /** Before any flush, nothing has changed. */
  lemma FlushedNone(res: map<PageId, Page>, disk: map<PageId, seq<bv8>>)
    ensures CleanedOn(res, {}) == res && WrittenOn(disk, res, {}) == disk
  {
    assert DirtyIn(res, {}) == {};
  }

  /** Unlinking a node just put at the head gives back the old list. */
  lemma WithoutPrepended(s: seq<nat>, h: nat)
    requires h !in s
    ensures Without([h] + s, h) == s
  {
    assert ([h] + s)[1..] == s;
    WithoutAbsent(s, h);
  }
}
