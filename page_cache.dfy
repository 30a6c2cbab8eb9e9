/** The page cache of simpledb.storage.BufferPool, as a value.

    The Java class keeps a map from page id to LinkNode and threads the same
    nodes on a doubly-linked recency list between two sentinels. Here the
    nodes live in an arena `nodes`, addressed by index (a handle); the list
    between the sentinels is `order`, most recently used first; `pageStore`
    maps a page id to the handle of its node. A node outlives its map entry
    when removePage drops only the entry, as in the source. The catalog's
    files are the map `disk` from page id to byte image: a page id without
    an image is one readPage rejects.

    Each operation of the cache is a function from the old cache to the new
    cache and the operation's outcome; BufferPool (buffer_pool.dfy) runs the
    same steps in place and is proved to agree with these functions. */
module PageCache {
  import opened Types

  /** A LinkNode: the page id it was created for and the page it holds. */
  datatype LinkNode = LinkNode(pageId: PageId, page: Page)

  datatype Cache = Cache(
    nodes: seq<LinkNode>,
    order: seq<nat>,
    pageStore: map<PageId, nat>,
    disk: map<PageId, seq<bv8>>)

  // ------------------------------------------------------------ the list

  predicate Distinct(s: seq<nat>)
  {
    forall i, j :: 0 <= i < j < |s| ==> s[i] != s[j]
  }

  /** `s` with every occurrence of `h` taken out, the rest in order. */
  function Without(s: seq<nat>, h: nat): (r: seq<nat>)
    ensures forall x :: x in r <==> x in s && x != h
    ensures |r| <= |s|
  {
    if s == [] then [] else (if s[0] == h then [] else [s[0]]) + Without(s[1..], h)
  }

  lemma {:induction false} WithoutAbsent(s: seq<nat>, h: nat)
    requires h !in s
    ensures Without(s, h) == s
  {
    if s != [] {
      WithoutAbsent(s[1..], h);
    }
  }

  /** Unlinking the node at position i of a duplicate-free list closes the
      gap and keeps the list duplicate-free. */
  lemma {:induction false} WithoutAt(s: seq<nat>, i: nat)
    requires Distinct(s) && i < |s|
    ensures Without(s, s[i]) == s[..i] + s[i + 1..]
    ensures Distinct(Without(s, s[i])) && |Without(s, s[i])| == |s| - 1
  {
    if i == 0 {
      WithoutAbsent(s[1..], s[0]);
    } else {
      assert Distinct(s[1..]);
      WithoutAt(s[1..], i - 1);
      assert s[1..][i - 1] == s[i];
      assert s[1..][..i - 1] == s[1..i];
      assert s[1..][i..] == s[i + 1..];
    }
    var r := s[..i] + s[i + 1..];
    forall a, b | 0 <= a < b < |r| ensures r[a] != r[b] {
      var a' := if a < i then a else a + 1;
      var b' := if b < i then b else b + 1;
      assert r[a] == s[a'] && r[b] == s[b'];
    }
  }

  lemma WithoutIn(s: seq<nat>, h: nat)
    requires Distinct(s) && h in s
    ensures Distinct(Without(s, h)) && |Without(s, h)| == |s| - 1
  {
    var i :| 0 <= i < |s| && s[i] == h;
    WithoutAt(s, i);
  }

  // ------------------------------------------------------------ invariants

  /** The recency list is duplicate-free and names allocated nodes. */
  ghost predicate ListValid(c: Cache)
  {
    Distinct(c.order) &&
    (forall i :: 0 <= i < |c.order| ==> c.order[i] < |c.nodes|) &&
    (forall h :: h in c.order ==> h < |c.nodes|)
  }

  /** Every node holds a page of its own id, and every map entry names a
      node created for that id. */
  ghost predicate Stored(c: Cache)
  {
    ListValid(c) &&
    (forall k :: 0 <= k < |c.nodes| ==> c.nodes[k].page.id == c.nodes[k].pageId) &&
    (forall p :: p in c.pageStore ==> c.pageStore[p] < |c.nodes| && c.nodes[c.pageStore[p]].pageId == p)
  }

  /** What every reachable state satisfies: Stored, and every map entry's
      node is on the list. */
  ghost predicate Linked(c: Cache)
  {
    Stored(c) && forall p :: p in c.pageStore ==> c.pageStore[p] in c.order
  }

  /** The property the cache is designed to keep and which removePage
      breaks: every node on the list is the live map entry of its page, so
      list and map correspond one to one. */
  ghost predicate Consistent(c: Cache)
    requires ListValid(c)
  {
    forall h :: h in c.order ==>
      c.nodes[h].pageId in c.pageStore && c.pageStore[c.nodes[h].pageId] == h
  }

  /** The resident pages. */
  ghost function Resident(c: Cache): (r: map<PageId, Page>)
    ensures Stored(c) ==> r.Keys == c.pageStore.Keys
  {
    Pages(c.nodes, c.pageStore)
  }

  /** The pages the map's entries name (every entry does, in a stored cache). */
  ghost function Pages(nodes: seq<LinkNode>, ps: map<PageId, nat>): map<PageId, Page>
  {
    map p | p in ps && ps[p] < |nodes| :: nodes[ps[p]].page
  }

  /** evictPage fails with a NullPointerException: the list is empty
      (removeTail unlinks the head sentinel, whose prev is null) or the tail
      node's page has no map entry (flushPage dereferences a missing node). */
  ghost predicate EvictFails(c: Cache)
    requires ListValid(c)
  {
    c.order == [] || c.nodes[c.order[|c.order| - 1]].pageId !in c.pageStore
  }

  function Clean(p: Page): Page
  {
    MarkDirty(p, false, TransactionId(0))
  }

  // ------------------------------------------------------------ operations

  /** flushPage(pid): a dirty resident page is written and marked clean; a
      page without a map entry is a NullPointerException. */
  function Flush(c: Cache, pid: PageId): (r: (Cache, Outcome))
    requires Stored(c)
    ensures Stored(r.0) && r.0.order == c.order && r.0.pageStore == c.pageStore
    ensures |r.0.nodes| == |c.nodes| && forall k :: 0 <= k < |c.nodes| ==> r.0.nodes[k].pageId == c.nodes[k].pageId
    ensures r.1 == (if pid in c.pageStore then Done else Fail(NullPointer))
    ensures pid !in c.pageStore ==> r.0 == c
  {
    if pid !in c.pageStore then (c, Fail(NullPointer))
    else
      var h := c.pageStore[pid];
      var page := c.nodes[h].page;
      if page.dirtier.Some? then
        (c.(nodes := c.nodes[h := c.nodes[h].(page := Clean(page))], disk := c.disk[page.id := page.bytes]), Done)
      else (c, Done)
  }

  /** After a flush the page is clean, its bytes are on disk when it was
      dirty, and no other page or image changes. */
  lemma FlushSpec(c: Cache, pid: PageId)
    requires Stored(c) && pid in c.pageStore
    ensures var r := Flush(c, pid);
      && Resident(r.0) == Resident(c)[pid := Clean(Resident(c)[pid])]
      && (Resident(c)[pid].dirtier.Some? ==> r.0.disk == c.disk[pid := Resident(c)[pid].bytes])
      && (Resident(c)[pid].dirtier.None? ==> r.0 == c)
  {
    var r := Flush(c, pid);
    var h := c.pageStore[pid];
    forall p | p in c.pageStore && p != pid ensures c.pageStore[p] != h {
      assert c.nodes[c.pageStore[p]].pageId == p;
    }
    if Resident(c)[pid].dirtier.None? {
      assert Clean(Resident(c)[pid]) == Resident(c)[pid];
    }
  }

  /** The resident pages `res` once the pages of `done` are flushed: those
      are clean, the others as they were. */
  ghost function CleanedOn(res: map<PageId, Page>, done: set<PageId>): map<PageId, Page>
  {
    map p | p in res :: if p in done then Clean(res[p]) else res[p]
  }

  /** The pages of `done` that are dirty in `res`. */
  ghost function DirtyIn(res: map<PageId, Page>, done: set<PageId>): set<PageId>
  {
    set p | p in res && p in done && res[p].dirtier.Some?
  }

  /** The disk once the pages of `done` are flushed: every dirty one's bytes
      are written, every other image is as it was. */
  ghost function WrittenOn(disk: map<PageId, seq<bv8>>, res: map<PageId, Page>, done: set<PageId>): map<PageId, seq<bv8>>
  {
    map p | p in disk.Keys + DirtyIn(res, done) :: if p in DirtyIn(res, done) then res[p].bytes else disk[p]
  }

  /** Flushing one more page of the resident pages `res` extends `done` by
      it: flushes of distinct pages touch distinct nodes and images, so the
      order of flushAllPages' iteration does not matter. */
  lemma FlushStep(c: Cache, pid: PageId, res: map<PageId, Page>, disk0: map<PageId, seq<bv8>>, done: set<PageId>)
    requires Stored(c) && pid in c.pageStore && pid !in done && res.Keys == c.pageStore.Keys
    requires Resident(c) == CleanedOn(res, done) && c.disk == WrittenOn(disk0, res, done)
    ensures var r := Flush(c, pid).0;
      Resident(r) == CleanedOn(res, done + {pid}) && r.disk == WrittenOn(disk0, res, done + {pid})
  {
    FlushSpec(c, pid);
    assert Resident(c)[pid] == res[pid];
    CleanedStep(res, done, pid);
    WrittenStep(disk0, res, done, pid);
  }

  lemma CleanedStep(res: map<PageId, Page>, done: set<PageId>, pid: PageId)
    requires pid in res && pid !in done
    ensures CleanedOn(res, done)[pid := Clean(res[pid])] == CleanedOn(res, done + {pid})
  {
    var a, b := CleanedOn(res, done)[pid := Clean(res[pid])], CleanedOn(res, done + {pid});
    forall q | q in a ensures q in b && a[q] == b[q] {
    }
    assert a.Keys == b.Keys;
  }

  lemma WrittenStep(disk0: map<PageId, seq<bv8>>, res: map<PageId, Page>, done: set<PageId>, pid: PageId)
    requires pid in res && pid !in done
    ensures var d := WrittenOn(disk0, res, done);
      (if res[pid].dirtier.Some? then d[pid := res[pid].bytes] else d) == WrittenOn(disk0, res, done + {pid})
  {
    var d := WrittenOn(disk0, res, done);
    var a, b := (if res[pid].dirtier.Some? then d[pid := res[pid].bytes] else d), WrittenOn(disk0, res, done + {pid});
    assert DirtyIn(res, done + {pid}) == DirtyIn(res, done) + (if res[pid].dirtier.Some? then {pid} else {});
    forall q | q in a ensures q in b && a[q] == b[q] {
    }
    assert a.Keys == b.Keys;
  }

  /** With every resident page flushed, none is dirty. */
  lemma CleanedAll(res: map<PageId, Page>)
    ensures var r := CleanedOn(res, res.Keys);
      r.Keys == res.Keys && forall p :: p in r ==> r[p].dirtier.None? && r[p].bytes == res[p].bytes
  {
  }

  /** evictPage(): unlinks the least recently used node, flushes its page
      (dirty or not) and drops its map entry. The IOException the source
      catches cannot occur: writes to `disk` do not fail. */
  function Evict(c: Cache): (r: (Cache, Outcome))
    requires Stored(c)
    ensures Stored(r.0)
  {
    if c.order == [] then (c, Fail(NullPointer))
    else
      var tail := c.order[|c.order| - 1];
      var c1 := c.(order := c.order[..|c.order| - 1]);
      assert ListValid(c1);
      var victim := c.nodes[tail].pageId;
      var f := Flush(c1, victim);
      if f.1.Fail? then f
      else (f.0.(pageStore := f.0.pageStore - {victim}), Done)
  }

  /** Unlinking the last entry of a duplicate-free list. */
  lemma DropLast(s: seq<nat>)
    requires Distinct(s) && s != []
    ensures var t := s[..|s| - 1];
      Distinct(t) && forall x :: x in t <==> x in s && x != s[|s| - 1]
  {
    var t := s[..|s| - 1];
    forall x | x in s && x != s[|s| - 1] ensures x in t {
      var j :| 0 <= j < |s| && s[j] == x;
      assert t[j] == x;
    }
  }

  /** Eviction keeps the cache linked and unlinks the tail node whether or
      not the flush succeeds; it only ever removes map entries. */
  lemma EvictLinked(c: Cache)
    requires Linked(c)
    ensures var r := Evict(c);
      && Linked(r.0)
      && r.0.pageStore.Keys <= c.pageStore.Keys
      && (c.order == [] ==> r.0 == c)
      && (c.order != [] ==> r.0.order == c.order[..|c.order| - 1])
  {
    var r := Evict(c);
    if c.order != [] {
      var tail := c.order[|c.order| - 1];
      var victim := c.nodes[tail].pageId;
      DropLast(c.order);
      forall p | p in r.0.pageStore ensures r.0.pageStore[p] in r.0.order {
        assert p != victim;
        assert c.nodes[c.pageStore[p]].pageId == p;
        assert c.pageStore[p] in c.order;
      }
    }
  }

  /** Eviction fails exactly as EvictFails says, with a NullPointerException
      and no change but the unlinked tail. */
  lemma EvictOutcome(c: Cache)
    requires Linked(c)
    ensures var r := Evict(c);
      && (r.1.Fail? <==> EvictFails(c))
      && (r.1.Fail? ==> r.1.error == NullPointer && r.0.nodes == c.nodes && r.0.pageStore == c.pageStore && r.0.disk == c.disk)
  {
  }

  /** On a consistent cache eviction fails only when the list is empty, and
      the result is consistent. */
  lemma EvictConsistent(c: Cache)
    requires Linked(c)
    ensures Consistent(c) ==> ListValid(Evict(c).0) && Consistent(Evict(c).0)
    ensures Consistent(c) && c.order != [] ==> Evict(c).1.Done?
  {
    var r := Evict(c);
    if Consistent(c) && c.order != [] {
      var tail := c.order[|c.order| - 1];
      var victim := c.nodes[tail].pageId;
      DropLast(c.order);
      assert c.pageStore[victim] == tail;
      forall x | x in r.0.order
        ensures r.0.nodes[x].pageId in r.0.pageStore && r.0.pageStore[r.0.nodes[x].pageId] == x
      {
        assert x in c.order && x != tail;
      }
    }
  }

  /** A successful eviction removes exactly the least recently used page and
      loses no data: the page's bytes are on disk if it was dirty. */
  lemma EvictDone(c: Cache)
    requires Linked(c) && Evict(c).1.Done?
    ensures c.order != []
    ensures var victim := c.nodes[c.order[|c.order| - 1]].pageId;
      var r := Evict(c).0;
      && victim in c.pageStore
      && Resident(r) == Resident(c) - {victim}
      && |r.pageStore| == |c.pageStore| - 1
  {
    EvictDoneShape(c);
    var victim := c.nodes[c.order[|c.order| - 1]].pageId;
    var r := Evict(c).0;
    assert r.pageStore.Keys == c.pageStore.Keys - {victim};
    EvictDoneResident(c, victim, r);
  }

  /** ... and loses no data: the victim's bytes are on disk if it was dirty,
      and no other image changes. */
  lemma EvictWritesBack(c: Cache)
    requires Linked(c) && Evict(c).1.Done?
    ensures c.order != []
    ensures var victim := c.nodes[c.order[|c.order| - 1]].pageId;
      var r := Evict(c).0;
      && victim in Resident(c)
      && (Resident(c)[victim].dirtier.Some? ==> r.disk == c.disk[victim := Resident(c)[victim].bytes])
      && (Resident(c)[victim].dirtier.None? ==> r.disk == c.disk)
  {
    EvictDoneShape(c);
  }

  /** A successful eviction as one cache value. */
  lemma EvictDoneShape(c: Cache)
    requires Linked(c) && Evict(c).1.Done?
    ensures c.order != []
    ensures var victim := c.nodes[c.order[|c.order| - 1]].pageId;
      && victim in c.pageStore
      && var hv := c.pageStore[victim];
      var page := c.nodes[hv].page;
      Evict(c).0 == Cache(
        if page.dirtier.Some? then c.nodes[hv := c.nodes[hv].(page := Clean(page))] else c.nodes,
        c.order[..|c.order| - 1],
        c.pageStore - {victim},
        if page.dirtier.Some? then c.disk[victim := page.bytes] else c.disk)
  {
    DropLast(c.order);
  }

  lemma EvictDoneResident(c: Cache, victim: PageId, r: Cache)
    requires Stored(c) && victim in c.pageStore && r.pageStore == c.pageStore - {victim}
    requires var hv := c.pageStore[victim];
      |r.nodes| == |c.nodes| && forall k :: 0 <= k < |c.nodes| && k != hv ==> r.nodes[k] == c.nodes[k]
    ensures Resident(r) == Resident(c) - {victim}
  {
    var a, b := Resident(r), Resident(c) - {victim};
    forall q | q in a ensures q in b && a[q] == b[q] {
      assert c.nodes[c.pageStore[q]].pageId == q;
    }
    forall q | q in b ensures q in a {
    }
  }

  lemma ConsDistinct(h: nat, s: seq<nat>)
    requires Distinct(s) && h !in s
    ensures Distinct([h] + s)
  {
    var r := [h] + s;
    forall a, b | 0 <= a < b < |r| ensures r[a] != r[b] {
      assert r[b] == s[b - 1];
      if a > 0 {
        assert r[a] == s[a - 1];
      }
    }
  }

  /** moveToHead(node) on a linked node: it becomes first, the others keep
      their order, and the list holds the same nodes. */
  function MoveToFront(c: Cache, h: nat): (r: Cache)
    requires Linked(c) && h in c.order
    ensures Linked(r) && r.order != [] && r.order[0] == h
    ensures r.nodes == c.nodes && r.pageStore == c.pageStore && r.disk == c.disk
    ensures multiset(r.order) == multiset(c.order)
    ensures Consistent(c) ==> Consistent(r)
  {
    MoveToFrontSpec(c, h);
    c.(order := [h] + Without(c.order, h))
  }

  lemma MoveToFrontSpec(c: Cache, h: nat)
    requires Linked(c) && h in c.order
    ensures var r := c.(order := [h] + Without(c.order, h));
      Linked(r) && multiset(r.order) == multiset(c.order) && (Consistent(c) ==> Consistent(r))
  {
    var i :| 0 <= i < |c.order| && c.order[i] == h;
    MovedToFront(c.order, i);
    Reordered(c, [h] + Without(c.order, h));
  }

  /** Relisting the same handles in another order keeps the invariants. */
  lemma Reordered(c: Cache, o: seq<nat>)
    requires Linked(c) && Distinct(o) && forall x :: x in o <==> x in c.order
    ensures Linked(c.(order := o)) && (Consistent(c) ==> Consistent(c.(order := o)))
  {
    var r := c.(order := o);
    forall k | 0 <= k < |o| ensures o[k] < |c.nodes| {
      assert o[k] in c.order;
    }
    assert ListValid(r);
  }

  /** Moving the entry at position i of a duplicate-free list to the front
      keeps it duplicate-free, with the same entries. */
  lemma MovedToFront(s: seq<nat>, i: nat)
    requires Distinct(s) && i < |s|
    ensures var r := [s[i]] + Without(s, s[i]);
      Distinct(r) && multiset(r) == multiset(s) && forall x :: x in r <==> x in s
  {
    WithoutAt(s, i);
    FrontMultiset(s, i);
    ConsDistinct(s[i], s[..i] + s[i + 1..]);
  }

  lemma FrontMultiset(s: seq<nat>, i: nat)
    requires i < |s|
    ensures var r := [s[i]] + (s[..i] + s[i + 1..]);
      multiset(r) == multiset(s) && forall x :: x in r <==> x in s
  {
    var r := [s[i]] + (s[..i] + s[i + 1..]);
    assert s == s[..i] + [s[i]] + s[i + 1..];
    assert multiset(r) == multiset(s);
    forall x ensures x in r <==> x in s {
      assert x in r <==> x in multiset(r);
      assert x in s <==> x in multiset(s);
    }
  }

  /** The new LinkNode of a missed page: put in the map under a fresh
      handle and at the head of the list. */
  function AddNode(c: Cache, pid: PageId, page: Page): Cache
  {
    var h := |c.nodes|;
    Cache(c.nodes + [LinkNode(pid, page)], [h] + c.order, c.pageStore[pid := h], c.disk)
  }

  /** Adding the node of a page that is not resident keeps the cache
      linked, makes the page resident at the head and grows the map by one. */
  lemma AddNodeLinked(c: Cache, pid: PageId, page: Page)
    requires Linked(c) && pid !in c.pageStore && page.id == pid
    ensures var r := AddNode(c, pid, page);
      && Linked(r)
      && pid in r.pageStore && r.order != [] && r.order[0] == r.pageStore[pid] && r.disk == c.disk
      && |r.pageStore| == |c.pageStore| + 1
  {
    var h := |c.nodes|;
    var r := AddNode(c, pid, page);
    assert h !in c.order;
    ConsDistinct(h, c.order);
    forall k | 0 <= k < |r.nodes| ensures r.nodes[k].page.id == r.nodes[k].pageId {
      if k < h {
        assert r.nodes[k] == c.nodes[k];
      }
    }
    forall p | p in r.pageStore ensures r.pageStore[p] < |r.nodes| && r.nodes[r.pageStore[p]].pageId == p {
      if p != pid {
        assert r.nodes[c.pageStore[p]] == c.nodes[c.pageStore[p]];
      }
    }
  }

  lemma AddNodeConsistent(c: Cache, pid: PageId, page: Page)
    requires Linked(c) && pid !in c.pageStore && page.id == pid
    ensures ListValid(AddNode(c, pid, page))
    ensures Consistent(c) ==> Consistent(AddNode(c, pid, page))
  {
    AddNodeLinked(c, pid, page);
    var h := |c.nodes|;
    var r := AddNode(c, pid, page);
    if Consistent(c) {
      forall x | x in r.order
        ensures r.nodes[x].pageId in r.pageStore && r.pageStore[r.nodes[x].pageId] == x
      {
        if x != h {
          assert x in c.order;
          assert r.nodes[x] == c.nodes[x];
        }
      }
    }
  }

  /** The resident pages gain exactly the new one. */
  lemma AddNodeResident(c: Cache, pid: PageId, page: Page)
    requires Linked(c) && pid !in c.pageStore && page.id == pid
    ensures Resident(AddNode(c, pid, page)) == Resident(c)[pid := page]
  {
    PagesAdd(c.nodes, c.pageStore, LinkNode(pid, page));
  }

  lemma PagesAdd(nodes: seq<LinkNode>, ps: map<PageId, nat>, n: LinkNode)
    requires n.pageId !in ps && forall q :: q in ps ==> ps[q] < |nodes|
    ensures Pages(nodes + [n], ps[n.pageId := |nodes|]) == Pages(nodes, ps)[n.pageId := n.page]
  {
    var a, b := Pages(nodes + [n], ps[n.pageId := |nodes|]), Pages(nodes, ps)[n.pageId := n.page];
    forall q | q in a ensures q in b && a[q] == b[q] {
      if q != n.pageId {
        assert (nodes + [n])[ps[q]] == nodes[ps[q]];
      }
    }
    assert a.Keys == b.Keys;
  }

  /** getPage(tid, pid, perm) once the lock is granted: a hit moves the node
      to the head; a miss reads the page (IllegalArgumentException when the
      file has no such page), evicts first when the cache holds numPages or
      more pages, and installs a clean node at the head. The source adds the
      new node to the head and then moves it there, which leaves the list as
      it is. */
  function Install(c: Cache, pid: PageId, numPages: int): (r: (Cache, Result<Page>))
    requires Linked(c)
    ensures Linked(r.0) && (Consistent(c) ==> Consistent(r.0))
  {
    if pid in c.pageStore then
      (MoveToFront(c, c.pageStore[pid]), Ok(c.nodes[c.pageStore[pid]].page))
    else if pid !in c.disk then (c, Err(IllegalArgument))
    else
      var page := Page(pid, c.disk[pid], None);
      EvictLinked(c);
      EvictConsistent(c);
      var e := if |c.pageStore| >= numPages then Evict(c) else (c, Done);
      if e.1.Fail? then (e.0, Err(e.1.error))
      else
        AddNodeLinked(e.0, pid, page);
        AddNodeConsistent(e.0, pid, page);
        (AddNode(e.0, pid, page), Ok(page))
  }

  /** A cache within its capacity stays within it. */
  lemma InstallWithinCapacity(c: Cache, pid: PageId, numPages: int)
    requires Linked(c) && |c.pageStore| <= numPages
    ensures var r := Install(c, pid, numPages);
      r.1.Ok? ==> |r.0.pageStore| <= numPages
  {
    if pid !in c.pageStore && pid in c.disk {
      var page := Page(pid, c.disk[pid], None);
      if |c.pageStore| < numPages {
        AddNodeLinked(c, pid, page);
      } else if Evict(c).1.Done? {
        var e := Evict(c).0;
        EvictDone(c);
        EvictLinked(c);
        AddNodeLinked(e, pid, page);
        assert Install(c, pid, numPages) == (AddNode(e, pid, page), Ok(page));
      }
    }
  }

  /** A hit returns the cached page and changes only the recency order; a
      returned page is resident and its node is first on the list. */
  lemma InstallHit(c: Cache, pid: PageId, numPages: int)
    requires Linked(c) && pid in c.pageStore
    ensures var r := Install(c, pid, numPages);
      && r.1 == Ok(Resident(c)[pid])
      && r.0.nodes == c.nodes && r.0.pageStore == c.pageStore && r.0.disk == c.disk
      && r.0.order[0] == c.pageStore[pid]
      && multiset(r.0.order) == multiset(c.order)
  {
  }

  /** A miss fails exactly when the file has no such page or a needed
      eviction fails; otherwise it returns the disk image as a clean page of
      that id, resident at the head of the list. */
  lemma InstallMiss(c: Cache, pid: PageId, numPages: int)
    requires Linked(c) && pid !in c.pageStore
    ensures var r := Install(c, pid, numPages);
      && (pid !in c.disk ==> r == (c, Err(IllegalArgument)))
      && (pid in c.disk ==> (r.1.Ok? <==> |c.pageStore| < numPages || !EvictFails(c)))
      && (pid in c.disk && r.1.Err? ==> r.1.error == NullPointer)
      && (r.1.Ok? ==>
           && r.1.value == Page(pid, c.disk[pid], None)
           && pid in r.0.pageStore && r.0.order != [] && r.0.order[0] == r.0.pageStore[pid])
  {
    if pid in c.disk {
      EvictLinked(c);
      EvictOutcome(c);
      var e := if |c.pageStore| >= numPages then Evict(c) else (c, Done);
      if e.1.Done? {
        AddNodeLinked(e.0, pid, Page(pid, c.disk[pid], None));
      }
    }
  }

  /** A miss that needs no eviction adds exactly the new page to the
      resident pages and touches no disk image. (With an eviction the
      resident pages lose the victim first: EvictDone, then AddNodeResident.) */
  lemma InstallMissResident(c: Cache, pid: PageId, numPages: int)
    requires Linked(c) && pid !in c.pageStore && |c.pageStore| < numPages
    ensures var r := Install(c, pid, numPages);
      r.1.Ok? ==> Resident(r.0) == Resident(c)[pid := r.1.value] && r.0.disk == c.disk
  {
    if pid in c.disk {
      AddNodeResident(c, pid, Page(pid, c.disk[pid], None));
    }
  }

  /** The node of resident page `p.id` holds `p` instead. */
  function Replace(c: Cache, p: Page): Cache
    requires Stored(c) && p.id in c.pageStore
  {
    var h := c.pageStore[p.id];
    c.(nodes := c.nodes[h := c.nodes[h].(page := p)])
  }

  /** Replacing a resident page keeps the invariants and changes that one
      resident page only. */
  lemma ReplaceSpec(c: Cache, p: Page)
    requires Linked(c) && p.id in c.pageStore
    ensures var r := Replace(c, p);
      && Linked(r) && (Consistent(c) ==> Consistent(r))
      && r.order == c.order && r.pageStore == c.pageStore && r.disk == c.disk && |r.nodes| == |c.nodes|
      && Resident(r) == Resident(c)[p.id := p]
  {
    var r := Replace(c, p);
    assert forall k :: 0 <= k < |c.nodes| ==> r.nodes[k].pageId == c.nodes[k].pageId;
    PagesReplace(c.nodes, c.pageStore, p);
  }

  lemma PagesReplace(nodes: seq<LinkNode>, ps: map<PageId, nat>, p: Page)
    requires p.id in ps
    requires forall q :: q in ps ==> ps[q] < |nodes| && nodes[ps[q]].pageId == q
    ensures var h := ps[p.id];
      Pages(nodes[h := nodes[h].(page := p)], ps) == Pages(nodes, ps)[p.id := p]
  {
    var h := ps[p.id];
    var a, b := Pages(nodes[h := nodes[h].(page := p)], ps), Pages(nodes, ps)[p.id := p];
    forall q | q in a ensures q in b && a[q] == b[q] {
      if q != p.id {
        assert nodes[ps[q]].pageId == q;
      }
    }
    assert a.Keys == b.Keys;
  }

  /** One step of updateBufferPool: the page is marked dirty by `tid`; the
      cache evicts when it holds more than numPages pages; then the page
      replaces the one in its node (a NullPointerException when the page is
      not resident). */
  function UpdateOne(c: Cache, page: Page, tid: TransactionId, numPages: int): (r: (Cache, Outcome))
    requires Linked(c)
    ensures Linked(r.0) && (Consistent(c) ==> Consistent(r.0))
  {
    var p := MarkDirty(page, true, tid);
    EvictLinked(c);
    EvictConsistent(c);
    var e := if |c.pageStore| > numPages then Evict(c) else (c, Done);
    if e.1.Fail? then e
    else if p.id !in e.0.pageStore then (e.0, Fail(NullPointer))
    else
      ReplaceSpec(e.0, p);
      (Replace(e.0, p), Done)
  }

  /** updateBufferPool(pages, tid): the steps in list order, stopping at the
      first exception; the invariants hold throughout. */
  function UpdatePages(c: Cache, pages: seq<Page>, tid: TransactionId, numPages: int): (r: (Cache, Outcome))
    requires Linked(c)
    ensures Linked(r.0) && (Consistent(c) ==> Consistent(r.0))
    decreases |pages|
  {
    if pages == [] then (c, Done)
    else
      var s := UpdateOne(c, pages[0], tid, numPages);
      if s.1.Fail? then s else UpdatePages(s.0, pages[1..], tid, numPages)
  }

  /** The resident pages with each of `pages` in turn put in its place,
      marked dirty by `tid`. */
  function Override(res: map<PageId, Page>, pages: seq<Page>, tid: TransactionId): map<PageId, Page>
    decreases |pages|
  {
    if pages == [] then res
    else Override(res[pages[0].id := MarkDirty(pages[0], true, tid)], pages[1..], tid)
  }

  /** On a cache within its capacity no eviction happens: the update
      succeeds exactly when every page is resident, and it changes neither
      the list, nor the map, nor the disk. */
  lemma {:induction false} UpdateWithinCapacity(c: Cache, pages: seq<Page>, tid: TransactionId, numPages: int)
    requires Linked(c) && |c.pageStore| <= numPages
    ensures var r := UpdatePages(c, pages, tid, numPages);
      && (r.1.Done? <==> AllResident(pages, c.pageStore))
      && (r.1.Fail? ==> r.1.error == NullPointer)
      && r.0.order == c.order && r.0.pageStore == c.pageStore && r.0.disk == c.disk
    decreases |pages|
  {
    if pages != [] {
      var p := MarkDirty(pages[0], true, tid);
      var s := UpdateOne(c, pages[0], tid, numPages);
      if p.id in c.pageStore {
        assert s == (Replace(c, p), Done);
        ReplaceSpec(c, p);
        UpdateWithinCapacity(s.0, pages[1..], tid, numPages);
        assert UpdatePages(c, pages, tid, numPages) == UpdatePages(s.0, pages[1..], tid, numPages);
        AllResidentStep(pages, c.pageStore);
      } else {
        assert s == (c, Fail(NullPointer));
      }
    }
  }

  /** Every page of `pages` has an entry in `ps`. */
  predicate AllResident(pages: seq<Page>, ps: map<PageId, nat>)
  {
    forall i :: 0 <= i < |pages| ==> pages[i].id in ps
  }

  lemma AllResidentStep(pages: seq<Page>, ps: map<PageId, nat>)
    requires pages != []
    ensures AllResident(pages, ps) <==> pages[0].id in ps && AllResident(pages[1..], ps)
  {
    assert forall i :: 1 <= i < |pages| ==> pages[i] == pages[1..][i - 1];
  }

  /** A successful update within capacity replaces the resident pages by
      the dirtied versions of `pages`, later ones overriding earlier ones. */
  lemma {:induction false} UpdateOverrides(c: Cache, pages: seq<Page>, tid: TransactionId, numPages: int)
    requires Linked(c) && |c.pageStore| <= numPages
    requires UpdatePages(c, pages, tid, numPages).1.Done?
    ensures Resident(UpdatePages(c, pages, tid, numPages).0) == Override(Resident(c), pages, tid)
    decreases |pages|
  {
    if pages != [] {
      var p := MarkDirty(pages[0], true, tid);
      ReplaceSpec(c, p);
      UpdateOverrides(Replace(c, p), pages[1..], tid, numPages);
    }
  }

  /** removePage(pid) as written: only the map entry goes; the node stays on
      the recency list. */
  function RemovePageAsWritten(c: Cache, pid: PageId): (r: Cache)
    requires Linked(c)
    ensures Linked(r) && pid !in r.pageStore && r.order == c.order
  {
    c.(pageStore := c.pageStore - {pid})
  }

  /** removePage as intended: the entry and its node both go. */
  function RemovePage(c: Cache, pid: PageId): (r: Cache)
    requires Linked(c)
    ensures Linked(r) && pid !in r.pageStore
  {
    if pid !in c.pageStore then c
    else
      UnlinkedLinked(c, pid);
      Unlinked(c, pid)
  }

  function Unlinked(c: Cache, pid: PageId): Cache
    requires pid in c.pageStore
  {
    c.(pageStore := c.pageStore - {pid}, order := Without(c.order, c.pageStore[pid]))
  }

  lemma UnlinkedLinked(c: Cache, pid: PageId)
    requires Linked(c) && pid in c.pageStore
    ensures Linked(Unlinked(c, pid))
    ensures |Unlinked(c, pid).order| == |c.order| - 1
  {
    var h := c.pageStore[pid];
    var r := Unlinked(c, pid);
    WithoutIn(c.order, h);
    forall k | 0 <= k < |r.order| ensures r.order[k] < |r.nodes| {
      assert r.order[k] in c.order;
    }
    forall p | p in r.pageStore ensures r.pageStore[p] in r.order {
      assert c.nodes[c.pageStore[p]].pageId == p;
      assert c.pageStore[p] in c.order && c.pageStore[p] != h;
    }
  }

  /** The corrected removePage keeps the list and the map in one-to-one
      correspondence and shortens the list along with the map. */
  lemma RemovePageConsistent(c: Cache, pid: PageId)
    requires Linked(c) && Consistent(c)
    ensures var r := RemovePage(c, pid);
      && Consistent(r)
      && (pid in c.pageStore ==> |r.order| == |c.order| - 1 && |r.pageStore| == |c.pageStore| - 1)
  {
    var r := RemovePage(c, pid);
    if pid in c.pageStore {
      UnlinkedLinked(c, pid);
      var h := c.pageStore[pid];
      forall x | x in r.order
        ensures r.nodes[x].pageId in r.pageStore && r.pageStore[r.nodes[x].pageId] == x
      {
        assert x in c.order && x != h;
      }
      assert r.pageStore.Keys == c.pageStore.Keys - {pid};
    }
  }

  /** The corrected removePage takes exactly `pid` out of the resident pages
      and writes nothing. */
  lemma RemovePageResident(c: Cache, pid: PageId)
    requires Linked(c)
    ensures Resident(RemovePage(c, pid)) == Resident(c) - {pid}
    ensures RemovePage(c, pid).disk == c.disk
  {
    var r := RemovePage(c, pid);
    if pid in c.pageStore {
      assert r.nodes == c.nodes && r.pageStore == c.pageStore - {pid};
      var a, b := Resident(r), Resident(c) - {pid};
      assert a.Keys == b.Keys;
      forall q | q in a ensures a[q] == b[q] {
        assert r.pageStore[q] == c.pageStore[q];
      }
    }
  }

  /** As written, removePage of a resident page leaves a consistent cache
      inconsistent: the page's node stays on the list without a map entry. */
  lemma RemovePageAsWrittenBreaksConsistency(c: Cache, pid: PageId)
    requires Linked(c) && Consistent(c) && pid in c.pageStore
    ensures !Consistent(RemovePageAsWritten(c, pid))
  {
    var r := RemovePageAsWritten(c, pid);
    var h := c.pageStore[pid];
    assert h in r.order && r.nodes[h].pageId == pid;
  }

  /** A BufferPool of one page: getPage(p0), removePage(p0), getPage(p1) and
      getPage(p2) end in a NullPointerException, because the eviction that
      the last call needs finds p0's stale node at the tail. */
  lemma StaleNodeCounterexample()
    ensures var p0, p1, p2 := PageId(1, 0), PageId(1, 1), PageId(1, 2);
      var c0 := Cache([], [], map[], map[p0 := [], p1 := [], p2 := []]);
      var c1 := Install(c0, p0, 1).0;
      var c2 := RemovePageAsWritten(c1, p0);
      var c3 := Install(c2, p1, 1).0;
      && Install(c0, p0, 1).1.Ok? && Install(c2, p1, 1).1.Ok?
      && Linked(c3) && Install(c3, p2, 1).1 == Err(NullPointer)
  {
    var p0, p1, p2 := PageId(1, 0), PageId(1, 1), PageId(1, 2);
    var disk := map[p0 := [], p1 := [], p2 := []];
    var n0, n1 := LinkNode(p0, Page(p0, [], None)), LinkNode(p1, Page(p1, [], None));
    var c0 := Cache([], [], map[], disk);
    FirstInstall(c0, p0);
    var c1 := Install(c0, p0, 1).0;
    assert c1 == Cache([n0], [0], map[p0 := 0], disk);
    var c2 := RemovePageAsWritten(c1, p0);
    assert c2 == Cache([n0], [0], map[], disk);
    StaleSecondInstall(c2, p1);
    var c3 := Install(c2, p1, 1).0;
    StaleThirdInstall(c3, p2);
  }

  /** getPage of a page on an empty one-page cache. */
  lemma FirstInstall(c: Cache, pid: PageId)
    requires c.nodes == [] && c.order == [] && c.pageStore == map[] && pid in c.disk
    ensures Install(c, pid, 1) ==
      (Cache([LinkNode(pid, Page(pid, c.disk[pid], None))], [0], map[pid := 0], c.disk), Ok(Page(pid, c.disk[pid], None)))
  {
    assert Linked(c);
    var page := Page(pid, c.disk[pid], None);
    assert c.nodes + [LinkNode(pid, page)] == [LinkNode(pid, page)] && [0] + c.order == [0];
    assert Install(c, pid, 1) == (AddNode(c, pid, page), Ok(page));
  }

  lemma StaleSecondInstall(c: Cache, pid: PageId)
    requires c.nodes == [LinkNode(PageId(1, 0), Page(PageId(1, 0), [], None))] && c.order == [0] && c.pageStore == map[]
    requires pid in c.disk && pid != PageId(1, 0)
    ensures Linked(c)
    ensures var page := Page(pid, c.disk[pid], None);
      Install(c, pid, 1) == (Cache(c.nodes + [LinkNode(pid, page)], [1, 0], map[pid := 1], c.disk), Ok(page))
  {
    assert Linked(c);
    var page := Page(pid, c.disk[pid], None);
    assert [1] + c.order == [1, 0];
    assert Install(c, pid, 1) == (AddNode(c, pid, page), Ok(page));
  }

  lemma StaleThirdInstall(c: Cache, pid: PageId)
    requires Linked(c) && c.order == [1, 0] && c.pageStore == map[PageId(1, 1) := 1]
    requires |c.nodes| == 2 && c.nodes[0].pageId == PageId(1, 0) && pid != PageId(1, 1) && pid in c.disk
    ensures Install(c, pid, 1).1 == Err(NullPointer)
  {
    assert EvictFails(c);
    EvictOutcome(c);
  }

  /** The corrected removePage on the same run: the last getPage evicts p1
      and succeeds. */
  lemma CorrectedRemovePageRun()
    ensures var p0, p1, p2 := PageId(1, 0), PageId(1, 1), PageId(1, 2);
      var c0 := Cache([], [], map[], map[p0 := [], p1 := [], p2 := []]);
      var c1 := Install(c0, p0, 1).0;
      var c2 := RemovePage(c1, p0);
      var c3 := Install(c2, p1, 1).0;
      && Linked(c3) && Install(c3, p2, 1).1 == Ok(Page(p2, [], None))
  {
    var p0, p1, p2 := PageId(1, 0), PageId(1, 1), PageId(1, 2);
    var c0 := Cache([], [], map[], map[p0 := [], p1 := [], p2 := []]);
    var c1 := Install(c0, p0, 1).0;
    var c2 := RemovePage(c1, p0);
    RemovePageConsistent(c1, p0);
    var c3 := Install(c2, p1, 1).0;
    InstallMiss(c3, p2, 1);
    assert Consistent(c3);
    assert c3.order != [];
  }
}
