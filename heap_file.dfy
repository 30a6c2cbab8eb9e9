/** simpledb.storage.HeapFile: the page arithmetic of a heap file and its
    scan iterator. A file is its byte image; the iterator sees the file as
    the sequence of the tuple lists of its pages, in page order (what
    HeapPage.iterator yields of each page is not part of this model). */
module HeapFiles {
  import opened Types

  function Min(a: int, b: int): int
  {
    if a <= b then a else b
  }

  /** numPages(): the file length divided by the page size, rounded down and
      cast to int, which saturates at MAX_INT. */
  function NumPages(fileLength: nat, pageSize: int): (r: nat)
    requires pageSize > 0
    ensures r <= MAX_INT
    ensures fileLength / pageSize <= MAX_INT ==> r * pageSize <= fileLength < (r + 1) * pageSize
  {
    DivBounds(fileLength, pageSize);
    if fileLength / pageSize > MAX_INT then MAX_INT else fileLength / pageSize
  }

  /** readPage(pid): pageNo + 1 is computed in 32-bit int before the bounds
      test `(pageNo + 1) * pageSize > length`; a page that passes is read at
      offset pageNo * pageSize and must come back whole. A negative offset
      makes seek throw an IOException, which is caught and followed by the
      final IllegalArgumentException; a read past the end returns -1, a
      short read fewer bytes than asked. */
  function ReadPage(file: seq<bv8>, pageSize: int, pid: PageId): (r: Result<Page>)
    requires pageSize > 0
    ensures r.Err? ==> r.error == IllegalArgument
    ensures r.Ok? ==> r.value.id == pid && |r.value.bytes| == pageSize && r.value.dirtier == None
  {
    var pageNo := pid.pageNo as int;
    if Wrap32(pageNo + 1) as int * pageSize > |file| then Err(IllegalArgument)
    else if pageNo < 0 then Err(IllegalArgument)
    else
      var offset := pageNo * pageSize;
      var read := if offset >= |file| then -1 else Min(pageSize, |file| - offset);
      if read != pageSize then Err(IllegalArgument)
      else Ok(Page(pid, file[offset..offset + pageSize], None))
  }

  /** For page p of a file of q whole pages: (p + 1) * size fits exactly
      when p < q. */
  lemma PageFits(p: nat, len: nat, size: int)
    requires size > 0
    ensures (p + 1) * size <= len <==> p < len / size
  {
    DivBounds(len, size);
    if p < len / size {
      MulLe(p + 1, len / size, size);
    } else {
      MulLe(len / size + 1, p + 1, size);
    }
  }

  lemma MulLe(a: int, b: int, c: nat)
    requires a <= b
    ensures a * c <= b * c
  {
    var d := b - a;
    assert b * c == a * c + d * c;
  }

  /** readPage accepts exactly the page numbers [0, numPages) of a file of
      fewer than 2^31 pages, and returns the page's bytes at offset
      pageNo * pageSize as a clean page of that id. */
  lemma ReadPageInRange(file: seq<bv8>, pageSize: int, pid: PageId)
    requires pageSize > 0 && |file| / pageSize <= MAX_INT
    ensures var r := ReadPage(file, pageSize, pid);
      var p := pid.pageNo as int;
      && (r.Ok? <==> 0 <= p < NumPages(|file|, pageSize))
      && (r.Ok? ==> (p + 1) * pageSize <= |file| && r.value == Page(pid, file[p * pageSize..(p + 1) * pageSize], None))
  {
    var p := pid.pageNo as int;
    if 0 <= p < MAX_INT {
      ReadPageNonNegative(file, pageSize, pid);
    } else if p == MAX_INT {
      ReadPageLast(file, pageSize, pid);
    } else {
      assert Wrap32(p + 1) as int == p + 1;
      MulLe(p + 1, 0, pageSize);
    }
  }

  lemma ReadPageNonNegative(file: seq<bv8>, pageSize: int, pid: PageId)
    requires pageSize > 0 && |file| / pageSize <= MAX_INT && 0 <= pid.pageNo as int < MAX_INT
    ensures var r := ReadPage(file, pageSize, pid);
      var p := pid.pageNo as int;
      && (r.Ok? <==> p < |file| / pageSize)
      && (r.Ok? ==> (p + 1) * pageSize <= |file| && r.value == Page(pid, file[p * pageSize..(p + 1) * pageSize], None))
  {
    var p := pid.pageNo as int;
    assert Wrap32(p + 1) as int == p + 1;
    PageFits(p, |file|, pageSize);
    var offset := p * pageSize;
    assert (p + 1) * pageSize == offset + pageSize;
  }

  /** pageNo == MAX_INT: pageNo + 1 wraps to MIN_INT, the bounds test
      passes, and the read at MAX_INT * pageSize comes back short. */
  lemma ReadPageLast(file: seq<bv8>, pageSize: int, pid: PageId)
    requires pageSize > 0 && |file| / pageSize <= MAX_INT && pid.pageNo as int == MAX_INT
    ensures ReadPage(file, pageSize, pid).Err?
  {
    var q := |file| / pageSize;
    DivBounds(|file|, pageSize);
    assert Wrap32(MAX_INT + 1) as int == MIN_INT;
    MulLe(MIN_INT, 0, pageSize);
    MulLe(q, MAX_INT, pageSize);
  }

  // ------------------------------------------------------------ the scan

  /** All tuples of `pages`, page by page. */
  function Flatten(pages: seq<seq<Tuple>>): seq<Tuple>
  {
    if pages == [] then [] else pages[0] + Flatten(pages[1..])
  }

  lemma FlattenStep(pages: seq<seq<Tuple>>, w: nat)
    requires w < |pages|
    ensures Flatten(pages[w..]) == pages[w] + Flatten(pages[w + 1..])
  {
    assert pages[w..][0] == pages[w] && pages[w..][1..] == pages[w + 1..];
  }

  /** The tuples a scan has still to return: the rest of the current page
      and every later page. A closed scan (it == null) has none. */
  function Remaining(pages: seq<seq<Tuple>>, it: Option<seq<Tuple>>, whichPage: int): seq<Tuple>
    requires 0 <= whichPage && (it.Some? ==> whichPage < |pages|)
  {
    if it.None? then [] else it.value + Flatten(pages[whichPage + 1..])
  }

  /** hasNext() as written: an exhausted page makes it move on by one page
      only, and answer whether that page has tuples. */
  function HasNextAsWritten(pages: seq<seq<Tuple>>, it: Option<seq<Tuple>>, whichPage: int): (r: (Option<seq<Tuple>>, int, bool))
    requires 0 <= whichPage && (it.Some? ==> whichPage < |pages|)
    ensures 0 <= r.1 && (r.0.Some? ==> r.1 < |pages|)
    ensures r.2 ==> r.0.Some? && r.0.value != []
  {
    if it.None? then (it, whichPage, false)
    else if it.value != [] then (it, whichPage, true)
    else if whichPage < |pages| - 1 then (Some(pages[whichPage + 1]), whichPage + 1, pages[whichPage + 1] != [])
    else (it, whichPage, false)
  }

  /** As written, hasNext never loses tuples and a true answer is sound. */
  lemma HasNextAsWrittenSound(pages: seq<seq<Tuple>>, it: Option<seq<Tuple>>, whichPage: int)
    requires 0 <= whichPage && (it.Some? ==> whichPage < |pages|)
    ensures var r := HasNextAsWritten(pages, it, whichPage);
      && Remaining(pages, r.0, r.1) == Remaining(pages, it, whichPage)
      && (r.2 ==> Remaining(pages, it, whichPage) != [])
  {
    if it.Some? && it.value == [] && whichPage < |pages| - 1 {
      FlattenStep(pages, whichPage + 1);
    }
  }

  /** ... but a false answer is not: on pages [t], [], [u], once t is
      returned, hasNext moves to the empty middle page and answers false
      while u is still to come. */
  lemma EmptyPageCounterexample(t: Tuple, u: Tuple)
    ensures var pages := [[t], [], [u]];
      && Remaining(pages, Some([]), 0) == [u]
      && !HasNextAsWritten(pages, Some([]), 0).2
  {
    var pages := [[t], [], [u]];
    FlattenStep(pages, 1);
    FlattenStep(pages, 2);
    assert pages[3..] == [];
  }

  /** HeapFileIterator over a file whose pages hold `pages`. `it` is the
      rest of the current page's tuple iterator, None for null. */
  class HeapFileIterator {
    const pages: seq<seq<Tuple>>
    var it: Option<seq<Tuple>>
    var whichPage: int

    ghost predicate Valid()
      reads this
    {
      0 <= whichPage && (it.Some? ==> whichPage < |pages|)
    }

    ghost function Rest(): seq<Tuple>
      reads this
      requires Valid()
    {
      Remaining(pages, it, whichPage)
    }

    constructor (pages: seq<seq<Tuple>>)
      ensures Valid() && this.pages == pages && it == None && whichPage == 0
    {
      this.pages := pages;
      it := None;
      whichPage := 0;
    }

    /** getPageTuples(pageNum): the page's tuples, through the buffer pool;
        a DbException outside [0, numPages). */
    method GetPageTuples(pageNum: int) returns (r: Result<seq<Tuple>>)
      ensures r.Ok? <==> 0 <= pageNum < |pages|
      ensures r.Ok? ==> r.value == pages[pageNum]
      ensures r.Err? ==> r.error == DbError
    {
      if 0 <= pageNum < |pages| {
        return Ok(pages[pageNum]);
      }
      return Err(DbError);
    }

    /** open(): back to page 0 with its tuples loaded. On an empty file the
        DbException comes before `it` is assigned, so `it` keeps its value. */
    method Open() returns (r: Outcome)
      requires Valid()
      modifies this
      ensures Valid() && whichPage == 0
      ensures r.Fail? <==> pages == []
      ensures r.Fail? ==> r.error == DbError && it == old(it)
      ensures r.Done? ==> it == Some(pages[0]) && Rest() == Flatten(pages)
    {
      whichPage := 0;
      var t := GetPageTuples(whichPage);
      if t.Err? {
        return Fail(t.error);
      }
      it := Some(t.value);
      FlattenStep(pages, 0);
      return Done;
    }

    /** hasNext(), skipping every exhausted page: true exactly when a tuple
        remains, and then the current page has it (see the findings: as
        written, the source moves on by one page only). */
    method HasNext() returns (b: bool)
      requires Valid()
      modifies this
      ensures Valid() && Rest() == old(Rest())
      ensures b <==> Rest() != []
      ensures b ==> it.Some? && it.value != []
    {
      if it.None? {
        return false;
      }
      while it.value == [] && whichPage < |pages| - 1
        invariant Valid() && it.Some? && Rest() == old(Rest())
        decreases |pages| - whichPage
      {
        FlattenStep(pages, whichPage + 1);
        whichPage := whichPage + 1;
        var t := GetPageTuples(whichPage);
        it := Some(t.value);
      }
      if it.value == [] {
        assert pages[whichPage + 1..] == [];
      }
      return it.value != [];
    }

    /** hasNext() as written: an exhausted page makes it move on by one page
        only and answer whether that page has tuples. It loses no tuples,
        but may answer false while some remain (EmptyPageCounterexample). */
    method HasNextOnePage() returns (b: bool)
      requires Valid()
      modifies this
      ensures Valid() && (it, whichPage, b) == HasNextAsWritten(pages, old(it), old(whichPage))
      ensures Rest() == old(Rest())
    {
      HasNextAsWrittenSound(pages, it, whichPage);
      if it.None? {
        return false;
      }
      if it.value != [] {
        return true;
      }
      if whichPage < |pages| - 1 {
        whichPage := whichPage + 1;
        var t := GetPageTuples(whichPage);
        it := Some(t.value);
        return it.value != [];
      }
      return false;
    }

    /** next(): the next tuple of the current page; NoSuchElementException
        when closed or when the current page is exhausted, without moving
        on to the next page. */
    method Next() returns (r: Result<Tuple>)
      requires Valid()
      modifies this`it
      ensures Valid() && whichPage == old(whichPage)
      ensures r.Ok? <==> old(it).Some? && old(it).value != []
      ensures r.Ok? ==> old(Rest()) == [r.value] + Rest() && it == Some(old(it).value[1..])
      ensures r.Err? ==> r.error == NoSuchElement && it == old(it)
    {
      if it.None? || it.value == [] {
        return Err(NoSuchElement);
      }
      r := Ok(it.value[0]);
      it := Some(it.value[1..]);
    }

    /** close(): drops the page iterator; the scan is over. */
    method Close()
      modifies this`it
      ensures it == None
    {
      it := None;
    }

    /** rewind(): close, then open. */
    method Rewind() returns (r: Outcome)
      requires Valid()
      modifies this
      ensures Valid() && whichPage == 0
      ensures r.Fail? <==> pages == []
      ensures r.Fail? ==> r.error == DbError && it == None
      ensures r.Done? ==> it == Some(pages[0]) && Rest() == Flatten(pages)
    {
      Close();
      r := Open();
    }
  }

  /** A closed scan has nothing left and reports no next tuple. */
  lemma ClosedScanIsEmpty(pages: seq<seq<Tuple>>, whichPage: nat)
    ensures Remaining(pages, None, whichPage) == []
    ensures !HasNextAsWritten(pages, None, whichPage).2
  {
  }
}
