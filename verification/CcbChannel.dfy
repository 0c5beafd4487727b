/** The calls of the CCB library on one ring: the producer's write_alloc and write_done and the
    consumer's read_get, read_done and read_flush, over the shared indices and pages.

    Every call is verified while the other end keeps moving: before each access to shared memory the
    other end may move as often as it likes.  The stores are the steps of CcbProtocol. */
module CcbChannel {
  import opened CcbRing
  import opened CcbProtocol
  import opened CcbLayout
  import opened Common
  import Arithmetic

  datatype ReadResult = Again | Fault | Got(address: nat, length: nat)

  /** Different pages have different addresses. */
  lemma AddressesDiffer(d: Direction, i: nat, j: nat)
    requires d.pageSize > 0 && i != j
    ensures PageStart(d, i) != PageStart(d, j)
  {
    if i < j {
      Arithmetic.ProductMonotone(d.pageSize, i + 1, j);
    } else {
      Arithmetic.ProductMonotone(d.pageSize, j + 1, i);
    }
  }

  /** The address is 8 bytes behind the start of page p.  What is written from there on, as long as it leaves
      room for the page header, stays in that page and changes the status and length of none. */
  ghost predicate PayloadAddress(d: Direction, p: nat, address: nat) {
    && address == PageStart(d, p) + 8
    && forall b: nat :: address <= b && b + 8 < address + d.pageSize ==> PayloadByte(d, p, b)
  }

  /** The byte lies in page p and is no byte of the status or length of any page. */
  ghost predicate PayloadByte(d: Direction, p: nat, b: nat) {
    PageStart(d, p) <= b < PageEnd(d, p) && forall q: nat :: q < d.pageNum ==> !HeaderByte(d, q, b)
  }

  lemma PageHasPayload(d: Direction, p: nat)
    requires d.pageSize > 0 && d.pageNum == d.size / d.pageSize && p < d.pageNum
    ensures PayloadAddress(d, p, PageStart(d, p) + PAGE_HEADER_SIZE)
  {
    var address := PageStart(d, p) + PAGE_HEADER_SIZE;
    forall b: nat | address <= b && b + 8 < address + d.pageSize
      ensures PayloadByte(d, p, b)
    {
      forall q: nat | q < d.pageNum
        ensures PageStart(d, p) <= b < PageEnd(d, p) && !HeaderByte(d, q, b)
      {
        PayloadMeetsNoHeader(d, p, d.pageSize - 8, q, b);
      }
      PayloadMeetsNoHeader(d, p, d.pageSize - 8, p, b);
    }
  }

  /** The idle protocol state over a given memory and history. */
  ghost function View(m: Memory, h: History, pageSize: nat, producer: Producer): State
    requires h.freed <= h.taken
  {
    State(m, h, pageSize, producer, CIdle, [], h.freed, h.taken - h.freed)
  }

  /** The ring with the producer at the given place; a clean session has no stale ALLOC page. */
  ghost predicate Session(m: Memory, h: History, pageSize: nat, producer: Producer, clean: bool) {
    && h.freed <= h.taken && pageSize > 0
    && Inv(View(m, h, pageSize, producer))
    && (clean ==> NoStaleAlloc(m, h))
  }

  /** The write counter moved over completed allocations only. */
  ghost predicate PublishedPrefix(h: History, h': History) {
    && h.published <= h'.published
    && forall d: nat :: h.published <= d < h'.published ==> d in h'.completed
  }

  /** From history h to h', the allocation using page p was completed with the message, and the write
      counter moved over completed allocations only. */
  ghost predicate CompletedPage(h: History, h': History, p: nat, message: Message, n: nat)
    requires p < n
  {
    var c := CounterOf(p, h.published, n);
    && h.published <= c < h.handed == h'.handed && c !in h.completed && Slot(c, n) == p
    && h'.completed == h.completed[c := message]
    && PublishedPrefix(h, h')
  }

  /** From history h to h' the producer completed and published nothing. */
  ghost predicate NothingCompleted(h: History, h': History) {
    h'.handed == h.handed && h'.published == h.published && h'.completed == h.completed
  }

  /** A page handed out is completed by recording its allocation, any other page by nothing. */
  ghost predicate PageDone(h: History, h': History, p: nat, message: Message, n: nat)
    requires p < n
  {
    if Outstanding(h, p, n) then CompletedPage(h, h', p, message, n) else NothingCompleted(h, h')
  }

  lemma OutstandingCounter(h: History, p: nat, n: nat)
    requires p < n && h.handed <= h.published + n
    ensures var c := CounterOf(p, h.published, n);
            Slot(c, n) == p && (Outstanding(h, p, n) <==> c < h.handed && c !in h.completed)
  {
    CounterOfSlot(p, h.published, n);
  }

  /** Recording a completion and publishing the finished prefix is all that happens to the history. */
  lemma PageIsDone(h: History, h': History, p: nat, message: Message, n: nat)
    requires p < n && h.handed <= h.published + n && h.published !in h.completed
    requires CounterOf(p, h.published, n) !in h.completed && PublishedPrefix(h, h')
    requires h'.handed == h.handed && h'.completed == Completed(h, CounterOf(p, h.published, n), message)
    ensures PageDone(h, h', p, message, n)
  {
    hide CounterOf, Slot;
    OutstandingCounter(h, p, n);
  }

  lemma SamePageDone(h: History, h1: History, h2: History, p: nat, message: Message, n: nat)
    requires p < n && h1 == h.(freed := h1.freed, taken := h1.taken) && PageDone(h1, h2, p, message, n)
    ensures PageDone(h, h2, p, message, n)
  {
  }

  /** A memory that a registering producer may find starts a session. */
  lemma StartsSession(m: Memory, pageSize: nat)
    requires Resumable(m) && m.N() < TWO_32 && pageSize > 0
    ensures Session(m, HistoryOf(m), pageSize, Publish(m.write), Unmarked(m))
    ensures HistoryOf(m).published !in HistoryOf(m).completed
  {
    ResumableIsRegistered(m);
    var s := State(m, HistoryOf(m), pageSize, PIdle, CIdle, [], HistoryOf(m).taken, 0);
    assert Registered(s);
    RegisteredInv(s);
    hide Resumable, HistoryOf, Registered;
  }

  /** The producer's counters grew, what was completed keeps its message, the consumer's stand. */
  ghost predicate ProducerMoved(h: History, h': History) {
    && h'.freed == h.freed && h'.taken == h.taken
    && h.published <= h'.published && h.handed <= h'.handed
    && forall c: nat :: c in h.completed ==> c in h'.completed && h'.completed[c] == h.completed[c]
  }

  class Channel {
    const area: Direction
    const pageNum: nat
    const pageSize: nat
    const pages: array<Page>

    var allocateIndex: nat
    var writeIndex: nat
    var readIndex: nat
    var freeIndex: nat

    ghost var hist: History
    ghost const clean: bool          // no page was marked ALLOC when the producer registered

    ghost function Mem(): Memory
      reads this, pages
    {
      Memory(allocateIndex, writeIndex, readIndex, freeIndex, pages[..])
    }

    /** Shared memory is a ring, and no store of the producer is half done; the producer may be
        anywhere in its publish loop. */
    ghost predicate Ring()
      reads this, pages
    {
      && pages.Length == pageNum && Session(Mem(), hist, pageSize, Publish(writeIndex), clean)
      && PagesFit()
    }

    /** Between two calls of the producer the front page is not completed. */
    ghost predicate Valid()
      reads this, pages
    {
      Ring() && hist.published !in hist.completed
    }

    /** The pages are those of the area. */
    ghost predicate PagesFit() {
      0 < pageSize == area.pageSize && pageNum == area.pageNum == area.size / area.pageSize
    }

    /** The address of the data of page i. */
    function Address(i: nat): nat {
      PageStart(area, i) + PAGE_HEADER_SIZE
    }

    /** A producer registers: it sets its allocate index to the write index it finds.  Pages from the
        free index up to the write index are still published, and others may be marked ALLOC. */
    constructor (pages: array<Page>, area: Direction, write: nat, read: nat, free: nat)
      requires 0 < pages.Length < TWO_32 && area.pageSize > 0
      requires pages.Length == area.pageNum == area.size / area.pageSize
      requires Resumable(Memory(write, write, read, free, pages[..]))
      ensures Valid() && this.pages == pages && this.area == area
      ensures pages[..] == old(pages[..]) && Mem() == Memory(write, write, read, free, pages[..])
      ensures hist == HistoryOf(Mem())
      ensures clean == Unmarked(Mem())
    {
      hide Session, Resumable, HistoryOf, Unmarked;
      this.area, pageNum, pageSize, this.pages := area, area.pageNum, area.pageSize, pages;
      allocateIndex, writeIndex, readIndex, freeIndex := write, write, read, free;
      hist := HistoryOf(Memory(write, write, read, free, pages[..]));
      clean := Unmarked(Memory(write, write, read, free, pages[..]));
      StartsSession(Memory(write, write, read, free, pages[..]), area.pageSize);
      new;
    }

    // -------------------------------------------------------------- the other end

    /** The consumer moves read up to write and free up to read, as often as it likes. */
    method ConsumerRuns()
      requires Ordered(Mem(), hist) && pages.Length == pageNum
      modifies this`readIndex, this`freeIndex, this`hist
      ensures ConsumerMoved(old(Mem()), old(hist), Mem(), hist)
    {
      var moves: nat :| true;
      for i := 0 to moves
        invariant ConsumerMoved(old(Mem()), old(hist), Mem(), hist)
      {
        if * {
          if readIndex != writeIndex {
            readIndex := NextIndex(readIndex, pageNum);
            hist := hist.(taken := hist.taken + 1);
          }
        } else if freeIndex != readIndex {
          freeIndex := NextIndex(freeIndex, pageNum);
          hist := hist.(freed := hist.freed + 1);
        }
      }
    }

    // -------------------------------------------------------------- producer

    /** The three-way computation of write_alloc.  The consumer may move before each of its up to
        three reads of the free index; the result is zero exactly if the ring is full at the last. */
    method CountAvailable() returns (available: int)
      requires Ordered(Mem(), hist) && pages.Length == pageNum < TWO_32
      modifies this`readIndex, this`freeIndex, this`hist
      ensures ConsumerMoved(old(Mem()), old(hist), Mem(), hist)
      ensures available == 0 <==> hist.handed - hist.freed == pageNum - 1
    {
      hide Slot;
      ConsumerRuns();
      ghost var freed1, freed2 := hist.freed, hist.freed;
      ghost var f1, f2 := freeIndex, freeIndex;
      if allocateIndex == freeIndex {
        available := (pageNum - 1) % TWO_32;
      } else {
        ConsumerRuns();
        freed2, f2 := hist.freed, freeIndex;
        if allocateIndex > freeIndex {
          ConsumerRuns();
          available := (pageNum - allocateIndex + freeIndex - 1) % TWO_32;
        } else {
          ConsumerRuns();
          available := (freeIndex - allocateIndex - 1) % TWO_32;
        }
      }
      assert available == Available(pageNum, allocateIndex, f1, f2, freeIndex);
      hide Available;
      AvailableUnderInterference(pageNum, hist.handed, freed1, freed2, hist.freed);
    }

    /** Hands out the next page, or none.  No page comes back only if the ring was full when the
        call began; a page that comes back is the one of the next allocation. */
    method WriteAlloc() returns (address: Option<nat>)
      requires Valid()
      modifies this, pages
      ensures Valid()
      ensures hist.published == old(hist.published) && hist.completed == old(hist.completed)
      ensures address.None? ==> hist.handed == old(hist.handed) && pages[..] == old(pages[..])
                                && old(hist.handed - hist.freed) == pageNum - 1
      ensures address.Some? ==>
                && hist.handed == old(hist.handed) + 1
                && var p := Slot(old(hist.handed), pageNum);
                   && PayloadAddress(area, p, address.value)
                   && pages[..] == old(pages[..])[p := old(pages[p]).(status := PAGE_STATUS_ALLOC)]
    {
      address := None;
      ghost var m, h := Mem(), hist;
      var available := CountAvailable();
      ConsumerMovedKeeps(m, h, Mem(), hist);
      if available != 0 {
        address := ClaimPage();
      }
    }

    method ClaimPage() returns (address: Option<nat>)
      requires Valid() && hist.handed - hist.freed < pageNum - 1
      modifies this, pages
      ensures Valid()
      ensures hist.published == old(hist.published) && hist.completed == old(hist.completed)
      ensures hist.handed == old(hist.handed) + 1
      ensures var p := Slot(old(hist.handed), pageNum);
              && address.Some? && PayloadAddress(area, p, address.value)
              && pages[..] == old(pages[..])[p := old(pages[p]).(status := PAGE_STATUS_ALLOC)]
    {
      ConsumerRunsBetweenCalls();
      MarkPage();
      ConsumerRunsWhileClaiming();
      PageHasPayload(area, allocateIndex);
      address := Some(Address(allocateIndex));
      AdvanceAllocate();
    }

    method ConsumerRunsWhileClaiming()
      requires Claiming()
      modifies this`readIndex, this`freeIndex, this`hist
      ensures Claiming() && ConsumerMoved(old(Mem()), old(hist), Mem(), hist)
    {
      ghost var m, h := Mem(), hist;
      ConsumerRuns();
      ConsumerMovedKeeps(m, h, Mem(), hist);
    }

    /** Between the two stores of a claim the page next to the window is marked. */
    ghost predicate Claiming()
      reads this, pages
    {
      pages.Length == pageNum && Session(Mem(), hist, pageSize, AllocAdvance, clean) && PagesFit()
    }

    method MarkPage()
      requires Valid() && hist.handed - hist.freed < pageNum - 1
      modifies this`hist, pages
      ensures Claiming() && hist == old(hist).(claiming := true)
      ensures Mem() == old(Mem()).(pages := old(pages[..])[allocateIndex := old(pages[allocateIndex]).(status := PAGE_STATUS_ALLOC)])
    {
      ghost var claim := View(Mem(), hist, pageSize, AllocClaim(1));
      ClaimKeeps(claim, 1);
      pages[allocateIndex] := pages[allocateIndex].(status := PAGE_STATUS_ALLOC);
      hist := hist.(claiming := true);
      assert View(Mem(), hist, pageSize, AllocAdvance) == Claim(claim, 1);
    }

    method AdvanceAllocate()
      requires Claiming()
      modifies this`allocateIndex, this`hist
      ensures Valid() && hist == old(hist).(handed := old(hist.handed) + 1, claiming := false)
    {
      hide WindowPages, NoStaleAlloc;
      ghost var advance := View(Mem(), hist, pageSize, AllocAdvance);
      HandOutKeeps(advance);
      allocateIndex := if allocateIndex + 1 >= pageNum then 0 else allocateIndex + 1;
      hist := hist.(handed := hist.handed + 1, claiming := false);
      assert View(Mem(), hist, pageSize, PIdle) == HandOut(advance);
    }

    /** The page at an address, or none. */
    method FindPage(address: nat) returns (i: nat)
      requires pageSize > 0
      ensures i <= pageNum
      ensures i < pageNum ==> Address(i) == address
      ensures i == pageNum ==> forall p: nat :: p < pageNum ==> Address(p) != address
    {
      i := 0;
      while i < pageNum && Address(i) != address
        invariant i <= pageNum
        invariant forall p: nat :: p < i ==> Address(p) != address
      {
        i := i + 1;
      }
    }

    /** Completes a page and publishes the finished prefix.  The call is accepted exactly for the
        address of a page handed out and not completed, and for that of a stale page, which a clean
        session does not have; otherwise the producer changes nothing.  Accepted, it records the message
        of the page handed out and moves the write index to the first allocation not completed (Valid),
        over completed pages only; for a stale page nothing is recorded or published. */
    method WriteDone(address: nat, length: nat) returns (ok: bool)
      requires Valid()
      modifies this, pages
      ensures Valid()
      ensures ok <==> length <= pageSize && exists p: nat :: p < pageNum && Address(p) == address
                                                             && Acceptable(old(Mem()), old(hist), p)
      ensures clean ==> forall p: nat :: p < pageNum ==> !Stale(old(Mem()), old(hist), p)
      ensures !ok ==> ConsumerMoved(old(Mem()), old(hist), Mem(), hist)
      ensures ok ==> exists p: nat :: p < pageNum && Address(p) == address
                                      && PageDone(old(hist), hist, p, Message(length, old(pages[p].payload)), pageNum)
    {
      BetweenCalls();
      ghost var m, h := Mem(), hist;
      ConsumerRunsBetweenCalls();
      SameAcceptable(m, h, Mem(), hist);
      hide *;
      ghost var h' := hist;
      var i := FindAcceptable(address, length);
      ok := i.Some?;
      if ok {
        CompletePage(i.value, length);
        SamePageDone(h, h', hist, i.value, Message(length, old(pages[i.value].payload)), pageNum);
      }
    }

    lemma BetweenCalls()
      requires Valid()
      ensures Mem().N() == pageNum > 0 && RingInv(Mem(), hist) && pages.Length == pageNum
      ensures clean ==> forall p: nat :: p < pageNum ==> !Stale(Mem(), hist, p)
    {
      if clean {
        NoneIsStale(Mem(), hist);
      }
    }

    method ConsumerRunsBetweenCalls()
      requires Valid()
      modifies this`readIndex, this`freeIndex, this`hist
      ensures Valid() && ConsumerMoved(old(Mem()), old(hist), Mem(), hist)
    {
      ghost var m, h := Mem(), hist;
      ConsumerRuns();
      ConsumerMovedKeeps(m, h, Mem(), hist);
    }

    /** The checks of write_done find a page exactly if the address is that of an acceptable one. */
    method FindAcceptable(address: nat, length: nat) returns (r: Option<nat>)
      requires Valid()
      ensures r.Some? ==> length <= pageSize && r.value < pageNum && Address(r.value) == address
                          && pages[r.value].status == PAGE_STATUS_ALLOC && Acceptable(Mem(), hist, r.value)
      ensures r.None? ==> length > pageSize
                          || forall p: nat :: p < pageNum && Address(p) == address ==> !Acceptable(Mem(), hist, p)
    {
      if length > pageSize {
        return None;
      }
      var i := FindPage(address);
      if i == pageNum {
        return None;
      }
      AcceptsExactlyOutstanding(View(Mem(), hist, pageSize, PIdle), i, length);
      if pages[i].status != PAGE_STATUS_ALLOC {
        forall p: nat | p < pageNum && Address(p) == address
          ensures !Acceptable(Mem(), hist, p)
        {
          if p != i {
            AddressesDiffer(area, p, i);
          }
        }
        return None;
      }
      r := Some(i);
    }

    lemma InLap()
      requires Ring()
      ensures hist.handed <= hist.published + pageNum
    {
    }

    method CompletePage(i: nat, length: nat)
      requires Valid() && i < pageNum && pages[i].status == PAGE_STATUS_ALLOC && length <= pageSize
      modifies this, pages
      ensures Valid()
      ensures PageDone(old(hist), hist, i, Message(length, old(pages[i].payload)), pageNum)
    {
      hide Session, CounterOf, Slot, Inv;
      ghost var h := hist;
      InLap();
      MarkDone(i, length);
      ConsumerRunsWhileCompleting(length);
      RecordLength(i, length);
      PublishFinished();
      PageIsDone(h, hist, i, Message(length, old(pages[i].payload)), pageNum);
    }

    method ConsumerRunsWhileCompleting(ghost length: nat)
      requires Completing(length)
      modifies this`readIndex, this`freeIndex, this`hist
      ensures Completing(length) && ConsumerMoved(old(Mem()), old(hist), Mem(), hist)
    {
      ghost var m, h := Mem(), hist;
      ConsumerRuns();
      ConsumerMovedKeeps(m, h, Mem(), hist);
    }

    ghost predicate Completing(length: nat)
      reads this, pages
    {
      pages.Length == pageNum && Session(Mem(), hist, pageSize, DoneLength(length), clean) && PagesFit()
    }

    method MarkDone(i: nat, length: nat)
      requires Valid() && i < pageNum && pages[i].status == PAGE_STATUS_ALLOC && length <= pageSize
      modifies this`hist, pages
      ensures Completing(length)
      ensures var c := CounterOf(i, old(hist.published), pageNum);
              && hist == old(hist).(pending := Some(c)) && Slot(c, pageNum) == i
              && hist.published <= c && c !in hist.completed
      ensures Mem() == old(Mem()).(pages := old(pages[..])[i := old(pages[i]).(status := PAGE_STATUS_WRITE_DONE)])
    {
      hide WindowPages, NoStaleAlloc, DeliveredInv, ConsumerInv;
      ghost var start := View(Mem(), hist, pageSize, PIdle);
      SameDelivered(View(Mem(), hist, pageSize, Publish(writeIndex)), start);
      BeginDoneKeeps(start, i, length);
      pages[i] := pages[i].(status := PAGE_STATUS_WRITE_DONE);
      hist := hist.(pending := Some(CounterOf(i, hist.published, pageNum)));
      assert View(Mem(), hist, pageSize, DoneLength(length)) == BeginCall(start, ProducerCall.WriteDone(i, length));
    }

    method RecordLength(i: nat, length: nat)
      requires Completing(length) && i == Slot(hist.pending.value, pageNum)
      modifies this`hist, pages
      ensures Ring()
      ensures var c := old(hist.pending.value);
              hist == old(hist).(completed := Completed(old(hist), c, Message(length, old(pages[i].payload))), pending := None)
      ensures writeIndex == old(writeIndex)
    {
      ghost var start := View(Mem(), hist, pageSize, DoneLength(length));
      StoreLengthKeeps(start, length);
      hist := hist.(completed := Completed(hist, hist.pending.value, Message(length, pages[i].payload)), pending := None);
      pages[i] := pages[i].(length := length);
      assert View(Mem(), hist, pageSize, Publish(writeIndex)) == StoreLength(start, length);
    }

    /** The loop over the finished prefix.  Its cursor stays equal to the write index while the
        consumer keeps moving, and it ends because the distance to the allocate index shrinks. */
    method PublishFinished()
      requires Ring()
      modifies this`writeIndex, this`readIndex, this`freeIndex, this`hist
      ensures Valid()
      ensures hist.handed == old(hist.handed) && hist.completed == old(hist.completed)
      ensures PublishedPrefix(old(hist), hist)
    {
      var i := writeIndex;
      while i != allocateIndex
        invariant Ring() && i == writeIndex
        invariant hist.handed == old(hist.handed) && hist.completed == old(hist.completed)
        invariant PublishedPrefix(old(hist), hist)
        decreases hist.handed - hist.published
      {
        ConsumerRunsWhileRing();
        if pages[i].status == PAGE_STATUS_WRITE_DONE {
          AdvanceWrite();
        } else {
          StopPublishing();
          return;
        }
        i := i + 1;
        if i >= pageNum {
          i := 0;
        }
      }
      StopPublishing();
    }

    method ConsumerRunsWhileRing()
      requires Ring()
      modifies this`readIndex, this`freeIndex, this`hist
      ensures Ring() && ConsumerMoved(old(Mem()), old(hist), Mem(), hist)
    {
      ghost var m, h := Mem(), hist;
      ConsumerRuns();
      ConsumerMovedKeeps(m, h, Mem(), hist);
    }

    lemma StopPublishing()
      requires Ring()
      requires writeIndex == allocateIndex || pages[writeIndex].status != PAGE_STATUS_WRITE_DONE
      ensures Valid()
    {
      PublishKeeps(View(Mem(), hist, pageSize, Publish(writeIndex)), writeIndex);
    }

    method AdvanceWrite()
      requires Ring() && writeIndex != allocateIndex && pages[writeIndex].status == PAGE_STATUS_WRITE_DONE
      modifies this`writeIndex, this`hist
      ensures Ring() && hist == old(hist).(published := old(hist.published) + 1)
      ensures old(hist.published) in hist.completed && hist.published <= hist.handed
      ensures writeIndex == NextIndex(old(writeIndex), pageNum)
    {
      ghost var start := View(Mem(), hist, pageSize, Publish(writeIndex));
      PublishKeeps(start, writeIndex);
      writeIndex := if writeIndex + 1 >= pageNum then 0 else writeIndex + 1;
      hist := hist.(published := hist.published + 1);
      assert View(Mem(), hist, pageSize, Publish(writeIndex)) == PublishOne(start, start.mem.write);
    }

    // -------------------------------------------------------------- consumer

    /** The producer and its clients fill, complete, publish and hand out pages, as they like. */
    method ProducerRuns()
      requires Ring()
      modifies this`allocateIndex, this`writeIndex, this`hist, pages
      ensures Ring() && ProducerMoved(old(hist), hist)
    {
      var moves: nat :| true;
      for k := 0 to moves
        invariant Ring() && ProducerMoved(old(hist), hist)
      {
        if writeIndex != allocateIndex && pages[writeIndex].status == PAGE_STATUS_WRITE_DONE {
          AdvanceWrite();
        } else {
          StopPublishing();
          ProducerCalls();
        }
      }
    }

    method ProducerCalls()
      requires Valid()
      modifies this`allocateIndex, this`hist, pages
      ensures Ring() && ProducerMoved(old(hist), hist)
    {
      hide RingInv, Ordered, WindowPages, NoStaleAlloc, Slot, DeliveredInv, ConsumerInv;
      var i: nat, length: nat, payload: seq<int> :| true;
      if * {
        if NextIndex(allocateIndex, pageNum) != freeIndex {
          RoomLeft();
          MarkPage();
          AdvanceAllocate();
        }
      } else if i < pageNum && pages[i].status == PAGE_STATUS_ALLOC && length <= pageSize {
        FillPage(i, payload);
        MarkDone(i, length);
        RecordLength(i, length);
      }
    }

    lemma RoomLeft()
      requires Ring() && NextIndex(allocateIndex, pageNum) != freeIndex
      ensures hist.handed - hist.freed < pageNum - 1
    {
      SlotGap(hist.freed, hist.handed, pageNum);
    }

    /** A client changes the payload of a page marked ALLOC. */
    method FillPage(i: nat, payload: seq<int>)
      requires Valid() && i < pageNum && pages[i].status == PAGE_STATUS_ALLOC
      modifies pages
      ensures Valid() && pages[..] == old(pages[..])[i := old(pages[i]).(payload := payload)]
    {
      hide RingInv, Ordered, WindowPages, NoStaleAlloc, CounterOf, Slot;
      ghost var start := View(Mem(), hist, pageSize, PIdle);
      ClientKeeps(start, i, payload);
      pages[i] := pages[i].(payload := payload);
      assert View(Mem(), hist, pageSize, PIdle) == ClientStep(start, i, payload);
    }

    method ReadAvailable() returns (available: int)
      requires Ring()
      ensures available == hist.published - hist.taken
    {
      available := writeIndex - readIndex;
      if available < 0 {
        available := available + pageNum;
      }
      SlotGap(hist.taken, hist.published, pageNum);
    }

    /** Takes the next page.  EAGAIN comes back only if nothing was published and untaken when the
        call began; a page that comes back is the next one in the order of allocation, with the
        length and payload of its completion; a page is never found in a wrong state. */
    method ReadGet() returns (r: ReadResult)
      requires Ring()
      modifies this, pages
      ensures Ring() && ProducerMoved(old(hist).(taken := hist.taken), hist)
      ensures !r.Fault?
      ensures r.Again? ==> hist.taken == old(hist.taken) == old(hist.published)
      ensures r.Got? ==>
                && hist.taken == old(hist.taken) + 1
                && old(hist.taken) in hist.completed
                && var p := Slot(old(hist.taken), pageNum);
                   && PayloadAddress(area, p, r.address) && r.length == hist.completed[old(hist.taken)].length
                   && pages[p].payload == hist.completed[old(hist.taken)].payload
    {
      ProducerRuns();
      var available := ReadAvailable();
      if available == 0 {
        return Again;
      }
      r := TakeNext();
    }

    method TakeNext() returns (r: ReadResult)
      requires Ring() && hist.taken < hist.published
      modifies this, pages
      ensures Ring() && ProducerMoved(old(hist).(taken := hist.taken), hist)
      ensures hist.taken == old(hist.taken) + 1 && old(hist.taken) in hist.completed
      ensures var p := Slot(old(hist.taken), pageNum);
              && r.Got? && PayloadAddress(area, p, r.address) && r.length == hist.completed[old(hist.taken)].length
              && pages[p].payload == hist.completed[old(hist.taken)].payload
    {
      hide RingInv, ProducerInv, DeliveredInv, ConsumerInv;
      ProducerRuns();
      FrontPage();
      if pages[readIndex].status != PAGE_STATUS_WRITE_DONE {
        return Fault;
      }
      ProducerRuns();
      FrontPage();
      PageHasPayload(area, readIndex);
      r := Got(Address(readIndex), pages[readIndex].length);
      ProducerRuns();
      FrontPage();
      AdvanceRead();
    }

    /** The page at the read index, when there is one to read, holds the message of its allocation. */
    lemma FrontPage()
      requires Ring() && hist.taken < hist.published
      ensures hist.taken in hist.completed && readIndex == Slot(hist.taken, pageNum)
      ensures var message := hist.completed[hist.taken];
              pages[readIndex] == Page(PAGE_STATUS_WRITE_DONE, message.length, message.payload)
    {
    }

    method AdvanceRead()
      requires Ring() && hist.taken < hist.published
      modifies this`readIndex, this`hist
      ensures Ring() && hist == old(hist).(taken := old(hist.taken) + 1)
    {
      readIndex := if readIndex + 1 >= pageNum then 0 else readIndex + 1;
      hist := hist.(taken := hist.taken + 1);
    }

    /** Frees the one outstanding page; with none or several outstanding nothing changes. */
    method ReadDone() returns (ok: bool)
      requires Ring()
      modifies this`freeIndex, this`hist
      ensures Ring()
      ensures ok <==> old(hist.taken) == old(hist.freed) + 1 || pageNum == 1
      ensures hist == old(hist).(freed := if ok then old(hist.taken) else old(hist.freed))
      ensures ok ==> freeIndex == readIndex
    {
      ghost var m, h := Mem(), hist;
      var freeIndexToBe := freeIndex + 1;
      if freeIndexToBe >= pageNum {
        freeIndexToBe := 0;
      }
      FreesExactlyOne(View(m, h, pageSize, Publish(writeIndex)));
      ok := readIndex == freeIndexToBe;
      if ok {
        freeIndex := freeIndexToBe;
        hist := hist.(freed := hist.taken);
        ConsumerMovedKeeps(m, h, Mem(), hist);
      }
    }

    /** Drops everything published so far. */
    method ReadFlush()
      requires Ring()
      modifies this, pages
      ensures Ring() && ProducerMoved(old(hist).(freed := hist.freed, taken := hist.taken), hist)
      ensures hist.freed == hist.taken && old(hist.published) <= hist.taken && freeIndex == readIndex
    {
      ProducerRuns();
      FlushReadIndex();
      ProducerRuns();
      FlushFreeIndex();
    }

    method FlushReadIndex()
      requires Ring()
      modifies this`readIndex, this`hist
      ensures Ring() && hist == old(hist).(taken := old(hist.published))
    {
      hide WindowPages, NoStaleAlloc;
      ghost var m, h := Mem(), hist;
      readIndex := writeIndex;
      hist := hist.(taken := hist.published);
      ConsumerMovedKeeps(m, h, Mem(), hist);
    }

    method FlushFreeIndex()
      requires Ring()
      modifies this`freeIndex, this`hist
      ensures Ring() && hist == old(hist).(freed := old(hist.taken)) && freeIndex == readIndex
    {
      hide WindowPages, NoStaleAlloc;
      ghost var m, h := Mem(), hist;
      freeIndex := readIndex;
      hist := hist.(freed := hist.taken);
      ConsumerMovedKeeps(m, h, Mem(), hist);
    }
  }
}
