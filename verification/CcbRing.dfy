/** The CCB page ring of one direction: its shared memory, the counters behind its indices, and the
    invariant that relates them.

    One ring has n pages and four indices.  The producer owns `allocate` and `write`, the consumer
    owns `read` and `free`. */
module CcbRing {
  import Arithmetic
  import opened Common

  const PAGE_STATUS_ALLOC := 0x11111111
  const PAGE_STATUS_WRITE_DONE := 0x22222222

  /** What a page header and the bytes behind it hold. */
  datatype Page = Page(status: int, length: nat, payload: seq<int>)

  /** What one completed page carries. */
  datatype Message = Message(length: nat, payload: seq<int>)

  /** The shared buffer header (its four indices) and the pages. */
  datatype Memory = Memory(allocate: nat, write: nat, read: nat, free: nat, pages: seq<Page>) {
    function N(): nat { |pages| }
  }

  /** How many pages were ever freed, taken, published and handed; the message each completed
      page was given; the page whose completion is under way; whether a page is being claimed. */
  datatype History = History(
    freed: nat, taken: nat, published: nat, handed: nat,
    completed: map<nat, Message>, pending: Option<nat>, claiming: bool)

  // ---------------------------------------------------------------- slots

  /** The index after `i`, as every index of the ring is advanced. */
  function NextIndex(i: nat, n: nat): nat {
    if i + 1 >= n then 0 else i + 1
  }

  /** The page that the c-th allocation uses. */
  function Slot(c: nat, n: nat): (r: nat)
    requires n > 0
    ensures r < n
  {
    if c == 0 then 0 else NextIndex(Slot(c - 1, n), n)
  }

  lemma {:induction false} SlotIsRemainder(c: nat, n: nat)
    requires n > 0
    ensures Slot(c, n) == c % n
  {
    if c == 0 {
      assert 0 % n == 0 by { Arithmetic.DivModUnique(0, 0, 0, n); }
    } else {
      assert Slot(c - 1, n) == (c - 1) % n by { SlotIsRemainder(c - 1, n); }
      NextRemainder(c - 1, n);
    }
  }

  lemma NextRemainder(c: nat, n: nat)
    requires n > 0
    ensures (c + 1) % n == NextIndex(c % n, n)
  {
    Arithmetic.DivModStep(c, n);
  }

  /** Inside one lap, slots differ by the distance, less n when the end of the ring lies between. */
  lemma {:induction false} SlotGap(c: nat, d: nat, n: nat)
    requires n > 0 && c <= d < c + n
    ensures Slot(d, n) == if Slot(c, n) + (d - c) < n then Slot(c, n) + (d - c) else Slot(c, n) + (d - c) - n
    decreases d - c
  {
    if c < d {
      SlotGap(c, d - 1, n);
    }
  }

  /** Two allocations less than n apart never share a page. */
  lemma SlotsApart(lo: nat, n: nat)
    requires n > 0
    ensures forall c: nat, d: nat :: lo <= c < d < lo + n ==> Slot(c, n) != Slot(d, n)
  {
    forall c: nat, d: nat | lo <= c < d < lo + n
      ensures Slot(c, n) != Slot(d, n)
    {
      SlotGap(c, d, n);
    }
  }

  /** Storing to the page of one allocation leaves the pages of all others in the lap alone. */
  lemma StoreElsewhere(lo: nat, at: nat, n: nat, pages: seq<Page>, page: Page)
    requires |pages| == n && lo <= at < lo + n
    ensures forall c: nat :: lo <= c < lo + n && c != at ==>
              pages[Slot(at, n) := page][Slot(c, n)] == pages[Slot(c, n)]
  {
    SlotsApart(lo, n);
  }

  /** The allocation in [lo, lo + n) that uses page p. */
  function CounterOf(p: nat, lo: nat, n: nat): (c: nat)
    requires p < n
    ensures lo <= c < lo + n
  {
    if p >= Slot(lo, n) then lo + (p - Slot(lo, n)) else lo + (p + n - Slot(lo, n))
  }

  lemma CounterOfSlot(p: nat, lo: nat, n: nat)
    requires p < n
    ensures Slot(CounterOf(p, lo, n), n) == p
    ensures forall c: nat :: lo <= c < lo + n && Slot(c, n) == p ==> c == CounterOf(p, lo, n)
  {
    SlotGap(lo, CounterOf(p, lo, n), n);
    SlotsApart(lo, n);
  }

  // ---------------------------------------------------------------- invariant of the memory

  /** F <= R <= W <= A <= F + N - 1, and every index is its counter modulo N. */
  ghost predicate Ordered(m: Memory, h: History) {
    && m.N() > 0
    && h.freed <= h.taken <= h.published <= h.handed < h.freed + m.N()
    && m.free == Slot(h.freed, m.N())
    && m.read == Slot(h.taken, m.N())
    && m.write == Slot(h.published, m.N())
    && m.allocate == Slot(h.handed, m.N())
  }

  /** The pages of [F, A): the completed ones carry their message, all others are ALLOC (except one
      whose completion is half written); everything published is completed. */
  ghost predicate WindowPages(m: Memory, h: History)
    requires m.N() > 0
  {
    && (forall c: nat :: h.freed <= c < h.handed && c in h.completed ==>
          m.pages[Slot(c, m.N())] == Page(PAGE_STATUS_WRITE_DONE, h.completed[c].length, h.completed[c].payload))
    && (forall c: nat :: h.freed <= c < h.handed && c !in h.completed && h.pending != Some(c) ==>
          m.pages[Slot(c, m.N())].status == PAGE_STATUS_ALLOC)
    && (forall c: nat :: h.freed <= c < h.published ==> c in h.completed)
    && (forall c: nat :: c in h.completed ==> c < h.handed)
    && (h.pending.Some? ==> h.published <= h.pending.value < h.freed + m.N() && h.pending.value !in h.completed
                            && m.pages[Slot(h.pending.value, m.N())].status == PAGE_STATUS_WRITE_DONE)
  }

  ghost predicate RingInv(m: Memory, h: History) {
    Ordered(m, h) && WindowPages(m, h)
  }

  /** No page outside [F, A) is marked ALLOC (except the one being claimed), and none is being completed. */
  ghost predicate NoStaleAlloc(m: Memory, h: History)
    requires m.N() > 0
  {
    && (h.pending.Some? ==> h.pending.value < h.handed)
    && forall c: nat :: h.handed <= c < h.freed + m.N() && !(h.claiming && c == h.handed) ==>
         m.pages[Slot(c, m.N())].status != PAGE_STATUS_ALLOC
  }

  /** No page is marked ALLOC. */
  ghost predicate Unmarked(m: Memory) {
    forall p :: 0 <= p < m.N() ==> m.pages[p].status != PAGE_STATUS_ALLOC
  }

  /** The consumer moved its two indices forward, whatever it did in between. */
  ghost predicate ConsumerMoved(m: Memory, h: History, m': Memory, h': History) {
    && m' == m.(read := m'.read, free := m'.free)
    && h' == h.(freed := h'.freed, taken := h'.taken)
    && h.freed <= h'.freed && h.taken <= h'.taken
    && Ordered(m', h')
  }

  /** Freed pages leave the window as completed pages, so none of them is a stale ALLOC page. */
  lemma ConsumerMovedKeeps(m: Memory, h: History, m': Memory, h': History)
    requires RingInv(m, h) && ConsumerMoved(m, h, m', h')
    ensures RingInv(m', h')
    ensures NoStaleAlloc(m, h) ==> NoStaleAlloc(m', h')
  {
    if NoStaleAlloc(m, h) {
      FreedAreDone(m, h, m', h');
    }
  }

  lemma FreedAreDone(m: Memory, h: History, m': Memory, h': History)
    requires RingInv(m, h) && NoStaleAlloc(m, h) && ConsumerMoved(m, h, m', h')
    ensures NoStaleAlloc(m', h')
  {
    var n := m.N();
    forall c: nat | h'.handed <= c < h'.freed + n && !(h'.claiming && c == h'.handed)
      ensures m'.pages[Slot(c, n)].status != PAGE_STATUS_ALLOC
    {
      if c >= h.freed + n {
        SlotPeriodic(c - n, n);
      }
    }
  }

  lemma {:induction false} SlotPeriodic(c: nat, n: nat)
    requires n > 0
    ensures Slot(c + n, n) == Slot(c, n)
  {
    if c > 0 {
      SlotPeriodic(c - 1, n);
    } else {
      SlotGap(0, n - 1, n);
    }
  }

  /** Page p has been handed out and not completed yet. */
  ghost predicate Outstanding(h: History, p: nat, n: nat)
    requires n > 0
  {
    exists c: nat :: h.published <= c < h.handed && c !in h.completed && Slot(c, n) == p
  }

  /** Page p is marked ALLOC although it has not been handed out. */
  ghost predicate Stale(m: Memory, h: History, p: nat)
    requires p < m.N()
  {
    m.pages[p].status == PAGE_STATUS_ALLOC && exists c: nat :: h.handed <= c < h.freed + m.N() && Slot(c, m.N()) == p
  }

  /** Page p was handed out and is not completed, or is marked ALLOC without having been handed out. */
  ghost predicate Acceptable(m: Memory, h: History, p: nat)
    requires p < m.N()
  {
    Outstanding(h, p, m.N()) || Stale(m, h, p)
  }

  lemma NoneIsStale(m: Memory, h: History)
    requires m.N() > 0 && NoStaleAlloc(m, h) && !h.claiming
    ensures forall p: nat :: p < m.N() ==> !Stale(m, h, p)
  {
  }

  /** The pages that leave the window when the consumer moves are completed, so none becomes acceptable. */
  lemma SameAcceptable(m: Memory, h: History, m': Memory, h': History)
    requires RingInv(m, h) && ConsumerMoved(m, h, m', h')
    ensures forall p: nat :: p < m.N() ==> (Acceptable(m, h, p) <==> Acceptable(m', h', p))
  {
    forall p: nat | p < m.N()
      ensures Acceptable(m, h, p) <==> Acceptable(m', h', p)
    {
      StaleKept(m, h, m', h', p);
    }
  }

  lemma StaleKept(m: Memory, h: History, m': Memory, h': History, p: nat)
    requires RingInv(m, h) && ConsumerMoved(m, h, m', h') && p < m.N()
    ensures Stale(m, h, p) <==> Stale(m', h', p)
  {
    var n := m.N();
    if c: nat :| h'.handed <= c < h'.freed + n && Slot(c, n) == p && c >= h.freed + n {
      SlotPeriodic(c - n, n);
    }
  }

  // ---------------------------------------------------------------- the computation of `available`

  /** The three-way branch of write_alloc, in 32-bit unsigned arithmetic, when each of its reads of
      the free index may see a newer value: f1 <= f2 <= f3. */
  function Available(n: nat, a: nat, f1: nat, f2: nat, f3: nat): int {
    if a == f1 then (n - 1) % TWO_32
    else if a > f2 then (n - a + f3 - 1) % TWO_32
    else (f3 - a - 1) % TWO_32
  }

  /** Without interference the three branches compute exactly the number of free pages. */
  lemma AvailableIsExact(n: nat, freed: nat, handed: nat)
    requires 0 < n < TWO_32
    requires freed <= handed < freed + n
    ensures var a, f := Slot(handed, n), Slot(freed, n); Available(n, a, f, f, f) == n - 1 - (handed - freed)
  {
    SlotGap(freed, handed, n);
  }

  /** The same in terms of distances: d_i is how far the i-th value of the free index is behind. */
  lemma AvailableByDistance(n: nat, a: nat, f1: nat, f2: nat, f3: nat, d1: nat, d2: nat, d3: nat)
    requires 0 < n < TWO_32 && a < n && f1 < n && f2 < n && f3 < n
    requires n > d1 >= d2 >= d3
    requires a == if f1 + d1 < n then f1 + d1 else f1 + d1 - n
    requires a == if f2 + d2 < n then f2 + d2 else f2 + d2 - n
    requires a == if f3 + d3 < n then f3 + d3 else f3 + d3 - n
    ensures Available(n, a, f1, f2, f3) == 0 <==> d3 == n - 1
  {
    if a == f1 {
    } else if a > f2 {
      assert n - a + f3 - 1 == n - 1 - d3;
    } else if f3 > a {
      assert f3 - a - 1 == n - 1 - d3;
    } else {
      assert f3 - a - 1 + TWO_32 == TWO_32 - 1 - d3;
    }
  }

  /** With the consumer freeing pages between the three reads, the value may wrap to a huge number,
      but it is zero exactly when no page is free at the last read. */
  lemma AvailableUnderInterference(n: nat, handed: nat, freed1: nat, freed2: nat, freed3: nat)
    requires 0 < n < TWO_32
    requires freed1 <= freed2 <= freed3 <= handed < freed1 + n
    ensures Available(n, Slot(handed, n), Slot(freed1, n), Slot(freed2, n), Slot(freed3, n)) == 0
            <==> handed - freed3 == n - 1
  {
    var a, f1, f2, f3 := Slot(handed, n), Slot(freed1, n), Slot(freed2, n), Slot(freed3, n);
    assert Available(n, a, f1, f2, f3) == 0 <==> handed - freed3 == n - 1 by {
      hide Available, Slot;
      SlotGap(freed1, handed, n);
      SlotGap(freed2, handed, n);
      SlotGap(freed3, handed, n);
      AvailableByDistance(n, a, f1, f2, f3, handed - freed1, handed - freed2, handed - freed3);
    }
  }
}
