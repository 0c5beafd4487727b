/** The two ends of a CCB ring running concurrently.  Every load or store of an index or a page
    header that the other end can observe is a step of its own, so the other end may move between
    any two of them.  Memory is sequentially consistent. */
module CcbProtocol {
  import opened CcbRing
  import opened Common

  /** The program counter of the producer, with its locals. */
  datatype Producer =
    | PIdle
    | AllocCompare                 // `allocate == free` was false; about to read `free` for the comparison
    | AllocAhead                   // `allocate > free` was true; about to read `free` for the subtraction
    | AllocBehind                  // `allocate > free` was false; about to read `free` for the subtraction
    | AllocClaim(available: int)   // about to mark the page
    | AllocAdvance                 // page marked; about to move the allocate index
    | DoneLength(length: nat)      // page marked WRITE_DONE; about to store its length
    | Publish(i: nat)              // head of the loop that moves the write index

  /** The program counter of the consumer, with its locals. */
  datatype Consumer =
    | CIdle
    | GetStatus                    // a page is available; about to check its status
    | GetLength                    // about to load the length
    | GetAdvance(length: nat)      // about to move the read index
    | FlushFree                    // read index flushed; about to flush the free index

  datatype ProducerCall = WriteAlloc | WriteDone(page: nat, length: nat)
  datatype ConsumerCall = ReadGet | ReadDone | ReadFlush

  /** What one successful read_get hands to its caller. */
  datatype Delivery = Delivery(counter: nat, page: nat, message: Message)

  datatype State = State(
    mem: Memory, hist: History, pageSize: nat,
    producer: Producer, consumer: Consumer,
    delivered: seq<Delivery>, start: nat, skipped: nat)

  /** What the scheduler lets happen next.  A page marked ALLOC may be filled at any time.
      Where the other end is not this library, it is any peer that moves `read` up to `write` and
      `free` up to `read`. */
  datatype Choice =
    | ProducerMoves(pcall: ProducerCall)
    | ConsumerMoves(ccall: ConsumerCall)
    | PeerMoves(passed: nat, returned: nat)
    | ClientFills(page: nat, payload: seq<int>)

  // ---------------------------------------------------------------- steps of the producer

  /** write_done accepts: the address names a page of the ring, the length fits, the page is ALLOC. */
  predicate Accepts(s: State, page: nat, length: nat) {
    length <= s.pageSize && page < s.mem.N() && s.mem.pages[page].status == PAGE_STATUS_ALLOC
  }

  function BeginCall(s: State, call: ProducerCall): State
    requires s.mem.N() > 0
  {
    match call
    case WriteAlloc =>
      if s.mem.allocate == s.mem.free
      then s.(producer := AllocClaim((s.mem.N() - 1) % TWO_32))
      else s.(producer := AllocCompare)
    case WriteDone(page, length) =>
      if !Accepts(s, page, length) then s
      else s.(mem := s.mem.(pages := s.mem.pages[page := s.mem.pages[page].(status := PAGE_STATUS_WRITE_DONE)]),
              hist := s.hist.(pending := Some(CounterOf(page, s.hist.published, s.mem.N()))),
              producer := DoneLength(length))
  }

  function Claim(s: State, available: int): State
    requires s.mem.allocate < s.mem.N()
  {
    if available == 0 then s.(producer := PIdle)
    else s.(mem := s.mem.(pages := s.mem.pages[s.mem.allocate := s.mem.pages[s.mem.allocate].(status := PAGE_STATUS_ALLOC)]),
            hist := s.hist.(claiming := true),
            producer := AllocAdvance)
  }

  function HandOut(s: State): State {
    s.(mem := s.mem.(allocate := NextIndex(s.mem.allocate, s.mem.N())),
       hist := s.hist.(handed := s.hist.handed + 1, claiming := false),
       producer := PIdle)
  }

  /** The page has its length; an allocation is completed by it if it has been made. */
  function StoreLength(s: State, length: nat): State
    requires s.hist.pending.Some? && s.mem.N() > 0
  {
    var c := s.hist.pending.value;
    var p := Slot(c, s.mem.N());
    s.(mem := s.mem.(pages := s.mem.pages[p := s.mem.pages[p].(length := length)]),
       hist := s.hist.(completed := Completed(s.hist, c, Message(length, s.mem.pages[p].payload)), pending := None),
       producer := Publish(s.mem.write))
  }

  function Completed(h: History, c: nat, message: Message): map<nat, Message> {
    if c < h.handed then h.completed[c := message] else h.completed
  }

  function PublishOne(s: State, i: nat): State
    requires i < s.mem.N()
  {
    if i == s.mem.allocate || s.mem.pages[i].status != PAGE_STATUS_WRITE_DONE then s.(producer := PIdle)
    else s.(mem := s.mem.(write := NextIndex(s.mem.write, s.mem.N())),
            hist := s.hist.(published := s.hist.published + 1),
            producer := Publish(NextIndex(i, s.mem.N())))
  }

  /** The indices address pages of the ring and the consumer's counters are in order. */
  predicate InRange(s: State) {
    && s.hist.freed <= s.hist.taken <= s.hist.published
    && s.mem.allocate < s.mem.N() && s.mem.read < s.mem.N()
    && (s.producer.Publish? ==> s.producer.i < s.mem.N())
    && (s.producer.DoneLength? ==> s.hist.pending.Some?)
  }

  function ProducerStep(s: State, call: ProducerCall): State
    requires InRange(s)
  {
    match s.producer
    case PIdle => BeginCall(s, call)
    case AllocCompare => s.(producer := if s.mem.allocate > s.mem.free then AllocAhead else AllocBehind)
    case AllocAhead => s.(producer := AllocClaim((s.mem.N() - s.mem.allocate + s.mem.free - 1) % TWO_32))
    case AllocBehind => s.(producer := AllocClaim((s.mem.free - s.mem.allocate - 1) % TWO_32))
    case AllocClaim(available) => Claim(s, available)
    case AllocAdvance => HandOut(s)
    case DoneLength(length) => StoreLength(s, length)
    case Publish(i) => PublishOne(s, i)
  }

  // ---------------------------------------------------------------- steps of the consumer

  function ReadAvailable(m: Memory): int {
    if m.write - m.read < 0 then m.write - m.read + m.N() else m.write - m.read
  }

  function TakePage(s: State, length: nat): State
    requires s.mem.read < s.mem.N()
  {
    s.(mem := s.mem.(read := NextIndex(s.mem.read, s.mem.N())),
       hist := s.hist.(taken := s.hist.taken + 1),
       delivered := s.delivered + [Delivery(s.hist.taken, s.mem.read, Message(length, s.mem.pages[s.mem.read].payload))],
       consumer := CIdle)
  }

  /** read_done compares the successor of the free index with the read index. */
  predicate FreesOne(s: State) {
    s.mem.read == NextIndex(s.mem.free, s.mem.N())
  }

  function FreePage(s: State): State {
    if !FreesOne(s) then s
    else s.(mem := s.mem.(free := NextIndex(s.mem.free, s.mem.N())),
            hist := s.hist.(freed := s.hist.taken))
  }

  function ConsumerStep(s: State, call: ConsumerCall): State
    requires InRange(s)
  {
    match s.consumer
    case CIdle => (
      match call
      case ReadGet => if ReadAvailable(s.mem) == 0 then s else s.(consumer := GetStatus)
      case ReadDone => FreePage(s)
      case ReadFlush => s.(mem := s.mem.(read := s.mem.write),
                           hist := s.hist.(taken := s.hist.published),
                           skipped := s.skipped + (s.hist.published - s.hist.taken),
                           consumer := FlushFree))
    case GetStatus =>
      if s.mem.pages[s.mem.read].status != PAGE_STATUS_WRITE_DONE then s.(consumer := CIdle) else s.(consumer := GetLength)
    case GetLength => s.(consumer := GetAdvance(s.mem.pages[s.mem.read].length))
    case GetAdvance(length) => TakePage(s, length)
    case FlushFree => s.(mem := s.mem.(free := s.mem.read), hist := s.hist.(freed := s.hist.taken), consumer := CIdle)
  }

  /** A peer passes some published pages and frees some of those it has passed. */
  function PeerStep(s: State, passed: nat, returned: nat): State
    requires s.mem.N() > 0
  {
    var taken, freed := s.hist.taken + passed, s.hist.freed + returned;
    if !s.consumer.CIdle? || taken > s.hist.published || freed > taken then s
    else s.(mem := s.mem.(read := Slot(taken, s.mem.N()), free := Slot(freed, s.mem.N())),
            hist := s.hist.(taken := taken, freed := freed),
            skipped := s.skipped + passed)
  }

  /** Who holds the address of a page marked ALLOC may change its payload: the client it was handed to,
      or one that still holds it from an earlier session. */
  function ClientStep(s: State, page: nat, payload: seq<int>): State {
    if page < s.mem.N() && s.mem.pages[page].status == PAGE_STATUS_ALLOC
    then s.(mem := s.mem.(pages := s.mem.pages[page := s.mem.pages[page].(payload := payload)]))
    else s
  }

  // ---------------------------------------------------------------- invariant

  ghost predicate ProducerInv(s: State)
    requires s.mem.N() > 0
  {
    var m, h := s.mem, s.hist;
    && (h.claiming <==> s.producer.AllocAdvance?)
    && (h.pending.Some? <==> s.producer.DoneLength?)
    && (!s.producer.Publish? && !s.producer.DoneLength? ==> h.published !in h.completed)
    && match s.producer
       case PIdle => true
       case AllocCompare => m.N() >= 2
       case AllocAhead => h.handed - h.freed <= m.allocate
       case AllocBehind => m.N() >= 2 && (m.allocate + 1 < m.N() || h.freed == h.handed)
       case AllocClaim(available) => available != 0 ==> h.handed - h.freed < m.N() - 1
       case AllocAdvance => h.handed - h.freed < m.N() - 1 && m.pages[Slot(h.handed, m.N())].status == PAGE_STATUS_ALLOC
       case DoneLength(length) => true
       case Publish(i) => i == m.write
  }

  ghost predicate ConsumerInv(s: State) {
    match s.consumer
    case CIdle => true
    case GetStatus => s.hist.taken < s.hist.published
    case GetLength => s.hist.taken < s.hist.published
    case GetAdvance(length) =>
      s.hist.taken < s.hist.published && s.hist.taken in s.hist.completed && length == s.hist.completed[s.hist.taken].length
    case FlushFree => true
  }

  /** What read_get returned so far: each entry is the page and the message of its allocation,
      entries follow the order of allocation, and every page taken since the start was delivered, flushed
      or passed by a peer. */
  ghost predicate DeliveredInv(s: State)
    requires s.mem.N() > 0
  {
    && s.start <= s.hist.taken
    && |s.delivered| + s.skipped == s.hist.taken - s.start
    && (forall j :: 0 <= j < |s.delivered| ==>
          var d := s.delivered[j];
          && s.start + j <= d.counter < s.hist.taken
          && d.page == Slot(d.counter, s.mem.N())
          && d.counter in s.hist.completed && d.message == s.hist.completed[d.counter])
    && (forall j, k :: 0 <= j < k < |s.delivered| ==> s.delivered[j].counter < s.delivered[k].counter)
    && (s.skipped == 0 ==> forall j :: 0 <= j < |s.delivered| ==> s.delivered[j].counter == s.start + j)
  }

  ghost predicate Inv(s: State) {
    0 < s.mem.N() < TWO_32 && RingInv(s.mem, s.hist) && ProducerInv(s) && ConsumerInv(s) && DeliveredInv(s)
  }

  /** Only pages handed out are marked ALLOC. */
  ghost predicate Clean(s: State) {
    s.mem.N() > 0 && NoStaleAlloc(s.mem, s.hist)
  }

  /** The producer has registered: it has set `allocate` to `write` and left `read` and `free` where
      the peer has them, so pages published in an earlier session may still be unread or not freed.
      The consumer may be anywhere in a call. */
  ghost predicate Registered(s: State) {
    && 0 < s.mem.N() < TWO_32
    && RegisteredMemory(s.mem, s.hist)
    && s.producer.PIdle? && ConsumerInv(s)
    && s.start == s.hist.taken && s.delivered == [] && s.skipped == 0
  }

  /** The window holds exactly the published pages that are not freed, each with its message. */
  ghost predicate RegisteredMemory(m: Memory, h: History) {
    && Ordered(m, h) && h.handed == h.published && h.pending == None && !h.claiming
    && (forall c: nat :: c in h.completed <==> h.freed <= c < h.published)
    && (forall c: nat :: h.freed <= c < h.published ==>
          m.pages[Slot(c, m.N())] == Page(PAGE_STATUS_WRITE_DONE, h.completed[c].length, h.completed[c].payload))
  }

  lemma RegisteredInv(s: State)
    requires Registered(s)
    ensures Inv(s)
    ensures Unmarked(s.mem) ==> Clean(s)
  {
  }

  // ---------------------------------------------------------------- starting from shared memory

  /** How far b is ahead of a on a ring of n pages. */
  function Ahead(a: nat, b: nat, n: nat): (d: nat)
    requires a < n && b < n
    ensures d < n
  {
    if a <= b then b - a else b + n - a
  }

  /** What a registering producer may find: `read` stands between `free` and `write`, and the pages
      from `free` up to `write` are WRITE_DONE. */
  predicate Resumable(m: Memory) {
    && m.allocate == m.write < m.N() && m.read < m.N() && m.free < m.N()
    && Ahead(m.free, m.read, m.N()) <= Ahead(m.free, m.write, m.N())
    && forall c: nat :: m.free <= c < m.free + Ahead(m.free, m.write, m.N()) ==>
         m.pages[Slot(c, m.N())].status == PAGE_STATUS_WRITE_DONE
  }

  /** The counters and messages that such a memory stands for. */
  ghost function HistoryOf(m: Memory): History
    requires Resumable(m)
  {
    var n := m.N();
    var published := m.free + Ahead(m.free, m.write, n);
    History(m.free, m.free + Ahead(m.free, m.read, n), published, published,
            map c: nat | m.free <= c < published :: Message(m.pages[Slot(c, n)].length, m.pages[Slot(c, n)].payload),
            None, false)
  }

  lemma {:induction false} SlotOfSmall(c: nat, n: nat)
    requires c < n
    ensures Slot(c, n) == c
  {
    if c > 0 {
      SlotOfSmall(c - 1, n);
    }
  }

  /** Every memory a registering producer may find starts a session. */
  lemma ResumableIsRegistered(m: Memory)
    requires Resumable(m)
    ensures RegisteredMemory(m, HistoryOf(m))
  {
    var n, h := m.N(), HistoryOf(m);
    SlotOfSmall(m.free, n);
    SlotGap(h.freed, h.taken, n);
    SlotGap(h.freed, h.published, n);
  }

  // ---------------------------------------------------------------- every step keeps it

  lemma BeginAllocKeeps(s: State)
    requires Inv(s) && s.producer.PIdle?
    ensures Inv(BeginCall(s, WriteAlloc))
    ensures Clean(s) ==> Clean(BeginCall(s, WriteAlloc))
  {
    if s.mem.allocate == s.mem.free {
      assert s.hist.handed == s.hist.freed by { SlotGap(s.hist.freed, s.hist.handed, s.mem.N()); }
    }
  }

  /** A page that write_done accepts is none of those completed and not freed; in a clean session it was
      handed out. */
  lemma AcceptedIsNotDone(s: State, page: nat, length: nat)
    requires Inv(s) && s.producer.PIdle? && Accepts(s, page, length)
    ensures var c := CounterOf(page, s.hist.published, s.mem.N());
            && s.hist.published <= c < s.hist.freed + s.mem.N() && c !in s.hist.completed && Slot(c, s.mem.N()) == page
            && (Clean(s) ==> c < s.hist.handed)
  {
    var n := s.mem.N();
    CounterOfSlot(page, s.hist.published, n);
    CounterOfSlot(page, s.hist.freed, n);
    var c := CounterOf(page, s.hist.freed, n);
  }

  /** Marking an accepted page leaves a ring with one page half completed. */
  lemma MarkedDoneRing(s: State, page: nat, length: nat)
    requires Inv(s) && s.producer.PIdle? && Accepts(s, page, length)
    ensures var t := BeginCall(s, WriteDone(page, length)); RingInv(t.mem, t.hist) && (Clean(s) ==> Clean(t))
  {
    AcceptedIsNotDone(s, page, length);
    hide DeliveredInv, ConsumerInv, CounterOf;
    StoreElsewhere(s.hist.freed, CounterOf(page, s.hist.published, s.mem.N()), s.mem.N(), s.mem.pages,
                   s.mem.pages[page].(status := PAGE_STATUS_WRITE_DONE));
  }

  lemma BeginDoneKeeps(s: State, page: nat, length: nat)
    requires Inv(s) && s.producer.PIdle?
    ensures Inv(BeginCall(s, WriteDone(page, length)))
    ensures Clean(s) ==> Clean(BeginCall(s, WriteDone(page, length)))
    ensures Accepts(s, page, length) ==>
              var c := CounterOf(page, s.hist.published, s.mem.N());
              && s.hist.published <= c < s.hist.freed + s.mem.N() && c !in s.hist.completed && Slot(c, s.mem.N()) == page
              && (Clean(s) ==> c < s.hist.handed)
  {
    if Accepts(s, page, length) {
      AcceptedIsNotDone(s, page, length);
      MarkedDoneRing(s, page, length);
      hide RingInv, DeliveredInv, Clean, CounterOf;
      SkippedKeeps(s, BeginCall(s, WriteDone(page, length)), 0);
    }
  }

  lemma AllocReadsKeep(s: State, call: ProducerCall)
    requires Inv(s) && (s.producer.AllocCompare? || s.producer.AllocAhead? || s.producer.AllocBehind?)
    ensures Inv(ProducerStep(s, call))
    ensures Clean(s) ==> Clean(ProducerStep(s, call))
  {
    hide WindowPages, NoStaleAlloc, DeliveredInv, ConsumerInv;
    SlotGap(s.hist.freed, s.hist.handed, s.mem.N());
    SameDelivered(s, ProducerStep(s, call));
  }

  /** The consumer's side does not look at where the producer stands. */
  lemma SameDelivered(s: State, t: State)
    requires s.mem.N() > 0 && t == s.(producer := t.producer)
    ensures DeliveredInv(s) <==> DeliveredInv(t)
    ensures ConsumerInv(s) <==> ConsumerInv(t)
  {
  }

  lemma ClaimKeeps(s: State, available: int)
    requires Inv(s) && s.producer == AllocClaim(available)
    ensures Inv(Claim(s, available))
    ensures Clean(s) ==> Clean(Claim(s, available))
  {
    hide DeliveredInv;
    var t := Claim(s, available);
    SkippedKeeps(s, t, 0);
    if available != 0 {
      MarkedRing(s);
      hide RingInv, WindowPages, NoStaleAlloc;
    }
  }

  /** Marking the page next to the window leaves a ring that is being claimed. */
  lemma MarkedRing(s: State)
    requires Inv(s) && s.producer.AllocClaim? && s.hist.handed - s.hist.freed < s.mem.N() - 1
    ensures RingInv(Claim(s, 1).mem, Claim(s, 1).hist)
    ensures Clean(s) ==> Clean(Claim(s, 1))
  {
    assert s.hist.pending == None && !s.hist.claiming;
    hide ProducerInv, ConsumerInv, DeliveredInv;
    StoreElsewhere(s.hist.freed, s.hist.handed, s.mem.N(), s.mem.pages,
                   s.mem.pages[s.mem.allocate].(status := PAGE_STATUS_ALLOC));
  }

  lemma HandOutKeeps(s: State)
    requires Inv(s) && s.producer.AllocAdvance?
    ensures Inv(HandOut(s))
    ensures Clean(s) ==> Clean(HandOut(s))
  {
    assert Slot(s.hist.handed + 1, s.mem.N()) == NextIndex(s.mem.allocate, s.mem.N());
  }

  lemma StoreLengthKeeps(s: State, length: nat)
    requires Inv(s) && s.producer == DoneLength(length)
    ensures Inv(StoreLength(s, length))
    ensures Clean(s) ==> Clean(StoreLength(s, length))
  {
    hide DeliveredInv;
    var p := Slot(s.hist.pending.value, s.mem.N());
    StoreElsewhere(s.hist.freed, s.hist.pending.value, s.mem.N(), s.mem.pages, s.mem.pages[p].(length := length));
    SkippedKeeps(s, StoreLength(s, length), 0);
  }

  /** Stale pages are a matter of the pages and the two ends of the window. */
  lemma SameStale(m: Memory, h: History, m': Memory, h': History)
    requires m.N() > 0 && m'.pages == m.pages && NoStaleAlloc(m, h)
    requires h'.freed == h.freed && h'.handed == h.handed && h'.claiming == h.claiming && h'.pending == h.pending
    ensures NoStaleAlloc(m', h')
  {
    var n := m.N();
    forall c: nat | h.handed <= c < h.freed + n && !(h.claiming && c == h.handed)
      ensures m'.pages[Slot(c, n)].status != PAGE_STATUS_ALLOC
    {
      assert m.pages[Slot(c, n)].status != PAGE_STATUS_ALLOC;
    }
  }

  /** The page at the write index is WRITE_DONE exactly if it is completed. */
  lemma FrontStatus(s: State)
    requires Inv(s) && s.producer.Publish? && s.hist.published < s.hist.handed
    ensures s.mem.pages[s.mem.write].status == PAGE_STATUS_WRITE_DONE <==> s.hist.published in s.hist.completed
  {
  }

  /** Publishing a completed page leaves the pages of the window as they are. */
  lemma SameWindow(m: Memory, h: History, m': Memory, h': History)
    requires m.N() > 0 && m'.pages == m.pages && WindowPages(m, h) && h.pending == None
    requires h' == h.(published := h'.published)
    requires h'.published == h.published || (h'.published == h.published + 1 && h.published in h.completed)
    ensures WindowPages(m', h')
  {
    hide Slot;
  }

  lemma PublishKeepsClean(s: State, i: nat)
    requires InRange(s) && s.producer == Publish(i) && Clean(s)
    ensures Clean(PublishOne(s, i))
  {
    SameStale(s.mem, s.hist, PublishOne(s, i).mem, PublishOne(s, i).hist);
  }

  /** A turn of the publish loop stops at the allocate index or a page not completed. */
  lemma PublishMoves(s: State, i: nat)
    requires Inv(s) && s.producer == Publish(i)
    ensures var t := PublishOne(s, i);
            && Ordered(t.mem, t.hist) && ProducerInv(t) && ConsumerInv(t)
            && t.hist == s.hist.(published := t.hist.published)
            && (t.hist.published == s.hist.published
                || (t.hist.published == s.hist.published + 1 && s.hist.published in s.hist.completed))
  {
    if s.hist.published < s.hist.handed {
      FrontStatus(s);
    }
    hide DeliveredInv, WindowPages;
    if i == s.mem.allocate {
      assert s.hist.handed == s.hist.published by { SlotGap(s.hist.published, s.hist.handed, s.mem.N()); }
    } else {
      assert s.hist.published < s.hist.handed;
      assert Slot(s.hist.published + 1, s.mem.N()) == NextIndex(s.mem.write, s.mem.N());
    }
  }

  lemma PublishKeeps(s: State, i: nat)
    requires Inv(s) && s.producer == Publish(i)
    ensures Inv(PublishOne(s, i))
    ensures Clean(s) ==> Clean(PublishOne(s, i))
  {
    PublishMoves(s, i);
    if Clean(s) {
      PublishKeepsClean(s, i);
    }
    hide DeliveredInv, Clean, WindowPages, Ordered, ProducerInv, ConsumerInv;
    var t := PublishOne(s, i);
    SkippedKeeps(s, t, 0);
    assert s.hist.pending == None;
    SameWindow(s.mem, s.hist, t.mem, t.hist);
  }

  lemma ProducerKeeps(s: State, call: ProducerCall)
    requires Inv(s)
    ensures Inv(ProducerStep(s, call))
    ensures Clean(s) ==> Clean(ProducerStep(s, call))
  {
    match s.producer
    case PIdle =>
      match call {
        case WriteAlloc => BeginAllocKeeps(s);
        case WriteDone(page, length) => BeginDoneKeeps(s, page, length);
      }
    case AllocClaim(available) => ClaimKeeps(s, available);
    case AllocAdvance => HandOutKeeps(s);
    case DoneLength(length) => StoreLengthKeeps(s, length);
    case Publish(i) => PublishKeeps(s, i);
    case _ => AllocReadsKeep(s, call);
  }

  /** read_done finds the successor of `free` at `read` exactly when one page is outstanding. */
  lemma FreesExactlyOne(s: State)
    requires Inv(s)
    ensures FreesOne(s) <==> s.hist.taken == s.hist.freed + 1 || s.mem.N() == 1
  {
    SlotGap(s.hist.freed, s.hist.taken, s.mem.N());
  }

  /** The consumer sees zero pages exactly when it has taken everything published. */
  lemma ReadAvailableIsExact(s: State)
    requires Inv(s)
    ensures ReadAvailable(s.mem) == s.hist.published - s.hist.taken
  {
    SlotGap(s.hist.taken, s.hist.published, s.mem.N());
  }

  /** Freeing pages only shrinks the window and gives the producer room. */
  lemma FreeingKeeps(s: State, t: State)
    requires Inv(s)
    requires s.hist.freed <= t.hist.freed <= s.hist.taken
    requires t.mem.free == Slot(t.hist.freed, s.mem.N())
    requires t == s.(mem := s.mem.(free := t.mem.free), hist := s.hist.(freed := t.hist.freed), consumer := CIdle)
    ensures Inv(t)
    ensures Clean(s) ==> Clean(t)
  {
    ConsumerMovedKeeps(s.mem, s.hist, t.mem, t.hist);
  }

  /** Taking a page delivers the message of its allocation. */
  lemma TakeDelivers(s: State, length: nat)
    requires Inv(s) && s.consumer == GetAdvance(length)
    ensures DeliveredInv(TakePage(s, length))
  {
    assert s.mem.read == Slot(s.hist.taken, s.mem.N());
    assert s.mem.pages[s.mem.read].payload == s.hist.completed[s.hist.taken].payload;
    hide RingInv, ProducerInv, Slot;
  }

  lemma TakeKeeps(s: State, length: nat)
    requires Inv(s) && s.consumer == GetAdvance(length)
    ensures Inv(TakePage(s, length))
    ensures Clean(s) ==> Clean(TakePage(s, length))
  {
    TakeDelivers(s, length);
    hide NoStaleAlloc, DeliveredInv;
    var t := TakePage(s, length);
    if Clean(s) {
      SameStale(s.mem, s.hist, t.mem, t.hist);
    }
    assert Slot(s.hist.taken + 1, s.mem.N()) == NextIndex(s.mem.read, s.mem.N());
  }

  lemma ReadDoneKeeps(s: State)
    requires Inv(s) && s.consumer.CIdle?
    ensures Inv(FreePage(s))
    ensures Clean(s) ==> Clean(FreePage(s))
  {
    FreesExactlyOne(s);
    if FreesOne(s) {
      if s.hist.taken == s.hist.freed + 1 {
        assert Slot(s.hist.freed + 1, s.mem.N()) == NextIndex(s.mem.free, s.mem.N());
      }
      FreeingKeeps(s, FreePage(s));
    }
  }

  lemma ReadFlushKeeps(s: State)
    requires Inv(s) && s.consumer.CIdle?
    ensures Inv(ConsumerStep(s, ReadFlush))
    ensures Clean(s) ==> Clean(ConsumerStep(s, ReadFlush))
  {
  }

  lemma ConsumerCallKeeps(s: State, call: ConsumerCall)
    requires Inv(s) && s.consumer.CIdle?
    ensures Inv(ConsumerStep(s, call))
    ensures Clean(s) ==> Clean(ConsumerStep(s, call))
  {
    match call
    case ReadGet => ReadAvailableIsExact(s);
    case ReadDone => ReadDoneKeeps(s);
    case ReadFlush => ReadFlushKeeps(s);
  }

  lemma FlushFreeKeeps(s: State, call: ConsumerCall)
    requires Inv(s) && s.consumer.FlushFree?
    ensures Inv(ConsumerStep(s, call))
    ensures Clean(s) ==> Clean(ConsumerStep(s, call))
  {
    FreeingKeeps(s, ConsumerStep(s, call));
  }

  lemma ConsumerKeeps(s: State, call: ConsumerCall)
    requires Inv(s)
    ensures Inv(ConsumerStep(s, call))
    ensures Clean(s) ==> Clean(ConsumerStep(s, call))
  {
    match s.consumer
    case CIdle => ConsumerCallKeeps(s, call);
    case GetAdvance(length) => TakeKeeps(s, length);
    case FlushFree => FlushFreeKeeps(s, call);
    case _ =>
  }

  lemma PeerKeeps(s: State, passed: nat, returned: nat)
    requires Inv(s)
    ensures Inv(PeerStep(s, passed, returned))
    ensures Clean(s) ==> Clean(PeerStep(s, passed, returned))
  {
    hide WindowPages, NoStaleAlloc, DeliveredInv;
    var t := PeerStep(s, passed, returned);
    if t != s {
      ConsumerMovedKeeps(s.mem, s.hist, t.mem, t.hist);
      SkippedKeeps(s, t, passed);
    }
  }

  /** Passing pages without delivering them leaves the deliveries as they are. */
  lemma SkippedKeeps(s: State, t: State, passed: nat)
    requires s.mem.N() > 0 && DeliveredInv(s)
    requires t.mem.N() == s.mem.N() && t.delivered == s.delivered && t.start == s.start
    requires t.hist.taken == s.hist.taken + passed && t.skipped == s.skipped + passed
    requires forall c: nat :: c in s.hist.completed ==> c in t.hist.completed && t.hist.completed[c] == s.hist.completed[c]
    ensures DeliveredInv(t)
  {
  }

  /** Filling a page marked ALLOC changes no page whose message is recorded. */
  lemma FilledRing(s: State, page: nat, payload: seq<int>)
    requires Inv(s) && page < s.mem.N() && s.mem.pages[page].status == PAGE_STATUS_ALLOC
    ensures var t := ClientStep(s, page, payload); RingInv(t.mem, t.hist) && (Clean(s) ==> Clean(t))
  {
    var n := s.mem.N();
    CounterOfSlot(page, s.hist.freed, n);
    var c := CounterOf(page, s.hist.freed, n);
    assert c !in s.hist.completed || s.hist.handed <= c;
    hide DeliveredInv, ConsumerInv, ProducerInv, CounterOf;
    StoreElsewhere(s.hist.freed, c, n, s.mem.pages, s.mem.pages[page].(payload := payload));
  }

  lemma ClientKeeps(s: State, page: nat, payload: seq<int>)
    requires Inv(s)
    ensures Inv(ClientStep(s, page, payload))
    ensures Clean(s) ==> Clean(ClientStep(s, page, payload))
  {
    if page < s.mem.N() && s.mem.pages[page].status == PAGE_STATUS_ALLOC {
      FilledRing(s, page, payload);
      hide RingInv, Clean, DeliveredInv;
      SkippedKeeps(s, ClientStep(s, page, payload), 0);
    }
  }

  // ---------------------------------------------------------------- every interleaving

  function Step(s: State, choice: Choice): State
    requires InRange(s)
  {
    match choice
    case ProducerMoves(call) => ProducerStep(s, call)
    case ConsumerMoves(call) => ConsumerStep(s, call)
    case PeerMoves(passed, returned) => PeerStep(s, passed, returned)
    case ClientFills(page, payload) => ClientStep(s, page, payload)
  }

  /** A peer may pass any of the published pages and free any of those passed; it does nothing else. */
  lemma PeerMayMove(s: State, passed: nat, returned: nat)
    requires Inv(s) && s.consumer.CIdle?
    ensures var t := Step(s, PeerMoves(passed, returned));
            if s.hist.taken + passed <= s.hist.published && s.hist.freed + returned <= s.hist.taken + passed
            then t == s.(mem := s.mem.(read := t.mem.read, free := t.mem.free),
                         hist := s.hist.(taken := s.hist.taken + passed, freed := s.hist.freed + returned),
                         skipped := s.skipped + passed)
            else t == s
  {
  }

  lemma StepKeeps(s: State, choice: Choice)
    requires Inv(s)
    ensures Inv(Step(s, choice))
    ensures Clean(s) ==> Clean(Step(s, choice))
  {
    match choice
    case ProducerMoves(call) => ProducerKeeps(s, call);
    case ConsumerMoves(call) => ConsumerKeeps(s, call);
    case PeerMoves(passed, returned) => PeerKeeps(s, passed, returned);
    case ClientFills(page, payload) => ClientKeeps(s, page, payload);
  }

  /** The state after a schedule: any interleaving of the two ends and the client. */
  ghost function Exec(s: State, schedule: seq<Choice>): (t: State)
    requires Inv(s)
    ensures Inv(t)
  {
    if schedule == [] then s
    else
      var before := Exec(s, schedule[..|schedule| - 1]);
      StepKeeps(before, schedule[|schedule| - 1]);
      Step(before, schedule[|schedule| - 1])
  }

  lemma ExecAppend(s: State, schedule: seq<Choice>, choice: Choice)
    requires Inv(s)
    ensures InRange(Exec(s, schedule)) && Exec(s, schedule + [choice]) == Step(Exec(s, schedule), choice)
  {
    InvInRange(Exec(s, schedule));
    hide Step;
    assert (schedule + [choice])[..|schedule|] == schedule;
  }

  /** In every interleaving: F <= R <= W <= A <= F + N - 1, every index is its counter modulo N,
      every page of [F, W) is WRITE_DONE, and between calls page W is ALLOC whenever W < A. */
  lemma EveryInterleaving(s: State, schedule: seq<Choice>)
    requires Registered(s)
    ensures Inv(s)
    ensures var t := Exec(s, schedule);
            var h, m := t.hist, t.mem;
            var n := m.N();
            && n > 0
            && h.freed <= h.taken <= h.published <= h.handed <= h.freed + n - 1
            && m.free == h.freed % n && m.read == h.taken % n && m.write == h.published % n && m.allocate == h.handed % n
            && (forall c: nat :: h.freed <= c < h.published ==> m.pages[Slot(c, n)].status == PAGE_STATUS_WRITE_DONE)
            && (t.producer.PIdle? && h.published < h.handed ==> m.pages[m.write].status == PAGE_STATUS_ALLOC)
  {
    RegisteredInv(s);
    var t := Exec(s, schedule);
    SlotIsRemainder(t.hist.freed, t.mem.N());
    SlotIsRemainder(t.hist.taken, t.mem.N());
    SlotIsRemainder(t.hist.published, t.mem.N());
    SlotIsRemainder(t.hist.handed, t.mem.N());
  }

  /** The choice is no flush, and the consumer is this library. */
  predicate OnlyReads(choice: Choice) {
    choice != ConsumerMoves(ReadFlush) && !choice.PeerMoves?
  }

  /** The consumer only calls read_get and read_done. */
  ghost predicate NoFlush(schedule: seq<Choice>) {
    forall i :: 0 <= i < |schedule| ==> OnlyReads(schedule[i])
  }

  /** What read_get returned is a prefix of the order of allocation from `start` on: the j-th
      delivery is the page of the j-th allocation, with the message given to its write_done. */
  ghost predicate InAllocationOrder(t: State, start: nat, n: nat)
    requires n > 0
  {
    && |t.delivered| == t.hist.taken - start
    && forall j :: 0 <= j < |t.delivered| ==>
         && t.delivered[j].counter == start + j
         && t.delivered[j].page == Slot(start + j, n)
         && start + j in t.hist.completed
         && t.delivered[j].message == t.hist.completed[start + j]
  }

  /** Whatever the order of completions, as long as the consumer does not flush, deliveries are
      exactly the allocations in order, each once. */
  lemma DeliveredInOrder(s: State, schedule: seq<Choice>)
    requires Registered(s) && NoFlush(schedule)
    ensures Inv(s) && InAllocationOrder(Exec(s, schedule), s.start, s.mem.N())
  {
    RegisteredInv(s);
    NothingSkipped(s, schedule);
    InOrder(Exec(s, schedule), s.start, s.mem.N());
  }

  lemma InOrder(t: State, start: nat, n: nat)
    requires n > 0 && t.mem.N() == n && DeliveredInv(t) && t.skipped == 0 && t.start == start
    ensures InAllocationOrder(t, start, n)
  {
    forall j | 0 <= j < |t.delivered|
      ensures t.delivered[j].counter == start + j && t.delivered[j].page == Slot(start + j, n)
      ensures start + j in t.hist.completed && t.delivered[j].message == t.hist.completed[start + j]
    {
      var d := t.delivered[j];
      assert d.counter == start + j;
    }
  }

  /** The same session, with the same number of pages flushed. */
  ghost predicate SameSkipped(s: State, t: State) {
    t.skipped == s.skipped && t.start == s.start && t.mem.N() == s.mem.N()
  }

  lemma InvInRange(s: State)
    requires Inv(s)
    ensures InRange(s)
  {
  }

  lemma SkipsOnlyByFlush(s: State, choice: Choice)
    requires Inv(s) && OnlyReads(choice)
    ensures SameSkipped(s, Step(s, choice))
  {
    InvInRange(s);
    hide Inv, CounterOf, Slot;
  }

  lemma {:induction false} NothingSkipped(s: State, schedule: seq<Choice>)
    requires Inv(s) && NoFlush(schedule)
    ensures SameSkipped(s, Exec(s, schedule))
  {
    hide Inv, Step, RingInv, ProducerInv, ConsumerInv, DeliveredInv;
    if schedule != [] {
      var before, choice := Exec(s, schedule[..|schedule| - 1]), schedule[|schedule| - 1];
      assert SameSkipped(s, before) by { NothingSkipped(s, schedule[..|schedule| - 1]); }
      InvInRange(before);
      assert SameSkipped(before, Step(before, choice)) by { SkipsOnlyByFlush(before, choice); }
    }
  }

  /** With flushes and peers, deliveries are still in the order of allocation and each happens once;
      together with the pages flushed or passed they account for every page the read index has passed. */
  lemma DeliveredOrFlushed(s: State, schedule: seq<Choice>)
    requires Registered(s)
    ensures Inv(s)
    ensures var t := Exec(s, schedule);
            && |t.delivered| + t.skipped == t.hist.taken - t.start
            && (forall j, k :: 0 <= j < k < |t.delivered| ==> t.delivered[j].counter < t.delivered[k].counter)
            && (forall j :: 0 <= j < |t.delivered| ==>
                  t.delivered[j].counter in t.hist.completed
                  && t.delivered[j].message == t.hist.completed[t.delivered[j].counter])
  {
    RegisteredInv(s);
  }

  /** What the producer and the clients leave alone, and what of theirs only grows. */
  ghost predicate ProducerFrame(s: State, t: State) {
    && t.consumer == s.consumer && t.delivered == s.delivered && t.skipped == s.skipped && t.start == s.start
    && t.pageSize == s.pageSize && t.mem.N() == s.mem.N()
    && t.mem.read == s.mem.read && t.mem.free == s.mem.free
    && t.hist.freed == s.hist.freed && t.hist.taken == s.hist.taken
    && s.hist.published <= t.hist.published && s.hist.handed <= t.hist.handed
    && forall c: nat :: c in s.hist.completed ==> c in t.hist.completed && t.hist.completed[c] == s.hist.completed[c]
  }

  /** What the consumer leaves alone, and what of its own only grows. */
  ghost predicate ConsumerFrame(s: State, t: State) {
    && t.producer == s.producer && t.start == s.start && t.pageSize == s.pageSize
    && t.mem == s.mem.(read := t.mem.read, free := t.mem.free)
    && t.hist == s.hist.(freed := t.hist.freed, taken := t.hist.taken)
    && s.hist.freed <= t.hist.freed && s.hist.taken <= t.hist.taken
  }

  lemma ProducerFrames(s: State, call: ProducerCall)
    requires InRange(s) && (s.producer.DoneLength? ==> s.hist.pending.value !in s.hist.completed)
    ensures ProducerFrame(s, ProducerStep(s, call))
  {
  }

  lemma ConsumerFrames(s: State, call: ConsumerCall)
    requires InRange(s)
    ensures ConsumerFrame(s, ConsumerStep(s, call))
  {
  }

  /** Nothing is undone by a step, and a completed allocation keeps the message it was given. */
  ghost predicate Grows(s: State, t: State) {
    && s.hist.freed <= t.hist.freed && s.hist.taken <= t.hist.taken
    && s.hist.published <= t.hist.published && s.hist.handed <= t.hist.handed
    && s.mem.N() == t.mem.N() && s.start == t.start
    && forall c: nat :: c in s.hist.completed ==> c in t.hist.completed && t.hist.completed[c] == s.hist.completed[c]
  }

  lemma StepGrows(s: State, choice: Choice)
    requires Inv(s)
    ensures Grows(s, Step(s, choice))
  {
    match choice
    case ProducerMoves(call) => ProducerFrames(s, call);
    case ConsumerMoves(call) => ConsumerFrames(s, call);
    case PeerMoves(_, _) =>
    case ClientFills(_, _) =>
  }

  lemma {:induction false} ExecGrows(s: State, schedule: seq<Choice>)
    requires Inv(s)
    ensures Grows(s, Exec(s, schedule))
  {
    if schedule != [] {
      ExecGrows(s, schedule[..|schedule| - 1]);
      StepGrows(Exec(s, schedule[..|schedule| - 1]), schedule[|schedule| - 1]);
    }
  }

  /** A page is never reused before it is freed: until then its status, length and payload stay
      what they were when it was published, whatever both ends and the clients do. */
  lemma PublishedPageIsStable(s: State, schedule: seq<Choice>, c: nat)
    requires Inv(s) && s.hist.freed <= c < s.hist.published
    ensures var t := Exec(s, schedule);
            c >= t.hist.freed ==> t.mem.N() == s.mem.N() && t.mem.pages[Slot(c, s.mem.N())] == s.mem.pages[Slot(c, s.mem.N())]
  {
    ExecGrows(s, schedule);
  }

  /** The page that write_alloc is handing out is none of the pages not yet freed. */
  lemma HandedOutPageIsFree(s: State, c: nat)
    requires Inv(s) && s.producer.AllocAdvance? && s.hist.freed <= c < s.hist.handed
    ensures Slot(c, s.mem.N()) != s.mem.allocate
  {
    SlotGap(c, s.hist.handed, s.mem.N());
  }

  /** write_done accepts exactly the pages handed out and not yet completed and those marked ALLOC without
      having been handed out, of which a clean session has none; a refused call changes nothing. */
  lemma AcceptsExactlyOutstanding(s: State, page: nat, length: nat)
    requires Inv(s) && s.producer.PIdle?
    ensures Accepts(s, page, length) <==>
            length <= s.pageSize && page < s.mem.N() && Acceptable(s.mem, s.hist, page)
    ensures Clean(s) && page < s.mem.N() ==> !Stale(s.mem, s.hist, page)
    ensures !Accepts(s, page, length) ==> Step(s, ProducerMoves(WriteDone(page, length))) == s
  {
    if Accepts(s, page, length) {
      AcceptedIsNotDone(s, page, length);
    }
  }

  lemma StaleCounter(s: State, page: nat)
    requires Inv(s) && s.producer.PIdle? && page < s.mem.N() && Stale(s.mem, s.hist, page)
    ensures CounterOf(page, s.hist.published, s.mem.N()) >= s.hist.handed
    ensures InRange(s) && s.mem.write < s.mem.N() && s.hist.pending == None
    ensures s.mem.write == s.mem.allocate || (s.mem.write != page && s.mem.pages[s.mem.write].status != PAGE_STATUS_WRITE_DONE)
  {
    CounterOfSlot(page, s.hist.published, s.mem.N());
  }

  lemma StaleSteps(s: State, page: nat, length: nat)
    requires InRange(s) && s.producer.PIdle? && Accepts(s, page, length) && s.hist.pending == None
    requires var c := CounterOf(page, s.hist.published, s.mem.N()); c >= s.hist.handed && Slot(c, s.mem.N()) == page
    requires s.mem.write < s.mem.N()
    requires s.mem.write == s.mem.allocate || (s.mem.write != page && s.mem.pages[s.mem.write].status != PAGE_STATUS_WRITE_DONE)
    ensures var done := ProducerMoves(WriteDone(page, length));
            && InRange(Step(s, done)) && InRange(Step(Step(s, done), done))
            && var t := Step(Step(Step(s, done), done), done);
               && t.producer.PIdle? && t.hist == s.hist && t.delivered == s.delivered
               && t.mem == s.mem.(pages := s.mem.pages[page := s.mem.pages[page].(status := PAGE_STATUS_WRITE_DONE, length := length)])
  {
    hide CounterOf, Slot;
  }

  /** Accepting a page that was not handed out completes no allocation and publishes nothing: after the
      call the page is WRITE_DONE, and the history is what it was. */
  lemma StaleCompletesNothing(s: State, page: nat, length: nat)
    requires Inv(s) && s.producer.PIdle? && Accepts(s, page, length) && Stale(s.mem, s.hist, page)
    ensures InRange(s)
    ensures var done := ProducerMoves(WriteDone(page, length));
            && InRange(Step(s, done)) && InRange(Step(Step(s, done), done))
            && var t := Step(Step(Step(s, done), done), done);
               && t.producer.PIdle? && t.hist == s.hist && t.delivered == s.delivered
               && t.mem == s.mem.(pages := s.mem.pages[page := s.mem.pages[page].(status := PAGE_STATUS_WRITE_DONE, length := length)])
  {
    AcceptedIsNotDone(s, page, length);
    StaleCounter(s, page);
    hide *;
    StaleSteps(s, page, length);
  }

  /** Completing an allocation a second time is refused for as long as its page is not freed. */
  lemma RepeatIsRefused(s: State, c: nat, length: nat)
    requires Inv(s) && s.producer.PIdle?
    requires s.hist.freed <= c < s.hist.handed && c in s.hist.completed
    ensures Step(s, ProducerMoves(WriteDone(Slot(c, s.mem.N()), length))) == s
  {
  }

  /** write_done accepts only pages that were handed out. */
  ghost predicate Exact(s: State) {
    s.mem.N() > 0 && forall page: nat, length: nat ::
      Accepts(s, page, length) ==> Outstanding(s.hist, page, s.mem.N())
  }

  /** That holds in every state of a session exactly when no page is marked ALLOC at its start. */
  lemma ExactFromCleanStart(s: State)
    requires Registered(s)
    ensures Inv(s)
    ensures Unmarked(s.mem) <==> forall schedule :: var t := Exec(s, schedule); t.producer.PIdle? ==> Exact(t)
  {
    RegisteredInv(s);
    if Unmarked(s.mem) {
      forall schedule | Exec(s, schedule).producer.PIdle?
        ensures Exact(Exec(s, schedule))
      {
        StaysClean(s, schedule);
        AllAcceptedOutstanding(Exec(s, schedule));
      }
    } else {
      assert Exec(s, []) == s;
      var p :| 0 <= p < s.mem.N() && s.mem.pages[p].status == PAGE_STATUS_ALLOC;
      assert Accepts(s, p, 0) && !Outstanding(s.hist, p, s.mem.N());
      assert !Exact(Exec(s, []));
    }
  }

  /** A session that starts clean stays clean. */
  lemma {:induction false} StaysClean(s: State, schedule: seq<Choice>)
    requires Inv(s) && Clean(s)
    ensures Clean(Exec(s, schedule))
  {
    hide Inv, Clean, Step;
    if schedule != [] {
      StaysClean(s, schedule[..|schedule| - 1]);
      StepKeeps(Exec(s, schedule[..|schedule| - 1]), schedule[|schedule| - 1]);
    }
  }

  lemma AllAcceptedOutstanding(s: State)
    requires Inv(s) && Clean(s) && s.producer.PIdle?
    ensures Exact(s)
  {
    forall page: nat, length: nat | Accepts(s, page, length)
      ensures Outstanding(s.hist, page, s.mem.N())
    {
      AcceptsExactlyOutstanding(s, page, length);
    }
  }

  /** read_done frees exactly when one page is outstanding, and then the free index meets the read
      index; otherwise it changes nothing. */
  lemma ReadDoneAcceptsExactlyOne(s: State)
    requires Inv(s) && s.consumer.CIdle?
    ensures var t := Step(s, ConsumerMoves(ReadDone));
            if s.hist.taken - s.hist.freed == 1 then t.hist.freed == t.hist.taken && t.mem.free == t.mem.read
            else t == s
  {
    FreesExactlyOne(s);
  }

  /** A call of read_flush takes everything published when it begins and frees everything taken when it ends. */
  lemma FlushEmpties(s: State, t: State)
    requires Inv(s) && s.consumer.CIdle? && Inv(t) && t.consumer.FlushFree?
    ensures var u := Step(s, ConsumerMoves(ReadFlush));
            && u.consumer.FlushFree? && u.hist.taken == s.hist.published && u.mem.read == s.mem.write
            && u.skipped == s.skipped + (s.hist.published - s.hist.taken) && u.delivered == s.delivered
    ensures forall call :: var u := Step(t, ConsumerMoves(call));
              u.consumer.CIdle? && u.hist.freed == t.hist.taken && u.mem.free == t.mem.read && u.hist.taken == t.hist.taken
  {
  }

  ghost predicate TwoOutstanding(s: State) {
    s.hist.taken - s.hist.freed >= 2 && !s.consumer.FlushFree?
  }

  lemma TwoStayOutstanding(s: State, choice: Choice)
    requires Inv(s) && TwoOutstanding(s) && OnlyReads(choice)
    ensures var t := Step(s, choice); TwoOutstanding(t) && t.hist.freed == s.hist.freed
  {
    match choice
    case ProducerMoves(call) => ProducerFrames(s, call);
    case ConsumerMoves(call) => FreesExactlyOne(s);
    case PeerMoves(_, _) =>
    case ClientFills(_, _) =>
  }

  /** Once two pages are outstanding, read_done is refused in every later state until a flush. */
  lemma {:induction false} ReadDoneStuck(s: State, schedule: seq<Choice>)
    requires Inv(s) && TwoOutstanding(s)
    requires NoFlush(schedule)
    ensures var t := Exec(s, schedule);
            && TwoOutstanding(t) && t.hist.freed == s.hist.freed
            && (t.consumer.CIdle? ==> FreePage(t) == t)
  {
    if schedule != [] {
      ReadDoneStuck(s, schedule[..|schedule| - 1]);
      TwoStayOutstanding(Exec(s, schedule[..|schedule| - 1]), schedule[|schedule| - 1]);
    }
    FreesExactlyOne(Exec(s, schedule));
  }

  /** The publish loop: while it runs, its cursor is the write index; every turn either leaves the
      loop or moves one page nearer to the allocate index; on leaving, the write index stands at the
      first allocation not completed. */
  lemma PublishLoopProgress(s: State, call: ProducerCall)
    requires Inv(s) && s.producer.Publish?
    ensures var t := Step(s, ProducerMoves(call));
            && s.producer.i == s.mem.write
            && t.hist.handed == s.hist.handed
            && if t.producer.Publish? then t.hist.handed - t.hist.published < s.hist.handed - s.hist.published
               else t.hist.published == s.hist.published && (s.hist.published < s.hist.handed ==> s.hist.published !in s.hist.completed)
  {
    StepKeeps(s, ProducerMoves(call));
  }

  /** write_alloc returns no page only when the ring was full at its last look at the free index,
      and claims one only when a page is free. */
  lemma AllocFailsOnlyWhenFull(s: State, call: ProducerCall)
    requires Inv(s) && ((s.producer.PIdle? && call.WriteAlloc?) || s.producer.AllocAhead? || s.producer.AllocBehind?)
    ensures var t := Step(s, ProducerMoves(call));
            t.producer.AllocClaim? ==> (t.producer.available == 0 <==> s.hist.handed - s.hist.freed == s.mem.N() - 1)
  {
    hide WindowPages, NoStaleAlloc, DeliveredInv, ConsumerInv;
    SlotGap(s.hist.freed, s.hist.handed, s.mem.N());
  }

  // ---------------------------------------------------------------- registering again

  /** Registering again sets `allocate` to `write`; pages handed out and not published are dropped, and a
      new session starts while the consumer goes on. */
  function Reregister(s: State): State {
    var h := s.hist;
    s.(mem := s.mem.(allocate := s.mem.write),
       hist := History(h.freed, h.taken, h.published, h.published,
                       map c | c in h.completed && h.freed <= c < h.published :: h.completed[c], None, false),
       producer := PIdle, delivered := [], start := h.taken, skipped := 0)
  }

  /** Whatever the sessions before, registering between two calls starts a session; it starts without a
      page marked ALLOC exactly if every page handed out had been published and no other page was marked. */
  lemma ReregisteredCleanExactly(s: State)
    requires Inv(s) && s.producer.PIdle?
    ensures Registered(Reregister(s))
    ensures Unmarked(Reregister(s).mem) <==> s.hist.published == s.hist.handed && Clean(s)
  {
    var n := s.mem.N();
    if s.hist.published < s.hist.handed {
      assert s.mem.pages[Slot(s.hist.published, n)].status == PAGE_STATUS_ALLOC;
    } else if Clean(s) {
      forall p | 0 <= p < n
        ensures s.mem.pages[p].status != PAGE_STATUS_ALLOC
      {
        CounterOfSlot(p, s.hist.freed, n);
      }
    }
  }

  /** A page that was handed out and not published stays acceptable to write_done in the next session,
      which has not handed it out. */
  lemma DroppedPageIsAccepted(s: State)
    requires Inv(s) && s.producer.PIdle? && s.hist.published < s.hist.handed
    ensures var t, p := Reregister(s), Slot(s.hist.published, s.mem.N());
            Registered(t) && Accepts(t, p, 0) && !Outstanding(t.hist, p, s.mem.N()) && !Exact(t)
  {
    ReregisteredCleanExactly(s);
    var t, p := Reregister(s), Slot(s.hist.published, s.mem.N());
    assert Accepts(t, p, 0) && !Outstanding(t.hist, p, s.mem.N());
  }

  // ---------------------------------------------------------------- runs that reach these states

  /** Some run without flushes leads from s to t. */
  ghost predicate Reaches(s: State, t: State)
    requires Inv(s)
  {
    exists schedule :: NoFlush(schedule) && Exec(s, schedule) == t
  }

  lemma ReachesSelf(s: State)
    requires Inv(s)
    ensures Reaches(s, s)
  {
    assert NoFlush([]) && Exec(s, []) == s;
  }

  lemma ReachesStep(s: State, t: State, choice: Choice)
    requires Inv(s) && Reaches(s, t) && OnlyReads(choice)
    ensures InRange(t) && Reaches(s, Step(t, choice))
  {
    hide Inv, Step, OnlyReads;
    var schedule :| NoFlush(schedule) && Exec(s, schedule) == t;
    ExecAppend(s, schedule, choice);
    assert NoFlush(schedule + [choice]);
  }

  /** The same choice k times over, as a call that is not interrupted. */
  ghost function Times(s: State, choice: Choice, k: nat): (t: State)
    requires Inv(s)
    ensures Inv(t)
  {
    if k == 0 then s
    else
      StepKeeps(Times(s, choice, k - 1), choice);
      Step(Times(s, choice, k - 1), choice)
  }

  lemma {:induction false} ReachesTimes(s: State, t: State, choice: Choice, k: nat)
    requires Inv(s) && Inv(t) && Reaches(s, t) && OnlyReads(choice)
    ensures Reaches(s, Times(t, choice, k))
  {
    hide Inv, Step, OnlyReads, Reaches;
    if k > 0 {
      ReachesTimes(s, t, choice, k - 1);
      InvInRange(Times(t, choice, k - 1));
      ReachesStep(s, Times(t, choice, k - 1), choice);
    }
  }

  lemma TimesStep(s: State, choice: Choice, k: nat)
    requires Inv(s)
    ensures InRange(Times(s, choice, k)) && Times(s, choice, k + 1) == Step(Times(s, choice, k), choice)
  {
    hide Step;
    InvInRange(Times(s, choice, k));
  }

  lemma UnreadIsDone(t: State)
    requires Inv(t) && t.hist.taken < t.hist.published
    ensures t.mem.read < t.mem.N() && t.mem.pages[t.mem.read].status == PAGE_STATUS_WRITE_DONE
    ensures ReadAvailable(t.mem) > 0
  {
    ReadAvailableIsExact(t);
  }

  /** A call of read_get takes the next unread page. */
  lemma GetOne(t: State)
    requires Inv(t) && t.consumer.CIdle? && t.hist.taken < t.hist.published
    ensures var u := Times(t, ConsumerMoves(ReadGet), 4);
            u.consumer.CIdle? && u.hist == t.hist.(taken := t.hist.taken + 1) && u.producer == t.producer
  {
    hide *;
    var get := ConsumerMoves(ReadGet);
    TimesNone(t, get);
    TimesStep(t, get, 0);
    TimesStep(t, get, 1);
    TimesStep(t, get, 2);
    TimesStep(t, get, 3);
    GetBegins(t);
    GetEnds(t.(consumer := GetLength));
  }

  lemma GetBegins(t: State)
    requires Inv(t) && t.consumer.CIdle? && t.hist.taken < t.hist.published
    ensures InRange(t) && Step(t, ConsumerMoves(ReadGet)) == t.(consumer := GetStatus)
    ensures InRange(t.(consumer := GetStatus))
    ensures Step(t.(consumer := GetStatus), ConsumerMoves(ReadGet)) == t.(consumer := GetLength)
    ensures InRange(t.(consumer := GetLength))
  {
    UnreadIsDone(t);
  }

  lemma GetEnds(t: State)
    requires InRange(t) && t.consumer.GetLength?
    ensures var get := ConsumerMoves(ReadGet);
            && InRange(Step(t, get))
            && var u := Step(Step(t, get), get);
               u.consumer.CIdle? && u.hist == t.hist.(taken := t.hist.taken + 1) && u.producer == t.producer
  {
  }

  lemma TimesNone(s: State, choice: Choice)
    requires Inv(s)
    ensures Times(s, choice, 0) == s
  {
  }

  /** Its computation of the free pages is one or three steps long, and finds room. */
  lemma CountOne(t: State)
    requires Inv(t) && t.producer.PIdle? && t.hist.handed - t.hist.freed < t.mem.N() - 1
    ensures var alloc := ProducerMoves(WriteAlloc);
            var u := Times(t, alloc, if t.mem.allocate == t.mem.free then 1 else 3);
            u.producer.AllocClaim? && u.producer.available != 0 && u == t.(producer := u.producer)
  {
    hide Inv, Times, Slot;
    var alloc := ProducerMoves(WriteAlloc);
    InvInRange(t);
    TimesNone(t, alloc);
    TimesStep(t, alloc, 0);
    if t.mem.allocate == t.mem.free {
      AllocFailsOnlyWhenFull(t, WriteAlloc);
    } else {
      TimesStep(t, alloc, 1);
      TimesStep(t, alloc, 2);
      AllocFailsOnlyWhenFull(Times(t, alloc, 2), WriteAlloc);
    }
  }

  /** A call of write_alloc hands out a page, if there is room. */
  lemma AllocOne(t: State) returns (k: nat)
    requires Inv(t) && t.producer.PIdle? && t.hist.handed - t.hist.freed < t.mem.N() - 1
    ensures var u := Times(t, ProducerMoves(WriteAlloc), k);
            && u.producer.PIdle? && u.consumer == t.consumer && u.mem.N() == t.mem.N()
            && u.hist == t.hist.(handed := t.hist.handed + 1)
  {
    assert !t.hist.claiming;
    hide *;
    var alloc := ProducerMoves(WriteAlloc);
    CountOne(t);
    k := if t.mem.allocate == t.mem.free then 1 else 3;
    TimesStep(t, alloc, k);
    TimesStep(t, alloc, k + 1);
    AllocEnds(Times(t, alloc, k));
    k := k + 2;
  }

  lemma AllocEnds(t: State)
    requires InRange(t) && t.producer.AllocClaim? && t.producer.available != 0
    ensures var alloc := ProducerMoves(WriteAlloc);
            && InRange(Step(t, alloc))
            && var u := Step(Step(t, alloc), alloc);
               && u.producer.PIdle? && u.consumer == t.consumer && u.mem.N() == t.mem.N()
               && u.hist == t.hist.(handed := t.hist.handed + 1, claiming := false)
  {
  }

  /** The choice that completes the page at the write index. */
  function DoneFront(t: State): Choice {
    ProducerMoves(WriteDone(t.mem.write, 0))
  }

  lemma FrontIsAccepted(t: State)
    requires Inv(t) && t.producer.PIdle? && t.hist.published < t.hist.handed
    ensures Accepts(t, t.mem.write, 0) && t.hist.pending == None
    ensures CounterOf(t.mem.write, t.hist.published, t.mem.N()) == t.hist.published
    ensures Slot(t.hist.published, t.mem.N()) == t.mem.write
  {
    CounterOfSlot(t.mem.write, t.hist.published, t.mem.N());
  }

  /** The first two steps of write_done for the page at the write index. */
  lemma MarkOne(t: State)
    requires Inv(t) && t.producer.PIdle? && t.hist.published < t.hist.handed
    ensures var v := Times(t, DoneFront(t), 2);
            && v.producer == Publish(t.mem.write) && v.consumer == t.consumer
            && v.mem.write == t.mem.write && v.mem.N() == t.mem.N() && v.mem.allocate == t.mem.allocate
            && v.mem.pages[t.mem.write].status == PAGE_STATUS_WRITE_DONE
            && v.hist == t.hist.(completed := v.hist.completed)
  {
    FrontIsAccepted(t);
    assert InRange(t) && t.hist.published !in t.hist.completed;
    hide *;
    TimesNone(t, DoneFront(t));
    TimesStep(t, DoneFront(t), 0);
    TimesStep(t, DoneFront(t), 1);
    MarkSteps(t);
  }

  lemma MarkSteps(t: State)
    requires InRange(t) && t.producer.PIdle? && Accepts(t, t.mem.write, 0) && t.hist.pending == None
    requires CounterOf(t.mem.write, t.hist.published, t.mem.N()) == t.hist.published
    requires Slot(t.hist.published, t.mem.N()) == t.mem.write
    ensures var done := DoneFront(t);
            && InRange(Step(t, done))
            && var v := Step(Step(t, done), done);
               && v.producer == Publish(t.mem.write) && v.consumer == t.consumer
               && v.mem.write == t.mem.write && v.mem.N() == t.mem.N() && v.mem.allocate == t.mem.allocate
               && v.mem.pages[t.mem.write].status == PAGE_STATUS_WRITE_DONE
               && v.hist == t.hist.(completed := v.hist.completed)
  {
    hide CounterOf, Slot;
  }

  /** A call of write_done completes and publishes the only page handed out. */
  lemma DoneOne(t: State)
    requires Inv(t) && t.producer.PIdle? && t.hist.handed == t.hist.published + 1
    ensures var u := Times(t, DoneFront(t), 4);
            && u.producer.PIdle? && u.consumer == t.consumer && u.mem.N() == t.mem.N()
            && u.hist == t.hist.(completed := u.hist.completed, published := t.hist.handed)
  {
    assert t.mem.write < t.mem.N() && t.mem.write != t.mem.allocate by {
      OneStepApart(t);
    }
    assert NextIndex(t.mem.write, t.mem.N()) == t.mem.allocate by { OneStepApart(t); }
    hide *;
    MarkOne(t);
    TimesStep(t, DoneFront(t), 2);
    TimesStep(t, DoneFront(t), 3);
    PublishEnds(Times(t, DoneFront(t), 2), DoneFront(t));
  }

  lemma PublishEnds(t: State, done: Choice)
    requires InRange(t) && t.producer == Publish(t.mem.write) && done.ProducerMoves?
    requires t.mem.write != t.mem.allocate && NextIndex(t.mem.write, t.mem.N()) == t.mem.allocate
    requires t.mem.pages[t.mem.write].status == PAGE_STATUS_WRITE_DONE
    ensures InRange(Step(t, done))
    ensures var u := Step(Step(t, done), done);
            && u.producer.PIdle? && u.consumer == t.consumer && u.mem.N() == t.mem.N()
            && u.hist == t.hist.(published := t.hist.published + 1)
  {
  }

  lemma OneStepApart(t: State)
    requires Inv(t) && t.hist.handed == t.hist.published + 1
    ensures t.mem.write < t.mem.N() && t.mem.write != t.mem.allocate
    ensures NextIndex(t.mem.write, t.mem.N()) == t.mem.allocate
  {
    SlotGap(t.hist.published, t.hist.handed, t.mem.N());
  }

  /** One page more is published. */
  lemma PutOne(s: State, t: State) returns (u: State)
    requires Inv(s) && Inv(t) && Reaches(s, t) && t.producer.PIdle?
    requires t.hist.published == t.hist.handed && t.hist.handed - t.hist.freed < t.mem.N() - 1
    ensures Inv(u) && Reaches(s, u) && u.producer.PIdle? && u.consumer == t.consumer && u.mem.N() == t.mem.N()
    ensures u.hist.published == u.hist.handed == t.hist.handed + 1
    ensures u.hist.freed == t.hist.freed && u.hist.taken == t.hist.taken
  {
    hide Inv, Times, Reaches;
    var k := AllocOne(t);
    ReachesTimes(s, t, ProducerMoves(WriteAlloc), k);
    u := Times(t, ProducerMoves(WriteAlloc), k);
    DoneOne(u);
    ReachesTimes(s, u, DoneFront(u), 4);
    u := Times(u, DoneFront(u), 4);
  }

  /** One page more is taken. */
  lemma TakeOne(s: State, t: State) returns (u: State)
    requires Inv(s) && Inv(t) && Reaches(s, t) && t.consumer.CIdle? && t.hist.taken < t.hist.published
    ensures Inv(u) && Reaches(s, u) && u.consumer.CIdle? && u.hist == t.hist.(taken := t.hist.taken + 1)
  {
    hide Inv, Times, Reaches;
    GetOne(t);
    ReachesTimes(s, t, ConsumerMoves(ReadGet), 4);
    u := Times(t, ConsumerMoves(ReadGet), 4);
  }

  /** Every session over an empty ring of at least three pages has a run without flushes after
      which two pages are outstanding, so that read_done is refused from then on. */
  lemma TwoOutstandingIsReached(s: State) returns (t: State)
    requires Registered(s) && s.consumer.CIdle?
    requires s.hist.freed == s.hist.handed && s.mem.N() >= 3
    ensures Inv(s) && Reaches(s, t) && Inv(t) && TwoOutstanding(t) && t.consumer.CIdle?
    ensures FreePage(t) == t
  {
    assert s.producer.PIdle? && s.hist.published == s.hist.handed && s.hist.freed == s.hist.taken;
    RegisteredInv(s);
    ReachesSelf(s);
    hide Inv, Reaches, Registered, Step;
    t := PutOne(s, s);
    t := PutOne(s, t);
    t := TakeOne(s, t);
    t := TakeOne(s, t);
    TwoAreRefused(t);
  }

  lemma TwoNeedPages(t: State)
    requires Inv(t) && t.hist.taken - t.hist.freed >= 2
    ensures t.mem.N() > 1
  {
  }

  lemma TwoAreRefused(t: State)
    requires Inv(t) && t.consumer.CIdle? && t.hist.taken - t.hist.freed >= 2
    ensures TwoOutstanding(t) && FreePage(t) == t
  {
    hide Inv;
    FreesExactlyOne(t);
    TwoNeedPages(t);
  }

  /** Every session with room has a run after which registering again leaves a page that
      write_done accepts although the new session has not handed it out. */
  lemma StaleAllocIsReached(s: State) returns (t: State)
    requires Registered(s) && s.hist.handed - s.hist.freed < s.mem.N() - 1
    ensures Inv(s) && Reaches(s, t) && t.producer.PIdle?
    ensures Registered(Reregister(t)) && !Unmarked(Reregister(t).mem) && !Exact(Reregister(t))
  {
    assert s.producer.PIdle? && s.hist.published == s.hist.handed;
    RegisteredInv(s);
    ReachesSelf(s);
    hide Inv, Reaches, Registered, Exact, Unmarked, Times;
    var k := AllocOne(s);
    ReachesTimes(s, s, ProducerMoves(WriteAlloc), k);
    t := Times(s, ProducerMoves(WriteAlloc), k);
    ReregisteredCleanExactly(t);
    DroppedPageIsAccepted(t);
  }
}
