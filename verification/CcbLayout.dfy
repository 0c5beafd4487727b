/** The layout of the CCB shared memory: which headers ccci_ccb_init_user writes, which ones
    ccci_ccb_register reads, and where the pages of every buffer lie. */
module CcbLayout {
  import Arithmetic
  import opened Common

  const HEADER_MAGIC_AFTER := 0xDDBBCCAA
  const TAIL_MAGIC_BEFORE := 0xEEFF0011
  const TAIL_MAGIC_AFTER := 0x1100FFEE
  const PAGE_HEADER_SIZE := 8

  /** One entry of the port table the kernel hands out. */
  datatype Config = Config(user: nat, core: nat, dlPageSize: nat, ulPageSize: nat, dlBufferSize: nat, ulBufferSize: nat)

  datatype Header = Header(
    guardBand: nat, allocateIndex: nat, freeIndex: nat, readIndex: nat, writeIndex: nat,
    pageSize: nat, dataBufferSize: nat, guardBandE: nat)

  /** One direction of one registered buffer: its header slot, first page and number of pages. */
  datatype Direction = Direction(slot: nat, start: nat, size: nat, pageSize: nat, pageNum: nat)

  datatype Buffer = Buffer(dl: Direction, ul: Direction)

  // ---------------------------------------------------------------- the port table

  /** The entries of one user, in table order. */
  function ConfigsOf(ports: seq<Config>, user: nat): (r: seq<Config>)
    ensures |r| <= |ports|
  {
    if ports == [] then []
    else if ports[|ports| - 1].user == user then ConfigsOf(ports[..|ports| - 1], user) + [ports[|ports| - 1]]
    else ConfigsOf(ports[..|ports| - 1], user)
  }

  /** They are exactly the entries of the user, each as often as it stands in the table. */
  lemma {:induction false} ConfigsOfUser(ports: seq<Config>, user: nat, c: Config)
    ensures multiset(ConfigsOf(ports, user))[c] == if c.user == user then multiset(ports)[c] else 0
  {
    if ports != [] {
      var most, last := ports[..|ports| - 1], ports[|ports| - 1];
      ConfigsOfUser(most, user, c);
      assert ports == most + [last];
    }
  }

  lemma {:induction false} ConfigsOfPrefix(ports: seq<Config>, user: nat, i: nat)
    requires i <= |ports|
    ensures |ConfigsOf(ports[..i], user)| <= |ConfigsOf(ports, user)|
    ensures ConfigsOf(ports[..i], user) == ConfigsOf(ports, user)[..|ConfigsOf(ports[..i], user)|]
    decreases |ports| - i
  {
    if i == |ports| {
      assert ports[..i] == ports;
    } else {
      ConfigsOfPrefix(ports, user, i + 1);
      assert ports[..i + 1][..i] == ports[..i];
    }
  }

  /** The search for the k-th entry of a user finds it, and fails exactly when there are not so many. */
  method QueryConfig(ports: seq<Config>, user: nat, bufferId: nat) returns (r: Option<Config>)
    ensures r.Some? <==> bufferId < |ConfigsOf(ports, user)|
    ensures r.Some? ==> r.value == ConfigsOf(ports, user)[bufferId]
  {
    var bufferCount := 0;
    for i := 0 to |ports|
      invariant bufferCount == |ConfigsOf(ports[..i], user)| <= bufferId
    {
      assert ports[..i + 1][..i] == ports[..i];
      ConfigsOfPrefix(ports, user, i + 1);
      if ports[i].user == user {
        if bufferCount == bufferId {
          return Some(ports[i]);
        }
        bufferCount := bufferCount + 1;
      }
    }
    assert ports[..|ports|] == ports;
    r := None;
  }

  /** The number of buffers a user registers. */
  method CountBuffers(ports: seq<Config>, user: nat) returns (n: nat)
    ensures n == |ConfigsOf(ports, user)|
  {
    n := 0;
    for i := 0 to |ports|
      invariant n == |ConfigsOf(ports[..i], user)|
    {
      assert ports[..i + 1][..i] == ports[..i];
      if ports[i].user == user {
        n := n + 1;
      }
    }
    assert ports[..|ports|] == ports;
  }

  // ---------------------------------------------------------------- initialisation

  function FreshHeader(pageSize: nat, bufferSize: nat): Header {
    Header(0, 0, 0, 0, 0, pageSize, bufferSize, TAIL_MAGIC_BEFORE)
  }

  /** The header slots of buffer k when the user's headers begin at `first`. */
  function DlSlot(first: nat, k: nat): nat { first + 2 * k }
  function UlSlot(first: nat, k: nat): nat { first + 2 * k + 1 }

  /** The header slots of a user hold, for every buffer k in order, a fresh downlink and a fresh
      uplink header with the sizes of the user's k-th entry. */
  ghost predicate Initialised(headers: seq<Header>, first: nat, configs: seq<Config>) {
    && first + 2 * |configs| <= |headers|
    && forall k: nat :: k < |configs| ==>
         && headers[DlSlot(first, k)] == FreshHeader(configs[k].dlPageSize, configs[k].dlBufferSize)
         && headers[UlSlot(first, k)] == FreshHeader(configs[k].ulPageSize, configs[k].ulBufferSize)
  }

  lemma InitialisedOneMore(before: seq<Header>, after: seq<Header>, first: nat, configs: seq<Config>, c: Config)
    requires Initialised(before, first, configs) && first + 2 * |configs| + 2 <= |before| == |after|
    requires forall s :: 0 <= s < first + 2 * |configs| ==> after[s] == before[s]
    requires after[first + 2 * |configs|] == FreshHeader(c.dlPageSize, c.dlBufferSize)
    requires after[first + 2 * |configs| + 1] == FreshHeader(c.ulPageSize, c.ulBufferSize)
    ensures Initialised(after, first, configs + [c])
  {
  }

  /** Writes the two headers of one entry. */
  method WriteHeaders(c: Config, slot: nat, headers: array<Header>)
    requires slot + 1 < headers.Length
    modifies headers
    ensures headers[..] == old(headers[..])[slot := FreshHeader(c.dlPageSize, c.dlBufferSize)]
                                           [slot + 1 := FreshHeader(c.ulPageSize, c.ulBufferSize)]
  {
    headers[slot] := FreshHeader(c.dlPageSize, c.dlBufferSize);
    headers[slot + 1] := FreshHeader(c.ulPageSize, c.ulBufferSize);
  }

  /** Outside [lo, hi) the headers are what they were. */
  ghost predicate SameOutside(before: seq<Header>, after: seq<Header>, lo: nat, hi: nat) {
    |before| == |after| && forall s :: 0 <= s < |after| && !(lo <= s < hi) ==> after[s] == before[s]
  }

  /** Writes the headers of one user from its control offset on and touches no other header. */
  method InitUser(ports: seq<Config>, user: nat, ctrlOffset: nat, headers: array<Header>)
    requires ctrlOffset * 2 + 2 * |ConfigsOf(ports, user)| <= headers.Length
    modifies headers
    ensures Initialised(headers[..], ctrlOffset * 2, ConfigsOf(ports, user))
    ensures SameOutside(old(headers[..]), headers[..], ctrlOffset * 2, ctrlOffset * 2 + 2 * |ConfigsOf(ports, user)|)
  {
    hide Initialised, SameOutside, ConfigsOf, FreshHeader;
    ghost var start, all := headers[..], ConfigsOf(ports, user);
    ghost var written: seq<Config> := [];
    var first := ctrlOffset * 2;
    var ptr := first;
    NothingWritten(start, first, ports, user);
    for i := 0 to |ports|
      invariant written == ConfigsOf(ports[..i], user) && ptr == first + 2 * |written|
      invariant Initialised(headers[..], first, written)
      invariant SameOutside(start, headers[..], first, ptr)
    {
      NextFits(ports, user, i);
      if ports[i].user == user {
        ghost var before := headers[..];
        WriteHeaders(ports[i], ptr, headers);
        WroteEntry(start, before, headers[..], first, written, ports[i]);
        ptr := ptr + 2;
        written := written + [ports[i]];
      }
    }
    assert written == all by {
      assert ports[..|ports|] == ports;
    }
  }

  lemma NothingWritten(start: seq<Header>, first: nat, ports: seq<Config>, user: nat)
    requires first <= |start|
    ensures Initialised(start, first, []) && SameOutside(start, start, first, first)
    ensures ConfigsOf(ports[..0], user) == []
  {
  }

  lemma ConfigsStep(ports: seq<Config>, user: nat, i: nat)
    requires i < |ports|
    ensures var seen := ConfigsOf(ports[..i], user);
            ConfigsOf(ports[..i + 1], user) == if ports[i].user == user then seen + [ports[i]] else seen
  {
    assert ports[..i + 1][..i] == ports[..i];
  }

  lemma NextFits(ports: seq<Config>, user: nat, i: nat)
    requires i < |ports|
    ensures var seen := ConfigsOf(ports[..i], user);
            && ConfigsOf(ports[..i + 1], user) == (if ports[i].user == user then seen + [ports[i]] else seen)
            && (ports[i].user == user ==> |seen| + 1 <= |ConfigsOf(ports, user)|)
  {
    ConfigsStep(ports, user, i);
    ConfigsOfPrefix(ports, user, i + 1);
  }

  lemma WroteEntry(start: seq<Header>, before: seq<Header>, after: seq<Header>, first: nat, configs: seq<Config>, c: Config)
    requires Initialised(before, first, configs) && first + 2 * |configs| + 2 <= |before|
    requires SameOutside(start, before, first, first + 2 * |configs|)
    requires var slot := first + 2 * |configs|;
             after == before[slot := FreshHeader(c.dlPageSize, c.dlBufferSize)]
                            [slot + 1 := FreshHeader(c.ulPageSize, c.ulBufferSize)]
    ensures Initialised(after, first, configs + [c])
    ensures SameOutside(start, after, first, first + 2 * |configs| + 2)
  {
    InitialisedOneMore(before, after, first, configs, c);
  }

  // ---------------------------------------------------------------- registration

  /** The peer has accepted a header: it set the guard band and may have moved the indices; the
      sizes are those of initialisation. */
  ghost predicate Accepted(h: Header, initial: Header) {
    h.guardBand != 0 && h.pageSize == initial.pageSize && h.dataBufferSize == initial.dataBufferSize
  }

  ghost predicate AllAccepted(headers: seq<Header>, first: nat, configs: seq<Config>) {
    && first + 2 * |configs| <= |headers|
    && forall k: nat :: k < |configs| ==>
         && Accepted(headers[DlSlot(first, k)], FreshHeader(configs[k].dlPageSize, configs[k].dlBufferSize))
         && Accepted(headers[UlSlot(first, k)], FreshHeader(configs[k].ulPageSize, configs[k].ulBufferSize))
  }

  /** How far into the data area the buffers of the given entries reach. */
  function DataSize(configs: seq<Config>): nat {
    if configs == [] then 0
    else DataSize(configs[..|configs| - 1]) + configs[|configs| - 1].dlBufferSize + configs[|configs| - 1].ulBufferSize
  }

  /** The area has as many pages of this size as fit into it. */
  ghost predicate CutIntoPages(d: Direction, size: nat, pageSize: nat) {
    d.size == size && d.pageSize == pageSize && d.pageNum * pageSize <= size < (d.pageNum + 1) * pageSize
  }

  /** The downlink area first, the uplink area behind it, each cut into pages. */
  function BufferOf(slot: nat, start: nat, dlSize: nat, dlPageSize: nat, ulSize: nat, ulPageSize: nat): Buffer
    requires dlPageSize > 0 && ulPageSize > 0
  {
    Buffer(Direction(slot, start, dlSize, dlPageSize, dlSize / dlPageSize),
           Direction(slot + 1, start + dlSize, ulSize, ulPageSize, ulSize / ulPageSize))
  }

  /** Downlink and uplink have neighbouring headers and areas without a gap, with as many pages as fit. */
  lemma BufferIsCut(slot: nat, start: nat, dlSize: nat, dlPageSize: nat, ulSize: nat, ulPageSize: nat)
    requires dlPageSize > 0 && ulPageSize > 0
    ensures var b := BufferOf(slot, start, dlSize, dlPageSize, ulSize, ulPageSize);
            && b.dl.slot == slot && b.ul.slot == b.dl.slot + 1
            && b.dl.start == start && b.ul.start == b.dl.start + b.dl.size
            && CutIntoPages(b.dl, dlSize, dlPageSize) && CutIntoPages(b.ul, ulSize, ulPageSize)
  {
    assert dlSize / dlPageSize * dlPageSize + dlSize % dlPageSize == dlSize;
    assert ulSize / ulPageSize * ulPageSize + ulSize % ulPageSize == ulSize;
  }

  /** Where buffer k lies, from the table alone. */
  function BufferAt(configs: seq<Config>, first: nat, base: nat, k: nat): Buffer
    requires k < |configs| && configs[k].dlPageSize > 0 && configs[k].ulPageSize > 0
  {
    var c := configs[k];
    BufferOf(DlSlot(first, k), base + DataSize(configs[..k]), c.dlBufferSize, c.dlPageSize, c.ulBufferSize, c.ulPageSize)
  }

  ghost predicate PageSizesPositive(configs: seq<Config>) {
    forall k :: 0 <= k < |configs| ==> configs[k].dlPageSize > 0 && configs[k].ulPageSize > 0
  }

  /** Registration: flushes every downlink ring and resets every uplink allocation, marks both
      headers as taken, and derives the page areas from the headers.  A header the peer has not
      accepted (guard band zero) ends it with None. */
  method Register(ports: seq<Config>, user: nat, ctrlOffset: nat, base: nat, headers: array<Header>)
    returns (r: Option<seq<Buffer>>)
    requires ctrlOffset * 2 + 2 * |ConfigsOf(ports, user)| <= headers.Length
    requires forall k: nat :: k < |ConfigsOf(ports, user)| ==>
               headers[DlSlot(ctrlOffset * 2, k)].pageSize > 0 && headers[UlSlot(ctrlOffset * 2, k)].pageSize > 0
    modifies headers
    ensures ConfigsOf(ports, user) == [] ==> r.None? && headers[..] == old(headers[..])
    ensures r.None? && ConfigsOf(ports, user) != [] ==>
              exists i: nat :: i < |ConfigsOf(ports, user)| && FirstRefused(old(headers[..]), ctrlOffset * 2, i)
                               && TornDown(old(headers[..]), headers[..], ctrlOffset * 2, i)
    ensures r.Some? ==> |r.value| == |ConfigsOf(ports, user)| && Taken(old(headers[..]), headers[..], ctrlOffset * 2, |r.value|)
    ensures AllAccepted(old(headers[..]), ctrlOffset * 2, ConfigsOf(ports, user)) && ConfigsOf(ports, user) != [] ==>
              && r.Some? && PageSizesPositive(ConfigsOf(ports, user))
              && forall k: nat :: k < |r.value| ==> r.value[k] == BufferAt(ConfigsOf(ports, user), ctrlOffset * 2, base, k)
  {
    var bufferNum := CountBuffers(ports, user);
    if bufferNum == 0 {
      return None;
    }
    ghost var configs, before := ConfigsOf(ports, user), headers[..];
    r := RegisterBuffers(bufferNum, ctrlOffset * 2, base, headers);
    if AllAccepted(before, ctrlOffset * 2, configs) {
      AcceptedSizes(before, ctrlOffset * 2, configs);
      forall k: nat | k < bufferNum
        ensures HeaderBuffer(before, ctrlOffset * 2, base, k) == BufferAt(configs, ctrlOffset * 2, base, k)
      {
        BufferFromHeaders(before, configs, ctrlOffset * 2, base, k);
      }
      assert forall k: nat :: k < bufferNum ==> before[DlSlot(ctrlOffset * 2, k)].guardBand != 0 && before[UlSlot(ctrlOffset * 2, k)].guardBand != 0;
    }
  }

  /** How far the data areas of the first k buffers reach, by their headers. */
  ghost function HeaderDataSize(headers: seq<Header>, first: nat, k: nat): nat
    requires first + 2 * k <= |headers|
  {
    if k == 0 then 0
    else HeaderDataSize(headers, first, k - 1) + headers[DlSlot(first, k - 1)].dataBufferSize + headers[UlSlot(first, k - 1)].dataBufferSize
  }

  /** Where buffer k lies, by the headers. */
  ghost function HeaderBuffer(headers: seq<Header>, first: nat, base: nat, k: nat): Buffer
    requires first + 2 * k + 2 <= |headers|
    requires headers[DlSlot(first, k)].pageSize > 0 && headers[UlSlot(first, k)].pageSize > 0
  {
    var dl, ul := headers[DlSlot(first, k)], headers[UlSlot(first, k)];
    BufferOf(DlSlot(first, k), base + HeaderDataSize(headers, first, k), dl.dataBufferSize, dl.pageSize, ul.dataBufferSize, ul.pageSize)
  }

  /** Buffer i is the first that the peer has not accepted. */
  ghost predicate FirstRefused(headers: seq<Header>, first: nat, i: nat) {
    && first + 2 * i + 2 <= |headers|
    && (headers[DlSlot(first, i)].guardBand == 0 || headers[UlSlot(first, i)].guardBand == 0)
    && forall k: nat :: k < i ==> headers[DlSlot(first, k)].guardBand != 0 && headers[UlSlot(first, k)].guardBand != 0
  }

  /** What initialisation writes has empty rings and is not accepted: registering without the peer stops at the
      first buffer. */
  lemma FreshIsNotAccepted(headers: seq<Header>, first: nat, configs: seq<Config>)
    requires Initialised(headers, first, configs) && configs != []
    ensures FirstRefused(headers, first, 0)
    ensures forall k: nat :: k < |configs| ==>
              && headers[DlSlot(first, k)] == Header(0, 0, 0, 0, 0, configs[k].dlPageSize, configs[k].dlBufferSize, TAIL_MAGIC_BEFORE)
              && headers[UlSlot(first, k)] == Header(0, 0, 0, 0, 0, configs[k].ulPageSize, configs[k].ulBufferSize, TAIL_MAGIC_BEFORE)
  {
  }

  /** What a registration that failed at buffer i leaves: indices moved as far as it came, and the end guard
      bands of every buffer it had reached in both directions as before a registration. */
  ghost predicate TornDown(before: seq<Header>, after: seq<Header>, first: nat, i: nat) {
    && |before| == |after| && first + 2 * i + 2 <= |after|
    && (forall k: nat :: k < i ==>
          && after[DlSlot(first, k)] == Flushed(before[DlSlot(first, k)]).(guardBandE := TAIL_MAGIC_BEFORE)
          && after[UlSlot(first, k)] == Reset(before[UlSlot(first, k)]).(guardBandE := TAIL_MAGIC_BEFORE))
    && (if before[DlSlot(first, i)].guardBand == 0 then
          after[DlSlot(first, i)] == Flushed(before[DlSlot(first, i)]) && after[UlSlot(first, i)] == before[UlSlot(first, i)]
        else
          && after[DlSlot(first, i)] == Flushed(before[DlSlot(first, i)]).(guardBandE := TAIL_MAGIC_BEFORE)
          && after[UlSlot(first, i)] == Reset(before[UlSlot(first, i)]).(guardBandE := TAIL_MAGIC_BEFORE))
    && (forall s :: 0 <= s < |after| && !(first <= s < first + 2 * i + 2) ==> after[s] == before[s])
  }

  function Flushed(h: Header): Header { h.(readIndex := h.writeIndex, freeIndex := h.writeIndex) }
  function Reset(h: Header): Header { h.(allocateIndex := h.writeIndex) }

  /** Gives the buffers back: their end guard bands are as before the registration. */
  method Unregister(headers: array<Header>, first: nat, n: nat)
    requires first + 2 * n <= headers.Length
    modifies headers
    ensures Released(old(headers[..]), headers[..], first, n)
  {
    for i := 0 to n
      invariant Released(old(headers[..]), headers[..], first, i)
    {
      headers[DlSlot(first, i)] := headers[DlSlot(first, i)].(guardBandE := TAIL_MAGIC_BEFORE);
      headers[UlSlot(first, i)] := headers[UlSlot(first, i)].(guardBandE := TAIL_MAGIC_BEFORE);
    }
  }

  ghost predicate Released(before: seq<Header>, after: seq<Header>, first: nat, n: nat) {
    && |before| == |after|
    && forall s :: 0 <= s < |after| ==>
         after[s] == if first <= s < first + 2 * n then before[s].(guardBandE := TAIL_MAGIC_BEFORE) else before[s]
  }

  lemma ReleasedAfterRefusal(start: seq<Header>, taken: seq<Header>, stopped: seq<Header>, after: seq<Header>, first: nat, i: nat)
    requires Taken(start, taken, first, i) && first + 2 * i + 2 <= |start| && |stopped| == |taken|
    requires forall s :: 0 <= s < |taken| && s != DlSlot(first, i) && s != UlSlot(first, i) ==> stopped[s] == taken[s]
    requires stopped[DlSlot(first, i)].guardBand == start[DlSlot(first, i)].guardBand
    requires Stopped(start[DlSlot(first, i)], start[UlSlot(first, i)], stopped[DlSlot(first, i)], stopped[UlSlot(first, i)])
    requires Released(stopped, after, first, if start[DlSlot(first, i)].guardBand == 0 then i else i + 1)
    ensures TornDown(start, after, first, i)
  {
  }

  /** How far a turn of the loop comes with a buffer that the peer has not accepted. */
  ghost predicate Stopped(dl: Header, ul: Header, dl': Header, ul': Header) {
    if dl.guardBand == 0 then dl' == Flushed(dl) && ul' == ul
    else DownlinkTaken(dl, dl') && ul' == Reset(ul)
  }

  lemma NoDataYet(headers: seq<Header>, first: nat)
    requires first <= |headers|
    ensures HeaderDataSize(headers, first, 0) == 0
  {
  }

  /** The buffer derived in one turn is the one the headers describe, and the next begins behind it. */
  lemma BufferTaken(start: seq<Header>, before: seq<Header>, first: nat, base: nat, i: nat, b: Buffer)
    requires first + 2 * i + 2 <= |start| && |before| == |start|
    requires before[DlSlot(first, i)] == start[DlSlot(first, i)] && before[UlSlot(first, i)] == start[UlSlot(first, i)]
    requires start[DlSlot(first, i)].pageSize > 0 && start[UlSlot(first, i)].pageSize > 0
    requires var dl, ul := before[DlSlot(first, i)], before[UlSlot(first, i)];
             b == BufferOf(DlSlot(first, i), base + HeaderDataSize(start, first, i),
                           dl.dataBufferSize, dl.pageSize, ul.dataBufferSize, ul.pageSize)
    ensures b == HeaderBuffer(start, first, base, i)
    ensures HeaderDataSize(start, first, i + 1) == HeaderDataSize(start, first, i) + b.dl.size + b.ul.size
  {
  }

  /** Each of the buffers so far was accepted and is the one its headers describe. */
  ghost predicate Reached(start: seq<Header>, first: nat, base: nat, buffers: seq<Buffer>) {
    && first + 2 * |buffers| <= |start|
    && forall k: nat :: k < |buffers| ==>
         && start[DlSlot(first, k)].pageSize > 0 && start[UlSlot(first, k)].pageSize > 0
         && start[DlSlot(first, k)].guardBand != 0 && start[UlSlot(first, k)].guardBand != 0
         && buffers[k] == HeaderBuffer(start, first, base, k)
  }

  lemma ReachedOneMore(start: seq<Header>, first: nat, base: nat, buffers: seq<Buffer>, b: Buffer)
    requires Reached(start, first, base, buffers) && first + 2 * |buffers| + 2 <= |start|
    requires start[DlSlot(first, |buffers|)].pageSize > 0 && start[UlSlot(first, |buffers|)].pageSize > 0
    requires start[DlSlot(first, |buffers|)].guardBand != 0 && start[UlSlot(first, |buffers|)].guardBand != 0
    requires b == HeaderBuffer(start, first, base, |buffers|)
    ensures Reached(start, first, base, buffers + [b])
  {
    hide HeaderBuffer;
  }

  lemma AllReached(start: seq<Header>, first: nat, base: nat, buffers: seq<Buffer>)
    requires Reached(start, first, base, buffers)
    ensures first + 2 * |buffers| <= |start|
    ensures forall k: nat :: k < |buffers| ==> start[DlSlot(first, k)].guardBand != 0 && start[UlSlot(first, k)].guardBand != 0
    ensures forall k: nat :: k < |buffers| ==>
              start[DlSlot(first, k)].pageSize > 0 && start[UlSlot(first, k)].pageSize > 0
              && buffers[k] == HeaderBuffer(start, first, base, k)
  {
    hide HeaderBuffer;
  }

  lemma RefusedFirst(start: seq<Header>, first: nat, base: nat, buffers: seq<Buffer>)
    requires Reached(start, first, base, buffers) && first + 2 * |buffers| + 2 <= |start|
    requires start[DlSlot(first, |buffers|)].guardBand == 0 || start[UlSlot(first, |buffers|)].guardBand == 0
    ensures FirstRefused(start, first, |buffers|)
  {
    hide HeaderBuffer;
  }

  /** Takes buffer i, or tears down what has been reached. */
  method TakeNext(headers: array<Header>, ghost start: seq<Header>, first: nat, ghost base: nat, i: nat, ptr: nat, dataPtr: nat)
    returns (b: Option<Buffer>)
    requires Taken(start, headers[..], first, i) && first + 2 * i + 2 <= headers.Length && ptr == DlSlot(first, i)
    requires start[DlSlot(first, i)].pageSize > 0 && start[UlSlot(first, i)].pageSize > 0
    requires dataPtr == base + HeaderDataSize(start, first, i)
    modifies headers
    ensures b.Some? <==> start[DlSlot(first, i)].guardBand != 0 && start[UlSlot(first, i)].guardBand != 0
    ensures b.Some? ==>
              && Taken(start, headers[..], first, i + 1) && b.value == HeaderBuffer(start, first, base, i)
              && dataPtr + b.value.dl.size + b.value.ul.size == base + HeaderDataSize(start, first, i + 1)
    ensures b.None? ==> TornDown(start, headers[..], first, i)
  {
    hide Taken, DownlinkTaken, UplinkTaken, Released, TornDown, Stopped, BufferOf, HeaderBuffer, HeaderDataSize, Flushed, Reset;
    ghost var before := headers[..];
    NotYetTaken(start, before, first, i);
    b := TakeBuffer(headers, ptr, dataPtr);
    ghost var after := headers[..];
    if b.None? {
      Unregister(headers, first, if headers[ptr].guardBand == 0 then i else i + 1);
      ReleasedAfterRefusal(start, before, after, headers[..], first, i);
    } else {
      TakenOneMore(start, before, after, first, i);
      BufferTaken(start, before, first, base, i, b.value);
    }
  }

  /** The registration loop over the headers of one user: all buffers, or the number of the one it stopped at. */
  method TakeBuffers(bufferNum: nat, first: nat, base: nat, headers: array<Header>)
    returns (r: Option<seq<Buffer>>, ghost refused: nat)
    requires first + 2 * bufferNum <= headers.Length
    requires forall k: nat :: k < bufferNum ==> headers[DlSlot(first, k)].pageSize > 0 && headers[UlSlot(first, k)].pageSize > 0
    modifies headers
    ensures r.None? ==> refused < bufferNum && FirstRefused(old(headers[..]), first, refused)
                        && TornDown(old(headers[..]), headers[..], first, refused)
    ensures r.Some? ==> |r.value| == bufferNum && Taken(old(headers[..]), headers[..], first, bufferNum)
                        && Reached(old(headers[..]), first, base, r.value)
  {
    ghost var start := headers[..];
    var ptr: nat, dataPtr: nat := first, base;
    var buffers: seq<Buffer> := [];
    assert Reached(start, first, base, []) && Taken(start, start, first, 0);
    hide Taken, DownlinkTaken, UplinkTaken, Released, TornDown, Stopped, BufferOf, HeaderBuffer, HeaderDataSize, Flushed, Reset;
    hide Reached, FirstRefused;
    NoDataYet(start, first);
    refused := 0;
    for i := 0 to bufferNum
      invariant ptr == DlSlot(first, i) && |buffers| == i
      invariant Taken(start, headers[..], first, i)
      invariant dataPtr == base + HeaderDataSize(start, first, i)
      invariant Reached(start, first, base, buffers)
    {
      var b := TakeNext(headers, start, first, base, i, ptr, dataPtr);
      if b.None? {
        RefusedFirst(start, first, base, buffers);
        return None, i;
      }
      ReachedOneMore(start, first, base, buffers, b.value);
      ptr, dataPtr := ptr + 2, dataPtr + b.value.dl.size + b.value.ul.size;
      buffers := buffers + [b.value];
    }
    r := Some(buffers);
  }

  /** It succeeds exactly if the peer has accepted every header of the user. */
  method RegisterBuffers(bufferNum: nat, first: nat, base: nat, headers: array<Header>) returns (r: Option<seq<Buffer>>)
    requires first + 2 * bufferNum <= headers.Length
    requires forall k: nat :: k < bufferNum ==> headers[DlSlot(first, k)].pageSize > 0 && headers[UlSlot(first, k)].pageSize > 0
    modifies headers
    ensures r.Some? <==> forall k: nat :: k < bufferNum ==>
                           old(headers[DlSlot(first, k)].guardBand) != 0 && old(headers[UlSlot(first, k)].guardBand) != 0
    ensures r.None? ==> exists i: nat :: i < bufferNum && FirstRefused(old(headers[..]), first, i)
                                         && TornDown(old(headers[..]), headers[..], first, i)
    ensures r.Some? ==> |r.value| == bufferNum && Taken(old(headers[..]), headers[..], first, bufferNum)
                        && forall k: nat :: k < bufferNum ==> r.value[k] == HeaderBuffer(old(headers[..]), first, base, k)
  {
    ghost var start := headers[..];
    ghost var refused;
    r, refused := TakeBuffers(bufferNum, first, base, headers);
    hide Taken, TornDown, HeaderBuffer, Reached;
    if r.Some? {
      AllReached(start, first, base, r.value);
    }
  }

  /** Headers with the sizes of the table give the areas of the table. */
  lemma {:induction false} BufferFromHeaders(headers: seq<Header>, configs: seq<Config>, first: nat, base: nat, k: nat)
    requires PageSizesPositive(configs) && AllAccepted(headers, first, configs) && k < |configs|
    ensures HeaderDataSize(headers, first, k) == DataSize(configs[..k])
    ensures headers[DlSlot(first, k)].pageSize > 0 && headers[UlSlot(first, k)].pageSize > 0
    ensures HeaderBuffer(headers, first, base, k) == BufferAt(configs, first, base, k)
  {
    if k > 0 {
      BufferFromHeaders(headers, configs, first, base, k - 1);
      assert configs[..k][..k - 1] == configs[..k - 1];
    }
  }

  lemma NotYetTaken(start: seq<Header>, before: seq<Header>, first: nat, n: nat)
    requires Taken(start, before, first, n) && first + 2 * n + 2 <= |before|
    ensures |before| == |start|
    ensures before[DlSlot(first, n)] == start[DlSlot(first, n)] && before[UlSlot(first, n)] == start[UlSlot(first, n)]
  {
  }

  lemma TakenOneMore(start: seq<Header>, before: seq<Header>, after: seq<Header>, first: nat, n: nat)
    requires Taken(start, before, first, n) && |after| == |start| && first + 2 * n + 2 <= |after|
    requires DownlinkTaken(before[DlSlot(first, n)], after[DlSlot(first, n)])
    requires UplinkTaken(before[UlSlot(first, n)], after[UlSlot(first, n)])
    requires forall s :: 0 <= s < |after| && s != DlSlot(first, n) && s != UlSlot(first, n) ==> after[s] == before[s]
    ensures Taken(start, after, first, n + 1)
  {
  }

  /** One turn of the registration loop, for the two headers at `slot`. */
  method TakeBuffer(headers: array<Header>, slot: nat, start: nat) returns (r: Option<Buffer>)
    requires slot + 1 < headers.Length && headers[slot].pageSize > 0 && headers[slot + 1].pageSize > 0
    modifies headers
    ensures r.Some? <==> old(headers[slot].guardBand) != 0 && old(headers[slot + 1].guardBand) != 0
    ensures r.None? ==>
              && Stopped(old(headers[slot]), old(headers[slot + 1]), headers[slot], headers[slot + 1])
              && headers[slot].guardBand == old(headers[slot].guardBand)
    ensures r.Some? ==>
              && DownlinkTaken(old(headers[slot]), headers[slot]) && UplinkTaken(old(headers[slot + 1]), headers[slot + 1])
              && var dl, ul := old(headers[slot]), old(headers[slot + 1]);
                 r.value == BufferOf(slot, start, dl.dataBufferSize, dl.pageSize, ul.dataBufferSize, ul.pageSize)
    ensures forall s :: 0 <= s < headers.Length && s != slot && s != slot + 1 ==> headers[s] == old(headers[s])
  {
    var dl := headers[slot];
    headers[slot] := dl.(readIndex := dl.writeIndex, freeIndex := dl.writeIndex);
    if dl.guardBand == 0 {
      return None;
    }
    headers[slot] := headers[slot].(guardBandE := TAIL_MAGIC_AFTER);
    var ul := headers[slot + 1];
    headers[slot + 1] := ul.(allocateIndex := ul.writeIndex);
    if ul.guardBand == 0 {
      return None;
    }
    headers[slot + 1] := headers[slot + 1].(guardBandE := TAIL_MAGIC_AFTER);
    r := Some(BufferOf(slot, start, dl.dataBufferSize, dl.pageSize, ul.dataBufferSize, ul.pageSize));
  }

  lemma AcceptedSizes(headers: seq<Header>, first: nat, configs: seq<Config>)
    requires first + 2 * |configs| <= |headers|
    requires forall k: nat :: k < |configs| ==> headers[DlSlot(first, k)].pageSize > 0 && headers[UlSlot(first, k)].pageSize > 0
    ensures AllAccepted(headers, first, configs) ==> PageSizesPositive(configs)
  {
    if AllAccepted(headers, first, configs) {
      forall k | 0 <= k < |configs|
        ensures configs[k].dlPageSize > 0 && configs[k].ulPageSize > 0
      {
        assert headers[DlSlot(first, k)].pageSize > 0 && headers[UlSlot(first, k)].pageSize > 0;
      }
    }
  }

  /** The first n buffers have been taken over, no other header has changed. */
  ghost predicate Taken(before: seq<Header>, after: seq<Header>, first: nat, n: nat) {
    && |before| == |after| && first + 2 * n <= |after|
    && (forall k: nat :: k < n ==>
          && DownlinkTaken(before[DlSlot(first, k)], after[DlSlot(first, k)])
          && UplinkTaken(before[UlSlot(first, k)], after[UlSlot(first, k)]))
    && (forall s :: 0 <= s < |after| && !(first <= s < first + 2 * n) ==> after[s] == before[s])
  }

  ghost predicate DownlinkTaken(h: Header, h': Header) {
    h' == h.(readIndex := h.writeIndex, freeIndex := h.writeIndex, guardBandE := TAIL_MAGIC_AFTER)
  }

  ghost predicate UplinkTaken(h: Header, h': Header) {
    h' == h.(allocateIndex := h.writeIndex, guardBandE := TAIL_MAGIC_AFTER)
  }

  // ---------------------------------------------------------------- page areas

  /** The byte range of page j of a direction. */
  function PageStart(d: Direction, j: nat): nat { d.start + d.pageSize * j }
  function PageEnd(d: Direction, j: nat): nat { d.start + d.pageSize * (j + 1) }

  /** Pages of one direction lie inside its data area, one behind the other. */
  lemma PagesInArea(d: Direction, j: nat)
    requires d.pageSize > 0 && d.pageNum == d.size / d.pageSize && j < d.pageNum
    ensures d.start <= PageStart(d, j) < PageEnd(d, j) <= d.start + d.size
    ensures forall i: nat :: i < j ==> PageEnd(d, i) <= PageStart(d, j)
  {
    var n, p := d.pageNum, d.pageSize;
    assert p * n <= d.size;
    assert PageEnd(d, j) <= d.start + d.size by { Arithmetic.ProductMonotone(p, j + 1, n); }
    assert d.start <= PageStart(d, j) by { Arithmetic.ProductMonotone(p, 0, j); }
    assert PageStart(d, j) < PageEnd(d, j) by { assert p * (j + 1) == p * j + p; }
    forall i: nat | i < j
      ensures PageEnd(d, i) <= PageStart(d, j)
    {
      Arithmetic.ProductMonotone(p, i + 1, j);
    }
  }

  ghost predicate HeaderByte(d: Direction, q: nat, b: nat) {
    PageStart(d, q) <= b < PageStart(d, q) + 8
  }

  /** A payload that leaves room for the page header lies in its page, behind the 8 bytes of status and length,
      and meets those of no page. */
  lemma PayloadMeetsNoHeader(d: Direction, p: nat, length: nat, q: nat, b: nat)
    requires d.pageSize > 0 && d.pageNum == d.size / d.pageSize && p < d.pageNum && q < d.pageNum
    requires length + 8 <= d.pageSize && PageStart(d, p) + 8 <= b < PageStart(d, p) + 8 + length
    ensures PageStart(d, p) <= b < PageEnd(d, p) && !HeaderByte(d, q, b)
  {
    PagesInArea(d, p);
    PagesInArea(d, q);
    assert d.pageSize * (p + 1) == d.pageSize * p + d.pageSize;
    assert d.pageSize * (q + 1) == d.pageSize * q + d.pageSize;
  }

  function DirectionOf(b: Buffer, uplink: bool): Direction {
    if uplink then b.ul else b.dl
  }

  lemma {:induction false} DataSizeMonotone(configs: seq<Config>, i: nat, j: nat)
    requires i <= j <= |configs|
    ensures DataSize(configs[..i]) <= DataSize(configs[..j])
    decreases j - i
  {
    if i < j {
      DataSizeMonotone(configs, i, j - 1);
      assert configs[..j][..j - 1] == configs[..j - 1];
    }
  }

  /** The areas of two different directions of any two buffers do not meet. */
  lemma AreasDisjoint(configs: seq<Config>, first: nat, base: nat, k: nat, up: bool, k': nat, up': bool)
    requires PageSizesPositive(configs) && k < |configs| && k' < |configs|
    requires k < k' || (k == k' && !up && up')
    ensures var d := DirectionOf(BufferAt(configs, first, base, k), up);
            var d' := DirectionOf(BufferAt(configs, first, base, k'), up');
            d.start + d.size <= d'.start
  {
    if k < k' {
      DataSizeMonotone(configs, k + 1, k');
      assert configs[..k + 1][..k] == configs[..k];
    }
  }

  /** Every page of every buffer and direction has a byte range of its own inside the data area, so
      no two pages share an address. */
  lemma PagesDisjoint(configs: seq<Config>, first: nat, base: nat, k: nat, up: bool, j: nat, k': nat, up': bool, j': nat)
    requires PageSizesPositive(configs) && k < |configs| && k' < |configs|
    requires j < DirectionOf(BufferAt(configs, first, base, k), up).pageNum
    requires j' < DirectionOf(BufferAt(configs, first, base, k'), up').pageNum
    requires (k, up, j) != (k', up', j')
    ensures var d := DirectionOf(BufferAt(configs, first, base, k), up);
            var d' := DirectionOf(BufferAt(configs, first, base, k'), up');
            && base <= PageStart(d, j) < PageEnd(d, j) <= base + DataSize(configs)
            && (PageEnd(d, j) <= PageStart(d', j') || PageEnd(d', j') <= PageStart(d, j))
            && PageStart(d, j) != PageStart(d', j')
  {
    var d := DirectionOf(BufferAt(configs, first, base, k), up);
    var d' := DirectionOf(BufferAt(configs, first, base, k'), up');
    assert base <= PageStart(d, j) < PageEnd(d, j) <= base + DataSize(configs) by {
      PagesInArea(d, j);
      AreaInside(configs, first, base, k, up);
    }
    if k == k' && up == up' {
      if j < j' {
        PagesInArea(d, j');
      } else {
        PagesInArea(d, j);
      }
    } else if k < k' || (k == k' && !up && up') {
      PagesApart(configs, first, base, k, up, j, k', up', j');
    } else {
      PagesApart(configs, first, base, k', up', j', k, up, j);
    }
  }

  lemma AreaInside(configs: seq<Config>, first: nat, base: nat, k: nat, up: bool)
    requires PageSizesPositive(configs) && k < |configs|
    ensures var d := DirectionOf(BufferAt(configs, first, base, k), up);
            base <= d.start && d.start + d.size <= base + DataSize(configs)
  {
    DataSizeMonotone(configs, k + 1, |configs|);
    assert configs[..k + 1][..k] == configs[..k] && configs[..|configs|] == configs;
  }

  lemma PagesApart(configs: seq<Config>, first: nat, base: nat, k: nat, up: bool, j: nat, k': nat, up': bool, j': nat)
    requires PageSizesPositive(configs) && k < |configs| && k' < |configs|
    requires j < DirectionOf(BufferAt(configs, first, base, k), up).pageNum
    requires j' < DirectionOf(BufferAt(configs, first, base, k'), up').pageNum
    requires k < k' || (k == k' && !up && up')
    ensures PageEnd(DirectionOf(BufferAt(configs, first, base, k), up), j)
         <= PageStart(DirectionOf(BufferAt(configs, first, base, k'), up'), j')
  {
    PagesInArea(DirectionOf(BufferAt(configs, first, base, k), up), j);
    PagesInArea(DirectionOf(BufferAt(configs, first, base, k'), up'), j');
    AreasDisjoint(configs, first, base, k, up, k', up');
  }

  /** write_done admits lengths up to the page size, but a payload of the admitted length stays in
      front of the next page exactly when it leaves room for the page header. */
  lemma PayloadInsidePage(d: Direction, j: nat, length: nat)
    requires d.pageSize > 0 && d.pageNum == d.size / d.pageSize && j + 1 < d.pageNum
    requires length <= d.pageSize
    ensures PageStart(d, j) + PAGE_HEADER_SIZE + length <= PageStart(d, j + 1) <==> length + PAGE_HEADER_SIZE <= d.pageSize
  {
    assert d.pageSize * (j + 1) == d.pageSize * j + d.pageSize;
  }

  /** What init_user writes for a user's k-th entry is, once the peer has accepted the headers, what
      register derives buffer k from, and query_config returns the entry itself. */
  method InitThenRegister(ports: seq<Config>, user: nat, ctrlOffset: nat, base: nat, headers: array<Header>)
    returns (r: Option<seq<Buffer>>)
    requires ctrlOffset * 2 + 2 * |ConfigsOf(ports, user)| <= headers.Length
    requires PageSizesPositive(ConfigsOf(ports, user)) && ConfigsOf(ports, user) != []
    modifies headers
    ensures r.Some? && |r.value| == |ConfigsOf(ports, user)|
    ensures forall k: nat :: k < |r.value| ==> r.value[k] == BufferAt(ConfigsOf(ports, user), ctrlOffset * 2, base, k)
  {
    InitUser(ports, user, ctrlOffset, headers);
    var n := CountBuffers(ports, user);
    PeerAccepts(headers, ctrlOffset * 2, 2 * n);
    r := Register(ports, user, ctrlOffset, base, headers);
  }

  /** The peer accepts the headers of one user: it sets the guard bands and moves the indices. */
  method PeerAccepts(headers: array<Header>, lo: nat, n: nat)
    requires lo + n <= headers.Length
    modifies headers
    ensures forall s :: lo <= s < lo + n ==> Accepted(headers[s], old(headers[s]))
  {
    for s := lo to lo + n
      invariant forall t :: lo <= t < s ==> Accepted(headers[t], old(headers[t]))
      invariant forall t :: s <= t < headers.Length ==> headers[t] == old(headers[t])
    {
      var allocateIndex: nat, freeIndex: nat, readIndex: nat, writeIndex: nat :| true;
      headers[s] := headers[s].(guardBand := HEADER_MAGIC_AFTER, allocateIndex := allocateIndex, freeIndex := freeIndex,
                                readIndex := readIndex, writeIndex := writeIndex);
    }
  }
}
