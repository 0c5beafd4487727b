/** Splitting PCM audio into units of six times eighty stereo frames behind a four-byte header. */
module PcmPacketizer {
  import opened Common

  const FRAME_SIZE := 4
  const UNIT_BYTES := 6 * 80 * FRAME_SIZE
  const HEADER: seq<byte> := [0xA0, 6, 0, 0x11]
  const UNIT_SIZE := 4 + UNIT_BYTES

  /** A PCM buffer of the encoder's input, and an access unit of its output. */
  datatype Buffer = Buffer(timeUs: int, data: seq<byte>)
  datatype Unit = Unit(timeUs: int, data: seq<byte>)

  // ---------------------------------------------------------------- byte order and time

  /** Every pair of bytes exchanged. */
  function Swapped(s: seq<byte>): (r: seq<byte>)
    ensures |r| == |s|
  {
    if |s| < 2 then s else [s[1], s[0]] + Swapped(s[2..])
  }

  /** The other byte of a pair. */
  function Partner(i: nat): nat {
    if i % 2 == 0 then i + 1 else i - 1
  }

  lemma {:induction false} SwappedAt(s: seq<byte>, i: nat)
    requires i < |s| && |s| % 2 == 0
    ensures Swapped(s)[i] == s[Partner(i)]
  {
    if i >= 2 {
      SwappedAt(s[2..], i - 2);
    }
  }

  /** The htons loop over the samples, in place. */
  method SwapSamples(a: array<byte>)
    requires a.Length % 2 == 0
    modifies a
    ensures a[..] == Swapped(old(a[..]))
  {
    ghost var s := a[..];
    var ptr := 0;
    while ptr < a.Length
      invariant ptr <= a.Length && ptr % 2 == 0
      invariant forall i: nat :: i < ptr ==> Partner(i) < ptr && a[i] == s[Partner(i)]
      invariant a[ptr..] == s[ptr..]
    {
      assert a[ptr] == s[ptr] && a[ptr + 1] == s[ptr + 1];
      a[ptr], a[ptr + 1] := a[ptr + 1], a[ptr];
      ptr := ptr + 2;
    }
    SwappedEverywhere(s, a[..]);
  }

  lemma SwappedEverywhere(s: seq<byte>, t: seq<byte>)
    requires |s| == |t| && |s| % 2 == 0
    requires forall i: nat :: i < |t| ==> Partner(i) < |s| && t[i] == s[Partner(i)]
    ensures t == Swapped(s)
  {
    forall i: nat | i < |t|
      ensures t[i] == Swapped(s)[i]
    {
      SwappedAt(s, i);
    }
  }

  /** The duration of a number of frames at 48 kHz, as the code computes it. */
  function DurationUs(bytes: nat): int {
    ((bytes / FRAME_SIZE) as real * 1000000.0 / 48000.0).Floor
  }

  lemma DurationIsExact(bytes: nat)
    ensures DurationUs(bytes) == 125 * (bytes / FRAME_SIZE) / 6
    ensures DurationUs(UNIT_BYTES) == 10000
  {
    var c := bytes / FRAME_SIZE;
    assert c as real * 1000000.0 / 48000.0 == (125 * c) as real / 6.0;
    var q, r := 125 * c / 6, 125 * c % 6;
    assert 125 * c == 6 * q + r;
    assert (125 * c) as real / 6.0 == q as real + r as real / 6.0;
  }

  // ---------------------------------------------------------------- what one buffer does

  /** The unfinished unit and everything posted so far. */
  datatype State = State(partial: Option<Unit>, posted: seq<Unit>)

  /** An unfinished unit holds the header and something less than a full payload. */
  predicate GoodState(st: State) {
    st.partial.Some? ==> HEADER <= st.partial.value.data && 4 <= |st.partial.value.data| < UNIT_SIZE
  }

  /** How many bytes of a buffer go into the unfinished unit. */
  function Used(partial: Option<Unit>, n: nat): (u: nat)
    requires partial.Some? ==> |partial.value.data| <= UNIT_SIZE
    ensures u <= n
  {
    if partial.None? then 0
    else if n < UNIT_SIZE - |partial.value.data| then n else UNIT_SIZE - |partial.value.data|
  }

  /** The full units begun at a position. */
  function FullUnits(s: seq<byte>, from: nat, timeUs: int): seq<Unit>
    requires from <= |s|
    decreases |s| - from
  {
    if |s| - from < UNIT_BYTES then []
    else [Unit(timeUs, HEADER + s[from..from + UNIT_BYTES])] + FullUnits(s, from + UNIT_BYTES, timeUs + 10000)
  }

  /** The state behind the full units begun at a position: what is left starts a new unfinished unit. */
  function Behind(st: State, s: seq<byte>, from: nat, timeUs: int): State
    requires from <= |s|
  {
    var n := (|s| - from) / UNIT_BYTES;
    var at := from + n * UNIT_BYTES;
    State(if at < |s| then Some(Unit(timeUs + 10000 * n, HEADER + s[at..])) else st.partial,
          st.posted + FullUnits(s, from, timeUs))
  }

  /** The state after the unfinished unit took its share. */
  function Finish(st: State, s: seq<byte>): State
    requires GoodState(st)
  {
    var used := Used(st.partial, |s|);
    if st.partial.None? then st
    else
      var grown := Unit(st.partial.value.timeUs, st.partial.value.data + s[..used]);
      if |grown.data| == UNIT_SIZE then State(None, st.posted + [grown]) else State(Some(grown), st.posted)
  }

  /** The effect of one buffer. */
  function Feed(st: State, b: Buffer): State
    requires GoodState(st)
  {
    var s := Swapped(b.data);
    var used := Used(st.partial, |s|);
    Behind(Finish(st, s), s, used, b.timeUs + DurationUs(used))
  }

  lemma FeedIsGood(st: State, b: Buffer)
    requires GoodState(st)
    ensures GoodState(Feed(st, b))
  {
  }

  function FeedAll(st: State, buffers: seq<Buffer>): State
    requires GoodState(st)
    decreases |buffers|
  {
    if buffers == [] then st
    else
      FeedIsGood(st, buffers[0]);
      FeedAll(Feed(st, buffers[0]), buffers[1..])
  }

  lemma FeedFirst(st: State, buffers: seq<Buffer>)
    requires GoodState(st) && buffers != []
    ensures GoodState(Feed(st, buffers[0]))
    ensures FeedAll(st, buffers) == FeedAll(Feed(st, buffers[0]), buffers[1..])
  {
    FeedIsGood(st, buffers[0]);
  }

  // ---------------------------------------------------------------- the packetizer

  class Packetizer {
    var mInputBufferQueue: seq<Buffer>
    var mPartialAudioAU: Option<Unit>
    var posted: seq<Unit>      // the access units posted to the receiver

    function Now(): State
      reads this
    {
      State(mPartialAudioAU, posted)
    }

    constructor ()
      ensures Now() == State(None, []) && mInputBufferQueue == []
    {
      mInputBufferQueue, mPartialAudioAU, posted := [], None, [];
    }

    /** Drains the input queue. */
    method FeedRawAudioInputBuffers()
      requires GoodState(Now())
      requires forall b :: b in mInputBufferQueue ==> |b.data| % 2 == 0
      modifies this
      ensures mInputBufferQueue == []
      ensures GoodState(Now()) && Now() == FeedAll(old(Now()), old(mInputBufferQueue))
    {
      while mInputBufferQueue != []
        invariant GoodState(Now())
        invariant forall b :: b in mInputBufferQueue ==> |b.data| % 2 == 0
        invariant FeedAll(old(Now()), old(mInputBufferQueue)) == FeedAll(Now(), mInputBufferQueue)
        decreases |mInputBufferQueue|
      {
        hide FeedAll, Swapped, Behind, Finish, Used, DurationUs;
        var buffer := mInputBufferQueue[0];
        FeedIsGood(Now(), buffer);
        FeedFirst(Now(), mInputBufferQueue);
        mInputBufferQueue := mInputBufferQueue[1..];
        var a := new byte[|buffer.data|](k requires 0 <= k < |buffer.data| => buffer.data[k]);
        assert a[..] == buffer.data;
        SwapSamples(a);
        FeedSwapped(a[..], buffer.timeUs);
      }
    }

    method FeedSwapped(s: seq<byte>, time: int)
      requires GoodState(Now())
      modifies this`mPartialAudioAU, this`posted
      ensures var used := Used(old(mPartialAudioAU), |s|);
              Now() == Behind(Finish(old(Now()), s), s, used, time + DurationUs(used))
    {
      var from, timeUs := 0, time;
      DurationIsExact(0);
      if mPartialAudioAU.Some? {
        var partial := mPartialAudioAU.value;
        var bytesMissing := UNIT_BYTES - |partial.data| + 4;
        var copy := if |s| > bytesMissing then bytesMissing else |s|;
        partial := Unit(partial.timeUs, partial.data + s[..copy]);
        from, timeUs := copy, time + DurationUs(copy);
        if bytesMissing == copy {
          posted := posted + [partial];
          mPartialAudioAU := None;
        } else {
          mPartialAudioAU := Some(partial);
        }
      }
      BeginUnits(s, from, timeUs);
    }

    /** The inner loop: begins a unit as long as bytes are left. */
    method BeginUnits(s: seq<byte>, start: nat, time: int)
      requires start <= |s|
      modifies this`mPartialAudioAU, this`posted
      ensures Now() == Behind(old(Now()), s, start, time)
    {
      hide Behind, DurationUs;
      var from, timeUs := start, time;
      while from < |s|
        invariant start <= from <= |s|
        invariant Behind(old(Now()), s, start, time) == Behind(Now(), s, from, timeUs)
        decreases |s| - from
      {
        var copy := if |s| - from > UNIT_BYTES then UNIT_BYTES else |s| - from;
        var partial := Unit(timeUs, HEADER + s[from..from + copy]);
        DurationIsExact(copy);
        ghost var before := Now();
        if copy == UNIT_BYTES {
          posted := posted + [partial];
          BehindUnit(before, s, from, timeUs);
        } else {
          mPartialAudioAU := Some(partial);
          BehindRest(before, s, from, timeUs);
          assert s[from..from + copy] == s[from..];
        }
        from, timeUs := from + copy, timeUs + DurationUs(copy);
        BehindNothing(Now(), s, timeUs);
      }
      BehindNothing(Now(), s, timeUs);
    }
  }

  lemma BehindRest(st: State, s: seq<byte>, from: nat, timeUs: int)
    requires from < |s| < from + UNIT_BYTES
    ensures Behind(st, s, from, timeUs) == st.(partial := Some(Unit(timeUs, HEADER + s[from..])))
  {
    assert (|s| - from) / UNIT_BYTES == 0 && st.posted + [] == st.posted;
  }

  lemma BehindNothing(st: State, s: seq<byte>, timeUs: int)
    ensures Behind(st, s, |s|, timeUs) == st
  {
    assert st.posted + [] == st.posted;
  }

  lemma BehindUnit(st: State, s: seq<byte>, from: nat, timeUs: int)
    requires from + UNIT_BYTES <= |s|
    ensures Behind(st, s, from, timeUs)
         == Behind(st.(posted := st.posted + [Unit(timeUs, HEADER + s[from..from + UNIT_BYTES])]), s, from + UNIT_BYTES, timeUs + 10000)
  {
    var n := (|s| - from) / UNIT_BYTES;
    assert (|s| - (from + UNIT_BYTES)) / UNIT_BYTES == n - 1;
  }

  // ---------------------------------------------------------------- what it means

  /** The payload bytes of units in order. */
  function Payloads(units: seq<Unit>): seq<byte> {
    if units == [] then []
    else Payloads(units[..|units| - 1]) + Payload(units[|units| - 1])
  }

  function Payload(u: Unit): seq<byte> {
    if |u.data| < 4 then [] else u.data[4..]
  }

  /** Everything handed to the packetizer so far: posted payloads, then the unfinished one. */
  function Stream(st: State): seq<byte> {
    Payloads(st.posted) + if st.partial.Some? then Payload(st.partial.value) else []
  }

  function SwappedAll(buffers: seq<Buffer>): seq<byte> {
    if buffers == [] then [] else Swapped(buffers[0].data) + SwappedAll(buffers[1..])
  }

  /** Every posted unit is the header and exactly 1920 bytes. */
  ghost predicate FullPosted(st: State) {
    forall i :: 0 <= i < |st.posted| ==> |st.posted[i].data| == UNIT_SIZE && HEADER <= st.posted[i].data
  }

  lemma PayloadsOneMore(units: seq<Unit>, u: Unit)
    ensures Payloads(units + [u]) == Payloads(units) + Payload(u)
  {
    assert (units + [u])[..|units|] == units;
  }

  /** A state grew by some payload bytes, and what is posted is still full. */
  ghost predicate Grew(st: State, bytes: seq<byte>, t: State) {
    Stream(t) == Stream(st) + bytes && FullPosted(t)
  }

  lemma GrewTwice(st: State, a: seq<byte>, t: State, b: seq<byte>, u: State)
    requires Grew(st, a, t) && Grew(t, b, u)
    ensures Grew(st, a + b, u)
  {
    assert Stream(st) + a + b == Stream(st) + (a + b);
  }

  lemma PostUnit(st: State, timeUs: int, block: seq<byte>)
    requires st.partial.None? && FullPosted(st) && |block| == UNIT_BYTES
    ensures Grew(st, block, st.(posted := st.posted + [Unit(timeUs, HEADER + block)]))
  {
    hide Payloads;
    var u := Unit(timeUs, HEADER + block);
    PayloadsOneMore(st.posted, u);
    assert Payload(u) == block && |u.data| == UNIT_SIZE && HEADER <= u.data;
    assert (Payloads(st.posted) + []) + block == (Payloads(st.posted) + block) + [];
  }

  lemma KeepRest(st: State, s: seq<byte>, from: nat, timeUs: int)
    requires from <= |s| < from + UNIT_BYTES && (st.partial.Some? ==> from == |s|) && FullPosted(st)
    ensures Grew(st, s[from..], Behind(st, s, from, timeUs))
  {
    var t := Behind(st, s, from, timeUs);
    assert (|s| - from) / UNIT_BYTES == 0 && st.posted + [] == st.posted;
    assert t.posted == st.posted;
    if from < |s| {
      var u := Unit(timeUs, HEADER + s[from..]);
      assert t.partial == Some(u) && Payload(u) == s[from..];
      assert Payloads(st.posted) + [] == Payloads(st.posted);
    } else {
      assert t == st && s[from..] == [] && Stream(st) + [] == Stream(st);
    }
  }

  /** The units begun behind a position carry exactly the bytes from there on. */
  lemma {:induction false} BehindConserves(st: State, s: seq<byte>, from: nat, timeUs: int)
    requires from <= |s| && (st.partial.Some? ==> from == |s|) && FullPosted(st)
    ensures Grew(st, s[from..], Behind(st, s, from, timeUs))
    decreases |s| - from
  {
    hide Grew, Behind, FullPosted;
    if |s| - from < UNIT_BYTES {
      KeepRest(st, s, from, timeUs);
    } else {
      var block := s[from..from + UNIT_BYTES];
      var next := st.(posted := st.posted + [Unit(timeUs, HEADER + block)]);
      PostUnit(st, timeUs, block);
      assert FullPosted(next) by { GrewIsFull(st, block, next); }
      BehindUnit(st, s, from, timeUs);
      BehindConserves(next, s, from + UNIT_BYTES, timeUs + 10000);
      GrewTwice(st, block, next, s[from + UNIT_BYTES..], Behind(st, s, from, timeUs));
      assert s[from..] == block + s[from + UNIT_BYTES..];
    }
  }

  lemma GrewIsFull(st: State, bytes: seq<byte>, t: State)
    requires Grew(st, bytes, t)
    ensures FullPosted(t)
  {
  }

  lemma FinishConserves(st: State, s: seq<byte>)
    requires GoodState(st) && FullPosted(st)
    ensures var t, used := Finish(st, s), Used(st.partial, |s|);
            Grew(st, s[..used], t) && FullPosted(t) && (t.partial.Some? ==> used == |s|)
  {
    if st.partial.Some? {
      var used := Used(st.partial, |s|);
      var grown := Unit(st.partial.value.timeUs, st.partial.value.data + s[..used]);
      assert Payload(grown) == Payload(st.partial.value) + s[..used];
      PayloadsOneMore(st.posted, grown);
    } else {
      assert s[..0] == [];
    }
  }

  lemma FeedConserves(st: State, b: Buffer)
    requires GoodState(st) && FullPosted(st)
    ensures Grew(st, Swapped(b.data), Feed(st, b))
  {
    hide Grew, Behind, Finish, FullPosted, Swapped;
    var s := Swapped(b.data);
    var used := Used(st.partial, |s|);
    FinishConserves(st, s);
    BehindConserves(Finish(st, s), s, used, b.timeUs + DurationUs(used));
    GrewTwice(st, s[..used], Finish(st, s), s[used..], Feed(st, b));
    assert s[..used] + s[used..] == s;
  }

  /** Across any sequence of buffers: the posted payloads followed by the unfinished unit are the
      byte-swapped inputs, and every posted unit is the header and exactly 1920 bytes. */
  lemma {:induction false} NothingLost(st: State, buffers: seq<Buffer>)
    requires GoodState(st) && FullPosted(st)
    ensures Stream(FeedAll(st, buffers)) == Stream(st) + SwappedAll(buffers)
    ensures FullPosted(FeedAll(st, buffers)) && GoodState(FeedAll(st, buffers))
    decreases |buffers|
  {
    hide Feed, GoodState, Swapped, Stream;
    if buffers == [] {
      assert Stream(st) + [] == Stream(st);
    } else {
      FeedIsGood(st, buffers[0]);
      FeedConserves(st, buffers[0]);
      NothingLost(Feed(st, buffers[0]), buffers[1..]);
      GrewTwice(st, Swapped(buffers[0].data), Feed(st, buffers[0]), SwappedAll(buffers[1..]), FeedAll(st, buffers));
    }
  }

  /** The units begun in a buffer: the full ones among those posted, then the unfinished one. */
  function Begun(st: State, b: Buffer): seq<Unit>
    requires GoodState(st)
  {
    var s := Swapped(b.data);
    var used := Used(st.partial, |s|);
    var t := Feed(st, b);
    FullUnits(s, used, b.timeUs + DurationUs(used)) + if (|s| - used) % UNIT_BYTES != 0 && t.partial.Some? then [t.partial.value] else []
  }

  lemma {:induction false} FullUnitAt(s: seq<byte>, from: nat, timeUs: int, j: nat)
    requires from <= |s|
    ensures |FullUnits(s, from, timeUs)| == (|s| - from) / UNIT_BYTES
    ensures j < |FullUnits(s, from, timeUs)| ==>
              FullUnits(s, from, timeUs)[j] == Unit(timeUs + 10000 * j, HEADER + s[from + UNIT_BYTES * j..from + UNIT_BYTES * (j + 1)])
    decreases |s| - from
  {
    if |s| - from >= UNIT_BYTES {
      FullUnitAt(s, from + UNIT_BYTES, timeUs + 10000, if j > 0 then j - 1 else 0);
    }
  }

  /** The j-th unit begun in a buffer carries the j-th block of 1920 bytes behind the c frames that
      finish the previous unit, and is stamped t + floor(125 c / 6) + 10000 j. */
  lemma BegunAt(st: State, b: Buffer, j: nat)
    requires GoodState(st)
    requires j < |Begun(st, b)|
    ensures var s := Swapped(b.data);
            var used := Used(st.partial, |s|);
            var lo := used + UNIT_BYTES * j;
            && lo < |s|
            && Begun(st, b)[j] == Unit(b.timeUs + 125 * (used / FRAME_SIZE) / 6 + 10000 * j,
                                       HEADER + s[lo..if lo + UNIT_BYTES < |s| then lo + UNIT_BYTES else |s|])
  {
    hide Swapped, Feed, DurationUs, Used, FullUnits;
    var s := Swapped(b.data);
    var used := Used(st.partial, |s|);
    var size := |s| - used;
    var full := FullUnits(s, used, b.timeUs + DurationUs(used));
    DurationIsExact(used);
    FullUnitAt(s, used, b.timeUs + DurationUs(used), j);
    BlockInside(size, j);
    if j < |full| {
      assert Begun(st, b)[j] == full[j];
    } else {
      assert size % UNIT_BYTES != 0 && j == size / UNIT_BYTES;
      LastBegun(st, b, j);
      assert Begun(st, b)[j] == Feed(st, b).partial.value;
    }
  }

  /** What is left behind the full units is begun last. */
  lemma LastBegun(st: State, b: Buffer, n: nat)
    requires GoodState(st)
    requires var size := |Swapped(b.data)| - Used(st.partial, |Swapped(b.data)|);
             UNIT_BYTES * n < size < UNIT_BYTES * (n + 1)
    ensures var s := Swapped(b.data);
            var used := Used(st.partial, |s|);
            Feed(st, b).partial == Some(Unit(b.timeUs + DurationUs(used) + 10000 * n, HEADER + s[used + UNIT_BYTES * n..]))
  {
    hide Swapped, FullUnits, DurationUs;
  }

  lemma BlockInside(size: nat, j: nat)
    ensures j < size / UNIT_BYTES ==> UNIT_BYTES * (j + 1) <= size
    ensures j == size / UNIT_BYTES && size % UNIT_BYTES != 0 ==> UNIT_BYTES * j < size < UNIT_BYTES * (j + 1)
  {
  }

  // ---------------------------------------------------------------- times

  function Times(units: seq<Unit>): seq<int> {
    seq(|units|, i requires 0 <= i < |units| => units[i].timeUs)
  }

  /** All units begun so far: those posted, then the unfinished one. */
  function AllUnits(st: State): seq<Unit> {
    st.posted + if st.partial.Some? then [st.partial.value] else []
  }

  /** A unit that a later buffer adds to or finishes keeps the time it was begun with. */
  lemma FinishKeepsTimes(st: State, s: seq<byte>)
    requires GoodState(st)
    ensures Times(AllUnits(Finish(st, s))) == Times(AllUnits(st))
  {
  }

  lemma FinishUsesUp(st: State, s: seq<byte>)
    requires GoodState(st)
    ensures Finish(st, s).partial.Some? ==> Used(st.partial, |s|) == |s|
  {
  }

  /** Behind a position come the full units begun there and what is left over. */
  lemma BehindAddsUnits(st: State, s: seq<byte>, from: nat, timeUs: int)
    requires from <= |s| && (st.partial.Some? ==> from == |s|)
    ensures var t := Behind(st, s, from, timeUs);
            && ((|s| - from) % UNIT_BYTES != 0 ==> t.partial.Some?)
            && AllUnits(t) == AllUnits(st) + (FullUnits(s, from, timeUs)
                                              + if (|s| - from) % UNIT_BYTES != 0 && t.partial.Some? then [t.partial.value] else [])
  {
    FullUnitAt(s, from, timeUs, 0);
    hide FullUnits;
    var n, r := (|s| - from) / UNIT_BYTES, (|s| - from) % UNIT_BYTES;
    assert |s| - from == n * UNIT_BYTES + r;
    assert |FullUnits(s, from, timeUs)| == n;
  }

  /** A buffer only adds the times of the units begun in it. */
  lemma FeedAddsTimes(st: State, b: Buffer)
    requires GoodState(st)
    ensures Times(AllUnits(Feed(st, b))) == Times(AllUnits(st)) + Times(Begun(st, b))
  {
    hide Swapped, DurationUs, FullUnits, Finish, Behind, Used, AllUnits;
    var s := Swapped(b.data);
    var used := Used(st.partial, |s|);
    FinishKeepsTimes(st, s);
    FinishUsesUp(st, s);
    BehindAddsUnits(Finish(st, s), s, used, b.timeUs + DurationUs(used));
    assert AllUnits(Feed(st, b)) == AllUnits(Finish(st, s)) + Begun(st, b);
  }

  function BegunAll(st: State, buffers: seq<Buffer>): seq<Unit>
    requires GoodState(st)
    decreases |buffers|
  {
    if buffers == [] then []
    else
      FeedIsGood(st, buffers[0]);
      Begun(st, buffers[0]) + BegunAll(Feed(st, buffers[0]), buffers[1..])
  }

  /** Across any sequence of buffers, every unit keeps the time it was begun with until it is posted, in order. */
  lemma {:induction false} TimesKept(st: State, buffers: seq<Buffer>)
    requires GoodState(st)
    ensures Times(AllUnits(FeedAll(st, buffers))) == Times(AllUnits(st)) + Times(BegunAll(st, buffers))
    decreases |buffers|
  {
    hide Feed, GoodState, Begun, AllUnits;
    if buffers != [] {
      var b, rest := buffers[0], buffers[1..];
      FeedIsGood(st, b);
      FeedAddsTimes(st, b);
      TimesKept(Feed(st, b), rest);
      assert Times(Begun(st, b) + BegunAll(Feed(st, b), rest)) == Times(Begun(st, b)) + Times(BegunAll(Feed(st, b), rest));
    }
  }
}
