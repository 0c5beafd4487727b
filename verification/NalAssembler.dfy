/** Assembling NAL units into frames in front of the video decoder. */
module NalAssembler {
  import opened Common

  datatype Nal = Nal(timeUs: int, marker: bool, data: seq<byte>)

  datatype Frame = Frame(timeUs: int, data: seq<byte>)

  /** Every unit behind a start code. */
  function Joined(nals: seq<Nal>): seq<byte> {
    if nals == [] then [] else [0, 0, 0, 1] + nals[0].data + Joined(nals[1..])
  }

  /** The size the code allocates for a frame. */
  function JoinedSize(nals: seq<Nal>): nat {
    if nals == [] then 0 else 4 + |nals[0].data| + JoinedSize(nals[1..])
  }

  lemma {:induction false} JoinedSizeIsSize(nals: seq<Nal>)
    ensures |Joined(nals)| == JoinedSize(nals)
  {
    if nals != [] {
      JoinedSizeIsSize(nals[1..]);
    }
  }

  lemma {:induction false} JoinedAppend(a: seq<Nal>, b: seq<Nal>)
    ensures Joined(a + b) == Joined(a) + Joined(b)
  {
    if a == [] {
      assert a + b == b;
    } else {
      JoinedAppend(a[1..], b);
      assert (a + b)[1..] == a[1..] + b;
    }
  }

  /** One unit more on the left, one less on the right. */
  lemma JoinedAt(nals: seq<Nal>, i: nat)
    requires i < |nals|
    ensures Joined(nals[..i + 1]) == Joined(nals[..i]) + [0, 0, 0, 1] + nals[i].data
    ensures JoinedSize(nals[i..]) == 4 + |nals[i].data| + JoinedSize(nals[i + 1..])
  {
    assert nals[i..][1..] == nals[i + 1..];
    assert nals[..i + 1] == nals[..i] + [nals[i]];
    JoinedAppend(nals[..i], [nals[i]]);
    assert [nals[i]][1..] == [];
  }

  /** Unit i stands whole in the joined bytes, directly behind a start code and the units before it. */
  lemma {:induction false} UnitInJoined(nals: seq<Nal>, i: nat)
    requires i < |nals|
    ensures var at := JoinedSize(nals[..i]);
            && at + 4 + |nals[i].data| <= |Joined(nals)|
            && Joined(nals)[at..at + 4] == [0x00, 0x00, 0x00, 0x01]
            && Joined(nals)[at + 4..at + 4 + |nals[i].data|] == nals[i].data
            && JoinedSize(nals[..i + 1]) == at + 4 + |nals[i].data|
  {
    JoinedSizeIsSize(nals[..i]);
    JoinedSizeIsSize(nals[..i + 1]);
    JoinedAt(nals, i);
    assert nals[..i + 1] + nals[i + 1..] == nals;
    JoinedAppend(nals[..i + 1], nals[i + 1..]);
    hide Joined, JoinedSize;
    assert Joined(nals) == Joined(nals[..i]) + [0, 0, 0, 1] + nals[i].data + Joined(nals[i + 1..]);
  }

  /** The frame holds these units and carries their last time. */
  ghost predicate IsFrameOf(frame: Frame, nals: seq<Nal>) {
    nals != [] && frame.timeUs == nals[|nals| - 1].timeUs && frame.data == Joined(nals)
  }

  // ---------------------------------------------------------------- the queue

  class Assembler {
    var mVideoDLQueue: seq<Nal>

    constructor ()
      ensures mVideoDLQueue == []
    {
      mVideoDLQueue := [];
    }

    /** Takes one unit: either it waits, or a frame comes out and the queue starts anew. */
    method WaitForNextNal(accessUnit: Nal) returns (wait: bool, frame: Frame)
      modifies this
      ensures var s := Arrive(old(mVideoDLQueue), accessUnit);
              && mVideoDLQueue == s.queue
              && match s.group
                 case None => wait
                 case Some(nals) => !wait && IsFrameOf(frame, nals)
    {
      frame := Frame(0, []);
      var markEof := false;
      var timeUsChange := false;
      if mVideoDLQueue != [] {
        var lastBuf := mVideoDLQueue[|mVideoDLQueue| - 1];
        timeUsChange := accessUnit.timeUs != lastBuf.timeUs;
      }
      if !timeUsChange {
        markEof := accessUnit.marker;
        mVideoDLQueue := mVideoDLQueue + [accessUnit];
        if !markEof {
          return true, frame;
        }
      }
      frame := Flush();
      if !markEof {
        mVideoDLQueue := mVideoDLQueue + [accessUnit];
      }
      wait := false;
    }

    /** Copies the queued units behind start codes into one buffer and empties the queue. */
    method Flush() returns (frame: Frame)
      requires mVideoDLQueue != []
      modifies this
      ensures IsFrameOf(frame, old(mVideoDLQueue)) && mVideoDLQueue == []
    {
      var queue := mVideoDLQueue;
      var totalSize := 0;
      JoinedEnds(queue);
      hide Joined, JoinedSize;
      for i := 0 to |queue|
        invariant totalSize + 4 * i == JoinedSize(queue) - JoinedSize(queue[i..])
      {
        JoinedAt(queue, i);
        totalSize := totalSize + |queue[i].data|;
      }
      totalSize := totalSize + 4 * |queue|;
      var finalABuf := new byte[totalSize];
      var shiftOff := 0;
      for i := 0 to |queue|
        invariant shiftOff == |Joined(queue[..i])|
        invariant shiftOff + JoinedSize(queue[i..]) == totalSize == finalABuf.Length
        invariant finalABuf[..shiftOff] == Joined(queue[..i])
      {
        JoinedAt(queue, i);
        shiftOff := Copy(finalABuf, shiftOff, [0, 0, 0, 1]);
        shiftOff := Copy(finalABuf, shiftOff, queue[i].data);
      }
      assert finalABuf[..] == finalABuf[..shiftOff];
      frame := Frame(queue[|queue| - 1].timeUs, finalABuf[..]);
      mVideoDLQueue := [];
    }
  }

  method Copy(buffer: array<byte>, at: nat, bytes: seq<byte>) returns (at': nat)
    requires at + |bytes| <= buffer.Length
    modifies buffer
    ensures at' == at + |bytes| && buffer[..at'] == old(buffer[..at]) + bytes
  {
    forall i | 0 <= i < |bytes| {
      buffer[at + i] := bytes[i];
    }
    at' := at + |bytes|;
  }

  lemma JoinedEnds(nals: seq<Nal>)
    ensures nals[..0] == [] && nals[..|nals|] == nals && nals[0..] == nals && nals[|nals|..] == []
    ensures Joined([]) == [] && JoinedSize([]) == 0
  {
  }

  // ---------------------------------------------------------------- one arrival

  /** The queue after an arrival and the group of units that left as a frame, if any. */
  datatype Arrival = Arrival(queue: seq<Nal>, group: Option<seq<Nal>>)

  function Arrive(queue: seq<Nal>, nal: Nal): Arrival {
    if queue != [] && nal.timeUs != queue[|queue| - 1].timeUs then Arrival([nal], Some(queue))
    else if nal.marker then Arrival([], Some(queue + [nal]))
    else Arrival(queue + [nal], None)
  }

  // ---------------------------------------------------------------- all arrivals

  /** The groups emitted over a sequence of arrivals and the queue that is left. */
  datatype Split = Split(groups: seq<seq<Nal>>, queue: seq<Nal>)

  function Assemble(nals: seq<Nal>): Split {
    if nals == [] then Split([], [])
    else
      Extend(Assemble(nals[..|nals| - 1]), nals[|nals| - 1])
  }

  /** One arrival more. */
  function Extend(before: Split, nal: Nal): Split {
    var a := Arrive(before.queue, nal);
    Split(if a.group.Some? then before.groups + [a.group.value] else before.groups, a.queue)
  }

  lemma AssembleStep(nals: seq<Nal>, nal: Nal)
    ensures Assemble(nals + [nal]) == Extend(Assemble(nals), nal)
  {
    assert (nals + [nal])[..|nals|] == nals;
  }

  /** A frame ends with unit i on its arrival: it is a marker, and it did not change the time of a
      non-empty queue. */
  predicate EndsAt(nals: seq<Nal>, i: nat)
    requires i < |nals|
  {
    nals[i].marker && (i == 0 || EndsAt(nals, i - 1) || nals[i].timeUs == nals[i - 1].timeUs)
  }

  /** After n arrivals a frame boundary has shown itself in front of position i: at the start, behind
      a unit that ended a frame, or, once the next unit is there, at a change of time. */
  predicate Boundary(nals: seq<Nal>, n: nat, i: nat)
    requires i <= n <= |nals|
  {
    i == 0 || EndsAt(nals, i - 1) || (i < n && nals[i].timeUs != nals[i - 1].timeUs)
  }

  function Last(s: seq<nat>): nat
    requires s != []
  {
    s[|s| - 1]
  }

  predicate Increasing(s: seq<nat>) {
    forall k, l :: 0 <= k < l < |s| ==> s[k] < s[l]
  }

  lemma CutBehind(s: seq<nat>, c: nat)
    requires s != []
    ensures Increasing(s) && Last(s) < c ==> Increasing(s + [c])
    ensures Last(s + [c]) == c && (s + [c])[0] == s[0]
  {
  }

  /** The boundaries after n arrivals, in order. */
  function Cuts(nals: seq<Nal>, n: nat): (r: seq<nat>)
    requires n <= |nals|
    ensures r != [] && r[0] == 0 && Increasing(r) && Last(r) <= n
  {
    if n == 0 then [0]
    else
      var seen := Cuts(nals, n - 1);
      CutBehind(seen, n - 1);
      CutBehind(seen, n);
      CutBehind(seen + [n - 1], n);
      var changed := if Last(seen) < n - 1 && nals[n - 1].timeUs != nals[n - 2].timeUs then seen + [n - 1] else seen;
      if EndsAt(nals, n - 1) then changed + [n] else changed
  }

  /** The units between neighbouring cuts. */
  function Pieces(nals: seq<Nal>, cuts: seq<nat>): seq<seq<Nal>>
    requires Increasing(cuts) && (cuts != [] ==> Last(cuts) <= |nals|)
  {
    if |cuts| < 2 then [] else Pieces(nals, cuts[..|cuts| - 1]) + [nals[cuts[|cuts| - 2]..cuts[|cuts| - 1]]]
  }

  /** The cuts are exactly the boundaries that have shown themselves. */
  lemma {:induction false} CutsAreBoundaries(nals: seq<Nal>, n: nat, i: nat)
    requires i <= n <= |nals|
    ensures i in Cuts(nals, n) <==> Boundary(nals, n, i)
  {
    if n == 0 {
    } else if i < n {
      CutsAreBoundaries(nals, n - 1, i);
      OneMoreBoundary(nals, n, i);
    } else {
      NewCut(nals, n);
    }
  }

  lemma OneMoreBoundary(nals: seq<Nal>, n: nat, i: nat)
    requires i < n <= |nals|
    requires i in Cuts(nals, n - 1) <==> Boundary(nals, n - 1, i)
    ensures i in Cuts(nals, n) <==> Boundary(nals, n, i)
  {
    hide Cuts, EndsAt;
    var seen := Cuts(nals, n - 1);
    CutsStep(nals, n);
    LastCut(nals, n - 1);
    assert Last(seen) in seen;
  }

  lemma NewCut(nals: seq<Nal>, n: nat)
    requires 0 < n <= |nals|
    ensures n in Cuts(nals, n) <==> Boundary(nals, n, n)
  {
    var cuts := Cuts(nals, n);
    LastCut(nals, n);
    if n in cuts {
      var k :| 0 <= k < |cuts| && cuts[k] == n;
    }
  }

  /** The last boundary so far. */
  lemma LastCut(nals: seq<Nal>, n: nat)
    requires n <= |nals|
    ensures Last(Cuts(nals, n)) == n <==> n == 0 || EndsAt(nals, n - 1)
  {
  }

  lemma OneMorePiece(nals: seq<Nal>, cuts: seq<nat>, cut: nat)
    requires cuts != [] && Increasing(cuts) && Last(cuts) < cut <= |nals|
    ensures Increasing(cuts + [cut]) && Last(cuts + [cut]) == cut
    ensures Pieces(nals, cuts + [cut]) == Pieces(nals, cuts) + [nals[Last(cuts)..cut]]
  {
    assert (cuts + [cut])[..|cuts|] == cuts;
  }

  /** Over any sequence of units, the groups emitted are exactly the pieces between the boundaries,
      in order, and the queue is what follows the last boundary. */
  lemma {:induction false} AssembleIsSplit(nals: seq<Nal>, n: nat)
    requires n <= |nals|
    ensures SplitAt(Assemble(nals[..n]), nals, n)
  {
    hide *;
    if n == 0 {
      SplitAtStart(nals);
    } else {
      assert SplitAt(Assemble(nals[..n - 1]), nals, n - 1) by { AssembleIsSplit(nals, n - 1); }
      ExtendIsCut(nals, n, Assemble(nals[..n - 1]));
      AssembleStep(nals[..n - 1], nals[n - 1]);
      assert nals[..n - 1] + [nals[n - 1]] == nals[..n];
    }
  }

  ghost predicate SplitAt(s: Split, nals: seq<Nal>, n: nat)
    requires n <= |nals|
  {
    s.groups == Pieces(nals, Cuts(nals, n)) && s.queue == nals[Last(Cuts(nals, n))..n]
  }

  lemma SplitAtStart(nals: seq<Nal>)
    ensures SplitAt(Assemble(nals[..0]), nals, 0)
  {
    assert nals[..0] == [] && nals[0..0] == [];
  }

  lemma CutsStep(nals: seq<Nal>, n: nat)
    requires 0 < n <= |nals|
    ensures var seen := Cuts(nals, n - 1);
            Cuts(nals, n) == if Last(seen) < n - 1 && nals[n - 1].timeUs != nals[n - 2].timeUs then seen + [n - 1]
                             else if nals[n - 1].marker then seen + [n] else seen
  {
    LastCut(nals, n - 1);
  }

  lemma ExtendIsCut(nals: seq<Nal>, n: nat, before: Split)
    requires 0 < n <= |nals|
    requires SplitAt(before, nals, n - 1)
    ensures SplitAt(Extend(before, nals[n - 1]), nals, n)
  {
    hide Pieces, Cuts, EndsAt;
    var cuts := Cuts(nals, n - 1);
    CutsStep(nals, n);
    SliceGrows(nals, Last(cuts), n);
    SliceGrows(nals, n - 1, n);
    if Last(cuts) < n - 1 && nals[n - 1].timeUs != nals[n - 2].timeUs {
      OneMorePiece(nals, cuts, n - 1);
    } else if nals[n - 1].marker {
      OneMorePiece(nals, cuts, n);
    }
  }

  lemma SliceGrows(nals: seq<Nal>, lo: nat, n: nat)
    requires lo < n <= |nals|
    ensures nals[lo..n] == nals[lo..n - 1] + [nals[n - 1]]
    ensures lo == n - 1 ==> nals[lo..n] == [nals[n - 1]]
    ensures lo < n - 1 ==> nals[lo..n - 1][n - 2 - lo] == nals[n - 2]
    ensures nals[n..n] == []
  {
  }

  function Flatten(groups: seq<seq<Nal>>): seq<Nal> {
    if groups == [] then [] else Flatten(groups[..|groups| - 1]) + groups[|groups| - 1]
  }

  /** Nothing is lost, duplicated or reordered: the groups in order, then the queue, are the units
      that arrived. */
  lemma {:induction false} NothingLost(nals: seq<Nal>)
    ensures Conserved(Assemble(nals), nals)
  {
    hide *;
    if nals == [] {
      NothingConserved();
    } else {
      var most, nal := nals[..|nals| - 1], nals[|nals| - 1];
      assert Conserved(Assemble(most), most) by { NothingLost(most); }
      ExtendLosesNothing(Assemble(most), most, nal);
      AssembleStep(most, nal);
      assert most + [nal] == nals;
    }
  }

  lemma NothingConserved()
    ensures Conserved(Assemble([]), [])
  {
  }

  ghost predicate Conserved(s: Split, nals: seq<Nal>) {
    Flatten(s.groups) + s.queue == nals
  }

  lemma ExtendLosesNothing(before: Split, nals: seq<Nal>, nal: Nal)
    requires Conserved(before, nals)
    ensures Conserved(Extend(before, nal), nals + [nal])
  {
    var a := Arrive(before.queue, nal);
    if a.group.Some? {
      FlattenOneMore(before.groups, a.group.value);
    }
    assert (Flatten(before.groups) + before.queue) + [nal] == Flatten(before.groups) + (before.queue + [nal]);
  }

  lemma FlattenOneMore(groups: seq<seq<Nal>>, group: seq<Nal>)
    ensures Flatten(groups + [group]) == Flatten(groups) + group
  {
    assert (groups + [group])[..|groups|] == groups;
  }

  ghost predicate SameTime(nals: seq<Nal>) {
    forall i :: 0 <= i < |nals| ==> nals[i].timeUs == nals[0].timeUs
  }

  /** Every frame is non-empty and holds units of a single time. */
  lemma {:induction false} FramesHaveOneTime(nals: seq<Nal>)
    ensures var s := Assemble(nals);
            SameTime(s.queue) && forall g :: g in s.groups ==> g != [] && SameTime(g)
  {
    if nals != [] {
      FramesHaveOneTime(nals[..|nals| - 1]);
      var before := Assemble(nals[..|nals| - 1]);
      var nal := nals[|nals| - 1];
      if before.queue != [] && nal.timeUs == before.queue[|before.queue| - 1].timeUs {
        assert SameTime(before.queue + [nal]);
      }
    }
  }

  /** A marker that arrives with a new time behind a non-empty queue does not end its frame: it stays
      queued until another unit comes. */
  lemma MarkerWithNewTimeWaits(queue: seq<Nal>, nal: Nal)
    requires queue != [] && nal.marker
    ensures var a := Arrive(queue, nal);
            (a.queue == [] <==> nal.timeUs == queue[|queue| - 1].timeUs)
            && (nal.timeUs != queue[|queue| - 1].timeUs ==> a.queue == [nal])
  {
  }

  /** The data of the frames, one behind the other. */
  function Stream(frames: seq<Frame>): seq<byte> {
    if frames == [] then [] else Stream(frames[..|frames| - 1]) + frames[|frames| - 1].data
  }

  /** The frames are those of the groups, one for one. */
  ghost predicate AreFramesOf(frames: seq<Frame>, groups: seq<seq<Nal>>) {
    |frames| == |groups| && forall k :: 0 <= k < |frames| ==> IsFrameOf(frames[k], groups[k])
  }

  lemma {:induction false} StreamIsJoined(frames: seq<Frame>, groups: seq<seq<Nal>>)
    requires AreFramesOf(frames, groups)
    ensures Stream(frames) == Joined(Flatten(groups))
  {
    if frames != [] {
      var n := |frames| - 1;
      StreamIsJoined(frames[..n], groups[..n]);
      JoinedAppend(Flatten(groups[..n]), groups[n]);
    }
  }

  lemma MoreFrames(frames: seq<Frame>, groups: seq<seq<Nal>>, frame: Frame, group: seq<Nal>)
    requires AreFramesOf(frames, groups) && IsFrameOf(frame, group)
    ensures AreFramesOf(frames + [frame], groups + [group])
  {
  }

  lemma FramesAreArrivals(nals: seq<Nal>, frames: seq<Frame>)
    requires AreFramesOf(frames, Assemble(nals).groups)
    ensures Stream(frames) + Joined(Assemble(nals).queue) == Joined(nals)
  {
    StreamIsJoined(frames, Assemble(nals).groups);
    NothingLost(nals);
    JoinedAppend(Flatten(Assemble(nals).groups), Assemble(nals).queue);
  }

  lemma FramesCarryTheirTime(nals: seq<Nal>, frames: seq<Frame>)
    requires AreFramesOf(frames, Assemble(nals).groups)
    ensures forall k, i :: 0 <= k < |frames| && 0 <= i < |Assemble(nals).groups[k]| ==>
              frames[k].timeUs == Assemble(nals).groups[k][i].timeUs
  {
    FramesHaveOneTime(nals);
    forall k, i | 0 <= k < |frames| && 0 <= i < |Assemble(nals).groups[k]|
      ensures frames[k].timeUs == Assemble(nals).groups[k][i].timeUs
    {
      var group := Assemble(nals).groups[k];
      assert group in Assemble(nals).groups && SameTime(group);
      assert group[|group| - 1].timeUs == group[0].timeUs == group[i].timeUs;
    }
  }

  /** The calls over a whole sequence of units: the frames that come out, with what is left in the queue, hold
      every byte of every unit behind its start code, in order; every frame is one group of the splitter, and its
      time is that of each of its units. */
  method FeedAll(nals: seq<Nal>) returns (frames: seq<Frame>, left: seq<Nal>)
    ensures Stream(frames) + Joined(left) == Joined(nals)
    ensures left == Assemble(nals).queue && AreFramesOf(frames, Assemble(nals).groups)
    ensures forall k, i :: 0 <= k < |frames| && 0 <= i < |Assemble(nals).groups[k]| ==>
              frames[k].timeUs == Assemble(nals).groups[k][i].timeUs
  {
    var sink := new Assembler();
    frames := [];
    assert nals[..0] == [];
    for i := 0 to |nals|
      invariant sink.mVideoDLQueue == Assemble(nals[..i]).queue
      invariant AreFramesOf(frames, Assemble(nals[..i]).groups)
    {
      assert nals[..i + 1][..i] == nals[..i];
      ghost var before := Assemble(nals[..i]);
      var wait, frame := sink.WaitForNextNal(nals[i]);
      if !wait {
        MoreFrames(frames, before.groups, frame, Arrive(before.queue, nals[i]).group.value);
        frames := frames + [frame];
      }
    }
    assert nals[..|nals|] == nals;
    left := sink.mVideoDLQueue;
    FramesAreArrivals(nals, frames);
    FramesCarryTheirTime(nals, frames);
  }
}
