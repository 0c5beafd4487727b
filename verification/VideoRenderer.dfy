/** Showing decoded frames in step with the audio, and noticing when the peer's video stops. */
module VideoRenderer {
  import opened Common
  import BitMask

  const ERROR_DELAY_US := 3000000
  const AVSYNC_THRESHOLD := 10000000
  const EARLY_US := 20000
  const PAUSE_DELAY_LOOP := 3

  datatype OutputInfo = OutputInfo(index: nat, timeUs: int)

  /** What the surroundings answer while one frame is examined. */
  datatype Reading = Reading(avSync: bool, audioRenderer: Option<int>, device: int, rendered: bool)

  // ---------------------------------------------------------------- how early a frame is

  function VideoNtp(maps: map<int, int>, ntpIsValid: bool, videoTime: int): int {
    if ntpIsValid && videoTime in maps then maps[videoTime] else 0
  }

  function Distance(a: int, b: int): nat { if a < b then b - a else a - b }

  function AudioPlayOutTime(r: Reading, maps: map<int, int>, ntpIsValid: bool, videoTime: int): int {
    match r.audioRenderer
    case Some(t) => t
    case None =>
      var ntp := VideoNtp(maps, ntpIsValid, videoTime);
      if r.device == 0 || ntp == 0 || Distance(r.device, ntp) > AVSYNC_THRESHOLD then videoTime else r.device
  }

  /** How much earlier than the audio a frame is; a frame that is not compared counts as on time. */
  function Lead(r: Reading, maps: map<int, int>, ntpIsValid: bool, videoTime: int): int {
    if r.avSync then videoTime - AudioPlayOutTime(r, maps, ntpIsValid, videoTime) else 0
  }

  /** The device clock can be compared with a frame: both are known, and it is within 10 seconds of the frame's
      network time. */
  predicate Comparable(r: Reading, maps: map<int, int>, ntpIsValid: bool, videoTime: int) {
    && r.device != 0 && ntpIsValid && videoTime in maps && maps[videoTime] != 0
    && maps[videoTime] - 10_000_000 <= r.device <= maps[videoTime] + 10_000_000
  }

  /** What a frame is compared with: nothing without A/V sync; the audio renderer, if there is one; else the clock
      of the device, where it can be compared. */
  lemma LeadIsExact(r: Reading, maps: map<int, int>, ntpIsValid: bool, videoTime: int)
    ensures Lead(r, maps, ntpIsValid, videoTime)
         == if !r.avSync then 0
            else if r.audioRenderer.Some? then videoTime - r.audioRenderer.value
            else if Comparable(r, maps, ntpIsValid, videoTime) then videoTime - r.device
            else 0
  {
  }

  // ---------------------------------------------------------------- one render message

  /** The frames a render message shows, and the delay of the next message if frames are left. */
  datatype Outcome = Outcome(shown: nat, maps: map<int, int>, delayUs: Option<int>, failed: bool)

  function Round(q: seq<OutputInfo>, maps: map<int, int>, ntpIsValid: bool, rs: seq<Reading>): (o: Outcome)
    requires |q| <= |rs|
    ensures o.shown <= |q| && (o.delayUs.Some? <==> o.shown < |q|)
  {
    if q == [] then Outcome(0, maps, None, false)
    else
      var lead := Lead(rs[0], maps, ntpIsValid, q[0].timeUs);
      if lead > EARLY_US then Outcome(0, maps, Some(lead / 2), false)
      else if !rs[0].rendered then Outcome(1, maps, if |q| > 1 then Some(ERROR_DELAY_US) else None, true)
      else
        var o := Round(q[1..], maps - {q[0].timeUs}, ntpIsValid, rs[1..]);
        o.(shown := o.shown + 1)
  }

  /** The times still known when a frame is examined. */
  function MapsAt(q: seq<OutputInfo>, maps: map<int, int>, i: nat): map<int, int>
    requires i <= |q|
  {
    if i == 0 then maps else MapsAt(q[1..], maps - {q[0].timeUs}, i - 1)
  }

  function LeadAt(q: seq<OutputInfo>, maps: map<int, int>, ntpIsValid: bool, rs: seq<Reading>, i: nat): int
    requires i < |q| <= |rs|
  {
    Lead(rs[i], MapsAt(q, maps, i), ntpIsValid, q[i].timeUs)
  }

  /** The first n frames were due, and showing went on as long as it could. */
  ghost predicate ShowsUpTo(q: seq<OutputInfo>, maps: map<int, int>, ntpIsValid: bool, rs: seq<Reading>, n: nat)
    requires |q| <= |rs|
  {
    && n <= |q|
    && (forall i :: 0 <= i < n ==> LeadAt(q, maps, ntpIsValid, rs, i) <= EARLY_US)
    && (forall i :: 0 <= i < n - 1 ==> rs[i].rendered)
    && (n == |q| || (n > 0 && !rs[n - 1].rendered) || LeadAt(q, maps, ntpIsValid, rs, n) > EARLY_US)
  }

  /** A render message shows exactly the frames that are due, up to a refused one. */
  lemma {:induction false} ShowsExactlyTheDueFrames(q: seq<OutputInfo>, maps: map<int, int>, ntpIsValid: bool,
                                                    rs: seq<Reading>, n: nat)
    requires |q| <= |rs|
    ensures n == Round(q, maps, ntpIsValid, rs).shown <==> ShowsUpTo(q, maps, ntpIsValid, rs, n)
  {
    if q != [] {
      var lead := Lead(rs[0], maps, ntpIsValid, q[0].timeUs);
      assert LeadAt(q, maps, ntpIsValid, rs, 0) == lead;
      if lead <= EARLY_US && rs[0].rendered {
        if n > 0 {
          ShowsExactlyTheDueFrames(q[1..], maps - {q[0].timeUs}, ntpIsValid, rs[1..], n - 1);
          ShiftShows(q, maps, ntpIsValid, rs, n);
        }
      }
    }
  }

  lemma ShiftShows(q: seq<OutputInfo>, maps: map<int, int>, ntpIsValid: bool, rs: seq<Reading>, n: nat)
    requires 0 < |q| <= |rs| && 0 < n && rs[0].rendered
    requires LeadAt(q, maps, ntpIsValid, rs, 0) <= EARLY_US
    ensures ShowsUpTo(q, maps, ntpIsValid, rs, n)
       <==> ShowsUpTo(q[1..], maps - {q[0].timeUs}, ntpIsValid, rs[1..], n - 1)
  {
    var m := maps - {q[0].timeUs};
    assert forall i :: 0 <= i < |q| - 1 ==>
      LeadAt(q[1..], m, ntpIsValid, rs[1..], i) == LeadAt(q, maps, ntpIsValid, rs, i + 1);
    assert forall i :: 0 <= i < |rs| - 1 ==> rs[1..][i] == rs[i + 1];
    if ShowsUpTo(q[1..], m, ntpIsValid, rs[1..], n - 1) {
      forall i | 0 <= i < n ensures LeadAt(q, maps, ntpIsValid, rs, i) <= EARLY_US {
        if i > 0 {
          assert LeadAt(q[1..], m, ntpIsValid, rs[1..], i - 1) <= EARLY_US;
        }
      }
      forall i | 0 <= i < n - 1 ensures rs[i].rendered {
        if i > 0 {
          assert rs[1..][i - 1].rendered;
        }
      }
    }
  }

  /** The network times left are those of the frames not shown, and of one that was refused. */
  lemma {:induction false} ShownAreForgotten(q: seq<OutputInfo>, maps: map<int, int>, ntpIsValid: bool, rs: seq<Reading>, time: int)
    requires |q| <= |rs|
    ensures var o := Round(q, maps, ntpIsValid, rs);
            var n := if o.failed then o.shown - 1 else o.shown;
            && 0 <= n <= |q|
            && (time in o.maps <==> time in maps && forall i :: 0 <= i < n ==> q[i].timeUs != time)
            && (time in o.maps ==> o.maps[time] == maps[time])
  {
    if q != [] && Lead(rs[0], maps, ntpIsValid, q[0].timeUs) <= EARLY_US && rs[0].rendered {
      ShownAreForgotten(q[1..], maps - {q[0].timeUs}, ntpIsValid, rs[1..], time);
      var o := Round(q, maps, ntpIsValid, rs);
      var n := if o.failed then o.shown - 1 else o.shown;
      assert (forall i :: 0 <= i < n ==> q[i].timeUs != time)
        <==> q[0].timeUs != time && forall i :: 0 <= i < n - 1 ==> q[1..][i].timeUs != time by {
        if q[0].timeUs != time && forall i :: 0 <= i < n - 1 ==> q[1..][i].timeUs != time {
          forall i | 0 <= i < n ensures q[i].timeUs != time {
            if i > 0 {
              assert q[1..][i - 1].timeUs != time;
            }
          }
        }
      }
    }
  }

  // ---------------------------------------------------------------- the handler

  /** The frames from k on are what is left of the message's work. */
  ghost predicate Resumes(q: seq<OutputInfo>, start: map<int, int>, valid: bool, rs: seq<Reading>,
                          k: nat, maps: map<int, int>)
  {
    && k <= |q| <= |rs|
    && var o, p := Round(q, start, valid, rs), Round(q[k..], maps, valid, rs[k..]);
       o == p.(shown := k + p.shown)
  }

  lemma OneExamined(q: seq<OutputInfo>, start: map<int, int>, valid: bool, rs: seq<Reading>,
                    k: nat, maps: map<int, int>)
    requires Resumes(q, start, valid, rs, k, maps)
    ensures k == |q| ==> Round(q, start, valid, rs) == Outcome(k, maps, None, false)
    ensures k < |q| ==>
      var lead, o := Lead(rs[k], maps, valid, q[k].timeUs), Round(q, start, valid, rs);
      if lead > EARLY_US then o == Outcome(k, maps, Some(lead / 2), false)
      else if !rs[k].rendered then
        o == Outcome(k + 1, maps, if k + 1 < |q| then Some(ERROR_DELAY_US) else None, true)
      else Resumes(q, start, valid, rs, k + 1, maps - {q[k].timeUs})
  {
    if k < |q| {
      assert q[k..][0] == q[k] && rs[k..][0] == rs[k] && q[k..][1..] == q[k + 1..] && rs[k..][1..] == rs[k + 1..];
    }
  }

  class Renderer {
    var mVideoOutputBuffers: seq<OutputInfo>
    var mVideoRenderPending: bool
    var mNumFrames: nat
    var mFirstVideoTimeBaseValid: bool
    var mNTPIsValid: bool
    var mVideoTimeUsNTPMaps: map<int, int>

    /** The delays of the render messages in flight, the scan messages, the notices and the frames given out. */
    var renderMessages: seq<int>
    var scanMessages: seq<Scan>
    var notices: seq<bool>
    var submitted: seq<OutputInfo>

    ghost var arrived: seq<OutputInfo>
    ghost var world: World     // the queue and its message on the clock of the device
    ghost var postedAt: int    // when the render message in flight was posted

    /** What holds whenever a message is about to be handled. */
    ghost predicate Valid()
      reads this
    {
      Queued() && Timed()
    }

    /** The queue and its message on the clock of the device. */
    ghost predicate Timed()
      reads this
    {
      && world.queue == mVideoOutputBuffers && world.maps == mVideoTimeUsNTPMaps && world.ntpIsValid == mNTPIsValid
      && world.due == if renderMessages != [] then Some(postedAt + renderMessages[0]) else None
    }

    ghost predicate Queued()
      reads this`submitted, this`mVideoOutputBuffers, this`arrived, this`mNumFrames, this`renderMessages,
            this`mVideoRenderPending, this`mFirstVideoTimeBaseValid, this`scanMessages
    {
      && submitted + mVideoOutputBuffers == arrived
      && mNumFrames == |submitted|
      && |renderMessages| == (if mVideoRenderPending then 1 else 0)
      && (mVideoOutputBuffers != [] <==> mVideoRenderPending)
      && (arrived != [] ==> mFirstVideoTimeBaseValid)
      && |scanMessages| == (if mFirstVideoTimeBaseValid then 1 else 0)
    }

    constructor ()
      ensures Valid() && arrived == [] && renderMessages == [] && notices == [] && world == START
    {
      mVideoOutputBuffers, mVideoRenderPending, mNumFrames := [], false, 0;
      mFirstVideoTimeBaseValid, mNTPIsValid, mVideoTimeUsNTPMaps := false, false, map[];
      renderMessages, scanMessages, notices, submitted, arrived := [], [], [], [], [];
      world, postedAt := START, 0;
    }

    /** A unit on its way to the decoder carries the network time of its frame. */
    method QueueAccessUnit(timeUs: int, ntp: int, valid: bool)
      requires Valid()
      modifies this`mNTPIsValid, this`mVideoTimeUsNTPMaps, this`world
      ensures Valid() && world == Step(old(world), Tells(timeUs, ntp, valid))
      ensures mNTPIsValid == valid
      ensures mVideoTimeUsNTPMaps == if valid then old(mVideoTimeUsNTPMaps)[timeUs := ntp] else old(mVideoTimeUsNTPMaps)
    {
      mNTPIsValid := valid;
      if mNTPIsValid {
        mVideoTimeUsNTPMaps := mVideoTimeUsNTPMaps[timeUs := ntp];
      }
      world := Step(world, Tells(timeUs, ntp, valid));
    }

    /** A decoded frame joins the queue; the first one announces the video and starts the scan. */
    method QueueOutputBuffer(info: OutputInfo, now: int)
      requires Valid()
      modifies this
      ensures world == Step(old(world), Arrives(info, now))
      ensures Valid() && arrived == old(arrived) + [info] && submitted == old(submitted)
      ensures renderMessages == if old(mVideoRenderPending) then old(renderMessages) else [0]
      ensures notices == if old(mFirstVideoTimeBaseValid) then old(notices) else old(notices) + [true]
      ensures scanMessages == if old(mFirstVideoTimeBaseValid) then old(scanMessages)
                              else [Scan(old(mNumFrames), true, 0)]
      ensures mVideoTimeUsNTPMaps == old(mVideoTimeUsNTPMaps) && mNTPIsValid == old(mNTPIsValid)
    {
      if !mFirstVideoTimeBaseValid {
        mFirstVideoTimeBaseValid := true;
        notices := notices + [true];
        scanMessages := scanMessages + [Scan(mNumFrames, true, 0)];
      }
      mVideoOutputBuffers := mVideoOutputBuffers + [info];
      arrived := arrived + [info];
      assert submitted + mVideoOutputBuffers == arrived;
      world, postedAt := Step(world, Arrives(info, now)), if mVideoRenderPending then postedAt else now;
      ScheduleVideoRenderIfNecessary(0);
    }

    method ScheduleVideoRenderIfNecessary(delayUs: int)
      modifies this`mVideoRenderPending, this`renderMessages
      ensures if old(mVideoRenderPending) || mVideoOutputBuffers == []
              then mVideoRenderPending == old(mVideoRenderPending) && renderMessages == old(renderMessages)
              else mVideoRenderPending && renderMessages == old(renderMessages) + [delayUs]
    {
      if mVideoRenderPending || mVideoOutputBuffers == [] {
        return;
      }
      mVideoRenderPending := true;
      renderMessages := renderMessages + [delayUs];
    }

    /** Handles the render message in flight: the due frames leave in order, and what is left keeps one message. */
    method OnRenderVideo(rs: seq<Reading>, ts: seq<int>) returns (failed: bool)
      requires Valid() && mVideoRenderPending && |ts| == |rs| >= |mVideoOutputBuffers|
      modifies this
      ensures Valid() && arrived == old(arrived)
      ensures world == Step(old(world), Fires(ts, rs))
      ensures Handled(old(mVideoOutputBuffers), old(mVideoTimeUsNTPMaps), old(submitted), rs, failed)
      ensures mNTPIsValid == old(mNTPIsValid) && notices == old(notices) && scanMessages == old(scanMessages)
      ensures mFirstVideoTimeBaseValid == old(mFirstVideoTimeBaseValid)
    {
      hide Round, Step, Queued, AskedAt;
      QueuedMessage();
      ghost var w := world;
      WorldFires(w, ts, rs);
      failed := HandleQueue(rs);
      world := Step(w, Fires(ts, rs));
      postedAt := AskedAt(Round(w.queue, w.maps, w.ntpIsValid, rs), ts);
    }

    lemma QueuedMessage()
      requires Queued() && mVideoRenderPending
      ensures renderMessages != [] && mVideoOutputBuffers != []
    {
    }

    /** The queue after a render message, what was submitted and the message that follows. */
    ghost predicate Handled(q: seq<OutputInfo>, maps: map<int, int>, given: seq<OutputInfo>, rs: seq<Reading>, failed: bool)
      requires |q| <= |rs|
      reads this
    {
      var o := Round(q, maps, mNTPIsValid, rs);
      && submitted == given + q[..o.shown]
      && mVideoOutputBuffers == q[o.shown..]
      && mVideoTimeUsNTPMaps == o.maps
      && failed == o.failed
      && renderMessages == if o.delayUs.Some? then [o.delayUs.value] else []
    }

    method HandleQueue(rs: seq<Reading>) returns (failed: bool)
      requires Queued() && mVideoRenderPending && |rs| >= |mVideoOutputBuffers|
      modifies this`mVideoOutputBuffers, this`mVideoTimeUsNTPMaps, this`mNumFrames, this`submitted, this`renderMessages,
               this`mVideoRenderPending
      ensures Queued()
      ensures Handled(old(mVideoOutputBuffers), old(mVideoTimeUsNTPMaps), old(submitted), rs, failed)
    {
      hide Round, Lead;
      mVideoRenderPending := false;
      renderMessages := [];
      ghost var q, given := mVideoOutputBuffers, submitted;
      var delayUs;
      delayUs, failed := ShowDueFrames(rs);
      ghost var n := |q| - |mVideoOutputBuffers|;
      assert given + q[..n] + q[n..] == given + q;
      ScheduleVideoRenderIfNecessary(delayUs);
    }

    /** The loop of the render message, with the delay it asks for. */
    method ShowDueFrames(rs: seq<Reading>) returns (delayUs: int, failed: bool)
      requires |rs| >= |mVideoOutputBuffers|
      modifies this`mVideoOutputBuffers, this`mVideoTimeUsNTPMaps, this`mNumFrames, this`submitted
      ensures var o := Round(old(mVideoOutputBuffers), old(mVideoTimeUsNTPMaps), mNTPIsValid, rs);
              && submitted == old(submitted) + old(mVideoOutputBuffers)[..o.shown]
              && mVideoOutputBuffers == old(mVideoOutputBuffers)[o.shown..]
              && mVideoTimeUsNTPMaps == o.maps
              && mNumFrames == old(mNumFrames) + o.shown
              && failed == o.failed
              && (o.delayUs.Some? ==> delayUs == o.delayUs.value)
    {
      failed, delayUs := false, 10000;
      ghost var q, start := mVideoOutputBuffers, mVideoTimeUsNTPMaps;
      var k := 0;
      assert Resumes(q, start, mNTPIsValid, rs, 0, start) by {
        assert q[0..] == q && rs[0..] == rs;
      }
      hide Round, Resumes, Lead;
      while mVideoOutputBuffers != []
        invariant k <= |q| && mVideoOutputBuffers == q[k..]
        invariant submitted == old(submitted) + q[..k]
        invariant mNumFrames == old(mNumFrames) + k && !failed
        invariant Resumes(q, start, mNTPIsValid, rs, k, mVideoTimeUsNTPMaps)
        decreases |mVideoOutputBuffers|
      {
        OneExamined(q, start, mNTPIsValid, rs, k, mVideoTimeUsNTPMaps);
        var info, reading := mVideoOutputBuffers[0], rs[k];
        delayUs := Lead(reading, mVideoTimeUsNTPMaps, mNTPIsValid, info.timeUs);
        if delayUs > EARLY_US {
          delayUs := delayUs / 2;
          return;
        }
        delayUs := 0;
        mNumFrames := mNumFrames + 1;
        submitted := submitted + [info];
        mVideoOutputBuffers := mVideoOutputBuffers[1..];
        k := k + 1;
        if !reading.rendered {
          failed, delayUs := true, ERROR_DELAY_US;
          return;
        }
        mVideoTimeUsNTPMaps := mVideoTimeUsNTPMaps - {info.timeUs};
      }
      OneExamined(q, start, mNTPIsValid, rs, k, mVideoTimeUsNTPMaps);
    }

    /** Handles the scan message: it compares the frames shown with those of the last scan, and posts itself anew. */
    method OnScanDisplayStatus()
      requires Valid() && mFirstVideoTimeBaseValid
      modifies this`scanMessages, this`notices
      ensures Valid()
      ensures scanMessages == [NextScan(old(scanMessages[0]), mNumFrames)]
      ensures notices == old(notices) + Notice(old(scanMessages[0]), scanMessages[0])
    {
      var msg := scanMessages[0];
      scanMessages := [];
      var nowShow, loop := msg.lastShow, msg.loop;
      if mNumFrames > msg.lastNum && !msg.lastShow {
        nowShow := true;
      } else if mNumFrames <= msg.lastNum && msg.lastShow {
        if loop >= PAUSE_DELAY_LOOP {
          nowShow := false;
        } else {
          loop := loop + 1;
        }
      } else {
        loop := 0;
      }
      if nowShow != msg.lastShow {
        notices := notices + [nowShow];
        loop := 0;
      }
      scanMessages := scanMessages + [Scan(mNumFrames, nowShow, loop)];
    }

    /** Any run of the handlers is a run on the clock of the device. */
    method Run(es: seq<Event>, ghost offset: int)
      requires Valid() && PossibleRun(world, es, offset)
      modifies this
      ensures Valid() && world == WorldAfter(old(world), es, offset)
    {
      for i := 0 to |es|
        invariant Valid() && PossibleRun(world, es[i..], offset)
        invariant WorldAfter(old(world), es, offset) == WorldAfter(world, es[i..], offset)
      {
        assert es[i..][0] == es[i] && es[i..][1..] == es[i + 1..];
        match es[i]
        case Tells(timeUs, ntp, valid) => QueueAccessUnit(timeUs, ntp, valid);
        case Arrives(info, now) => QueueOutputBuffer(info, now);
        case Fires(ts, rs) =>
          var failed := OnRenderVideo(rs, ts);
      }
    }
  }

  // ---------------------------------------------------------------- timing over whole runs

  /** The queue with its pending message, and how the frame at its head has been put off. */
  datatype World = World(queue: seq<OutputInfo>, maps: map<int, int>, ntpIsValid: bool, due: Option<int>,
                         waits: nat, firstLead: int, leads: seq<int>)

  /** The timestamp of a unit becomes known, a decoded frame arrives, or the render message is delivered and
      frame i is examined at ts[i]. */
  datatype Event =
    | Tells(timeUs: int, ntp: int, valid: bool)
    | Arrives(info: OutputInfo, now: int)
    | Fires(ts: seq<int>, rs: seq<Reading>)

  /** What a frame examined at time t is compared with, if anything: the audio renderer or, without one, the clock of
      the device. */
  predicate Clocked(r: Reading, t: int, offset: int) {
    !r.avSync || r.audioRenderer == Some(t + offset) || (r.audioRenderer.None? && r.device == t + offset)
  }

  lemma LeadOnClock(r: Reading, maps: map<int, int>, ntpIsValid: bool, videoTime: int, t: int, offset: int)
    requires Clocked(r, t, offset)
    ensures var lead := Lead(r, maps, ntpIsValid, videoTime);
            lead == videoTime - (t + offset) || (lead == 0 && !(r.avSync && r.audioRenderer.Some?))
  {
  }

  /** The clock compared with runs at unit rate, and messages are never early. */
  ghost predicate Possible(w: World, e: Event, offset: int) {
    e.Fires? ==>
      && w.due.Some?
      && 0 < |w.queue| <= |e.rs| && |e.rs| == |e.ts|
      && w.due.value <= e.ts[0]
      && forall i :: 0 <= i < |e.rs| ==> Clocked(e.rs[i], e.ts[i], offset)
  }

  function LeadsOf(q: seq<OutputInfo>, maps: map<int, int>, valid: bool, rs: seq<Reading>, n: nat): (r: seq<int>)
    requires n <= |q| <= |rs|
    ensures |r| == n
  {
    seq(n, i requires 0 <= i < n => LeadAt(q, maps, valid, rs, i))
  }

  /** One event; the next message is due its delay after the reading that asked for it. */
  function Step(w: World, e: Event): World
    requires e.Fires? ==> w.due.Some? && 0 < |w.queue| <= |e.rs| && |e.rs| == |e.ts|
  {
    match e
    case Tells(timeUs, ntp, valid) =>
      w.(maps := if valid then w.maps[timeUs := ntp] else w.maps, ntpIsValid := valid)
    case Arrives(info, now) =>
      w.(queue := w.queue + [info], due := if w.due.Some? then w.due else Some(now))
    case Fires(ts, rs) =>
      var o := Round(w.queue, w.maps, w.ntpIsValid, rs);
      var rest := w.(queue := w.queue[o.shown..], maps := o.maps,
                     leads := w.leads + LeadsOf(w.queue, w.maps, w.ntpIsValid, rs, o.shown));
      if o.delayUs.None? then rest.(due := None, waits := 0)
      else if o.failed then rest.(due := Some(ts[o.shown - 1] + o.delayUs.value), waits := 0)
      else
        var next := rest.(due := Some(ts[o.shown] + o.delayUs.value));
        if o.shown == 0 && w.waits > 0 then next.(waits := w.waits + 1)
        else next.(waits := 1, firstLead := LeadAt(w.queue, w.maps, w.ntpIsValid, rs, o.shown))
  }

  /** The reading after which a render message asks for the next one. */
  function AskedAt(o: Outcome, ts: seq<int>): int {
    if o.failed && 0 < o.shown <= |ts| then ts[o.shown - 1] else if o.shown < |ts| then ts[o.shown] else 0
  }

  lemma WorldFires(w: World, ts: seq<int>, rs: seq<Reading>)
    requires w.due.Some? && 0 < |w.queue| <= |rs| && |rs| == |ts|
    ensures var o, t := Round(w.queue, w.maps, w.ntpIsValid, rs), Step(w, Fires(ts, rs));
            && t.queue == w.queue[o.shown..] && t.maps == o.maps && t.ntpIsValid == w.ntpIsValid
            && t.due == if o.delayUs.Some? then Some(AskedAt(o, ts) + o.delayUs.value) else None
  {
    OutcomeAt(w.queue, w.maps, w.ntpIsValid, rs);
    hide Round, LeadAt;
  }

  /** What a step remembers: the lead of every frame it shows, and how often in a row the frame now at the head has
      been put off and with which lead first. */
  lemma FiresRemembers(w: World, ts: seq<int>, rs: seq<Reading>)
    requires w.due.Some? && 0 < |w.queue| <= |rs| && |rs| == |ts|
    ensures var o, t := Round(w.queue, w.maps, w.ntpIsValid, rs), Step(w, Fires(ts, rs));
            && |t.leads| == |w.leads| + o.shown && t.leads[..|w.leads|] == w.leads
            && (forall i :: 0 <= i < o.shown ==> t.leads[|w.leads| + i] == LeadAt(w.queue, w.maps, w.ntpIsValid, rs, i))
            && (t.waits > 0 <==> o.shown < |w.queue| && !o.failed)
            && (t.waits > 0 && o.shown == 0 && w.waits > 0 ==> t.waits == w.waits + 1 && t.firstLead == w.firstLead)
            && (t.waits > 0 && (o.shown > 0 || w.waits == 0) ==>
                  t.waits == 1 && t.firstLead == LeadAt(w.queue, w.maps, w.ntpIsValid, rs, o.shown))
  {
    hide Round, LeadAt;
  }

  /** Half, rounded up, k times over. */
  function Halved(lead: int, k: nat): int {
    if k == 0 then lead else (Halved(lead, k - 1) + 1) / 2
  }

  /** Halving k times over is one division by the power, rounded up. */
  lemma {:induction false} HalvedIsCeiling(lead: int, k: nat)
    ensures (Halved(lead, k) - 1) * BitMask.Pow2(k) < lead <= Halved(lead, k) * BitMask.Pow2(k)
  {
    if k > 0 {
      HalvedIsCeiling(lead, k - 1);
      HalfOfCeiling(lead, Halved(lead, k - 1), BitMask.Pow2(k - 1));
    }
  }

  lemma HalfOfCeiling(lead: int, h: int, p: nat)
    requires (h - 1) * p < lead <= h * p
    ensures ((h + 1) / 2 - 1) * (2 * p) < lead <= (h + 1) / 2 * (2 * p)
  {
    var g := (h + 1) / 2;
    Doubled(g, p);
    Doubled(g - 1, p);
    TimesKeeps(h, 2 * g, p);
    TimesKeeps(2 * (g - 1), h - 1, p);
  }

  lemma Doubled(g: int, p: int)
    ensures g * (2 * p) == (2 * g) * p
  {
  }

  lemma TimesKeeps(a: int, b: int, p: int)
    requires a <= b && p >= 0
    ensures a * p <= b * p
  {
  }

  ghost predicate TimingInv(w: World, offset: int) {
    && (w.queue != [] <==> w.due.Some?)
    && (forall i :: 0 <= i < |w.leads| ==> w.leads[i] <= EARLY_US)
    && (w.waits > 0 ==>
          && w.queue != []
          && EARLY_US / 2 < w.queue[0].timeUs - (w.due.value + offset) <= Halved(w.firstLead, w.waits))
  }

  ghost predicate PossibleRun(w: World, es: seq<Event>, offset: int)
    decreases |es|
  {
    es == [] || (Possible(w, es[0], offset) && PossibleRun(Step(w, es[0]), es[1..], offset))
  }

  function WorldAfter(w: World, es: seq<Event>, offset: int): World
    requires PossibleRun(w, es, offset)
    decreases |es|
  {
    if es == [] then w else WorldAfter(Step(w, es[0]), es[1..], offset)
  }

  const START := World([], map[], false, None, 0, 0, [])

  lemma StepKeepsTiming(w: World, e: Event, offset: int)
    requires TimingInv(w, offset) && Possible(w, e, offset)
    ensures TimingInv(Step(w, e), offset)
  {
    if e.Fires? {
      var o := Round(w.queue, w.maps, w.ntpIsValid, e.rs);
      ShowsExactlyTheDueFrames(w.queue, w.maps, w.ntpIsValid, e.rs, o.shown);
      OutcomeAt(w.queue, w.maps, w.ntpIsValid, e.rs);
      if o.delayUs.Some? && !o.failed {
        var lead := LeadAt(w.queue, w.maps, w.ntpIsValid, e.rs, o.shown);
        assert Clocked(e.rs[o.shown], e.ts[o.shown], offset);
        LeadOnClock(e.rs[o.shown], MapsAt(w.queue, w.maps, o.shown), w.ntpIsValid, w.queue[o.shown].timeUs, e.ts[o.shown], offset);
        assert lead == w.queue[o.shown].timeUs - (e.ts[o.shown] + offset);
        assert Halved(lead, 1) == (Halved(lead, 0) + 1) / 2 == (lead + 1) / 2;
        assert lead - lead / 2 == (lead + 1) / 2;
        if o.shown == 0 && w.waits > 0 {
          var h := Halved(w.firstLead, w.waits);
          assert lead <= h;
          assert Halved(w.firstLead, w.waits + 1) == (h + 1) / 2;
        }
      }
    }
  }

  /** The delay of the next message: half the lead of the frame that is put off, or the error delay. */
  lemma {:induction false} OutcomeAt(q: seq<OutputInfo>, maps: map<int, int>, valid: bool, rs: seq<Reading>)
    requires |q| <= |rs|
    ensures var o := Round(q, maps, valid, rs);
            && (o.failed ==> 0 < o.shown && !rs[o.shown - 1].rendered)
            && (o.shown < |q| && o.failed ==> o.delayUs == Some(ERROR_DELAY_US))
            && (o.shown < |q| && !o.failed ==>
                  var lead := LeadAt(q, maps, valid, rs, o.shown);
                  lead > EARLY_US && o.delayUs == Some(lead / 2))
  {
    if q != [] && Lead(rs[0], maps, valid, q[0].timeUs) <= EARLY_US && rs[0].rendered {
      var m := maps - {q[0].timeUs};
      OutcomeAt(q[1..], m, valid, rs[1..]);
      var p := Round(q[1..], m, valid, rs[1..]);
      if p.shown < |q| - 1 {
        assert LeadAt(q, maps, valid, rs, p.shown + 1) == LeadAt(q[1..], m, valid, rs[1..], p.shown);
      }
    }
  }

  lemma {:induction false} RunKeepsTiming(w: World, es: seq<Event>, offset: int)
    requires TimingInv(w, offset) && PossibleRun(w, es, offset)
    ensures TimingInv(WorldAfter(w, es, offset), offset)
    decreases |es|
  {
    if es != [] {
      StepKeepsTiming(w, es[0], offset);
      RunKeepsTiming(Step(w, es[0]), es[1..], offset);
    }
  }

  /** In every run no frame is shown more than 20000 microseconds early, a frame put off k times is at most its
      first lead over 2 to the k early when it is due again, and it is not overdue by then. */
  lemma PutOffFramesCatchUp(es: seq<Event>, offset: int)
    requires PossibleRun(START, es, offset)
    ensures var w := WorldAfter(START, es, offset);
            && (forall i :: 0 <= i < |w.leads| ==> w.leads[i] <= EARLY_US)
            && (w.queue != [] <==> w.due.Some?)
            && (w.waits > 0 ==>
                  && w.queue != []
                  && var lead := w.queue[0].timeUs - (w.due.value + offset);
                     EARLY_US / 2 < lead && (lead - 1) * BitMask.Pow2(w.waits) < w.firstLead)
  {
    RunKeepsTiming(START, es, offset);
    var w := WorldAfter(START, es, offset);
    if w.waits > 0 {
      var lead, h := w.queue[0].timeUs - (w.due.value + offset), Halved(w.firstLead, w.waits);
      HalvedIsCeiling(w.firstLead, w.waits);
      TimesKeeps(lead - 1, h - 1, BitMask.Pow2(w.waits));
    }
  }

  /** A frame that has been put off k times is shown by the next message once its first lead is within 20000
      microseconds times 2 to the k. */
  lemma ShownAfterEnoughWaits(w: World, e: Event, offset: int)
    requires TimingInv(w, offset) && Possible(w, e, offset) && e.Fires?
    requires w.waits > 0 && w.firstLead <= EARLY_US * BitMask.Pow2(w.waits)
    ensures Round(w.queue, w.maps, w.ntpIsValid, e.rs).shown > 0
  {
    HalvedIsCeiling(w.firstLead, w.waits);
    var h, p := Halved(w.firstLead, w.waits), BitMask.Pow2(w.waits);
    if h > EARLY_US {
      TimesKeeps(EARLY_US, h - 1, p);
      assert false;
    }
    assert Clocked(e.rs[0], e.ts[0], offset);
    LeadOnClock(e.rs[0], w.maps, w.ntpIsValid, w.queue[0].timeUs, e.ts[0], offset);
    assert LeadAt(w.queue, w.maps, w.ntpIsValid, e.rs, 0) <= EARLY_US;
  }

  // ---------------------------------------------------------------- the display scan

  /** A scan message: the frames counted by the last scan, whether video is showing, and the scans without frames. */
  datatype Scan = Scan(lastNum: nat, lastShow: bool, loop: nat)

  function NextScan(m: Scan, num: nat): Scan {
    var more := num > m.lastNum;
    if m.lastShow && !more && m.loop < PAUSE_DELAY_LOOP then Scan(num, true, m.loop + 1)
    else Scan(num, more, 0)
  }

  function Notice(before: Scan, after: Scan): seq<bool> {
    if before.lastShow == after.lastShow then [] else [after.lastShow]
  }

  /** The scan message after scans that counted nums. */
  function Scans(start: nat, nums: seq<nat>): Scan {
    if nums == [] then Scan(start, true, 0) else NextScan(Scans(start, nums[..|nums| - 1]), nums[|nums| - 1])
  }

  function LastCount(start: nat, nums: seq<nat>): nat {
    if nums == [] then start else nums[|nums| - 1]
  }

  /** How many of the last scans saw no new frame. */
  function QuietScans(start: nat, nums: seq<nat>): nat {
    if nums == [] then 0
    else
      var before := nums[..|nums| - 1];
      if nums[|nums| - 1] > LastCount(start, before) then 0 else QuietScans(start, before) + 1
  }

  function Notices(start: nat, nums: seq<nat>): seq<bool> {
    if nums == [] then []
    else
      var before := nums[..|nums| - 1];
      Notices(start, before) + Notice(Scans(start, before), Scans(start, nums))
  }

  /** The video counts as stopped exactly from the fourth scan in a row without a new frame. */
  lemma {:induction false} ShowingUnlessQuiet(start: nat, nums: seq<nat>)
    ensures Scans(start, nums).lastNum == LastCount(start, nums)
    ensures Scans(start, nums).lastShow <==> QuietScans(start, nums) <= PAUSE_DELAY_LOOP
    ensures Scans(start, nums).lastShow ==> Scans(start, nums).loop == QuietScans(start, nums)
  {
    if nums != [] {
      ShowingUnlessQuiet(start, nums[..|nums| - 1]);
    }
  }

  /** The notices alternate, beginning with a stop, and the last one is the state of the display. */
  lemma {:induction false} NoticesAlternate(start: nat, nums: seq<nat>)
    ensures var n := Notices(start, nums);
            && (forall i :: 0 <= i < |n| ==> n[i] == (i % 2 == 1))
            && (Scans(start, nums).lastShow <==> |n| % 2 == 0)
  {
    if nums != [] {
      NoticesAlternate(start, nums[..|nums| - 1]);
    }
  }
}
