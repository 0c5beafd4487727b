/** Adaptive frame dropping in front of the encoder. */
module FrameDropper {
  import opened Common
  import Arithmetic

  /** How many frames to post and then to drop. */
  datatype PostDrop = PostDrop(post: nat, drop: nat)

  const RESET := PostDrop(0, 0)
  const MAX_DROPS := 5

  /** The criterion for a frame rate. */
  function FrameDropperMaps(fps: int): Option<PostDrop> {
    if fps == 30 then Some(PostDrop(1, 0))
    else if fps == 25 then Some(PostDrop(5, 1))
    else if fps == 24 then Some(PostDrop(4, 1))
    else if fps == 20 then Some(PostDrop(2, 1))
    else if fps == 15 then Some(PostDrop(1, 1))
    else if fps == 10 then Some(PostDrop(1, 2))
    else if fps == 5 then Some(PostDrop(1, 5))
    else None
  }

  /** The table entry consulted for a target rate when the camera delivers a given rate. */
  function ShiftedTarget(evaluated: int, target: int): int {
    if evaluated >= 25 then target
    else if evaluated >= 20 then target + 5
    else if evaluated >= 15 then target + 10
    else target + 15
  }

  /** Once the guards in front of the lookup have passed, the shifted lookup never misses. */
  lemma LookupNeverMisses(evaluated: int, target: int)
    requires target != 30 && evaluated - 2 > target && FrameDropperMaps(target).Some? && evaluated >= 10
    ensures FrameDropperMaps(ShiftedTarget(evaluated, target)).Some?
  {
  }

  /** A criterion of the table posts of 30 frames just as many as its rate says; only that of 30 drops none. */
  lemma CriterionIsRate(fps: int)
    requires FrameDropperMaps(fps).Some?
    ensures var crit := FrameDropperMaps(fps).value;
            crit.post > 0 && 30 * crit.post == fps * (crit.post + crit.drop) && (crit.drop == 0 <==> fps == 30)
  {
  }

  /** The rate a camera is taken to have, from the rate that was evaluated. */
  function CameraRate(evaluated: int): int {
    if evaluated >= 25 then 30 else if evaluated >= 20 then 25 else if evaluated >= 15 then 20 else 15
  }

  /** Whenever frames are dropped, those posted by a camera of the rate it is taken to have do not fall below the
      target, and exceed it only where that rate is below 30. */
  lemma PostsTheTarget(evaluated: int, target: int)
    requires target != 30 && evaluated - 2 > target && FrameDropperMaps(target).Some? && evaluated >= 10
    ensures FrameDropperMaps(ShiftedTarget(evaluated, target)).Some?
    ensures var crit, camera := FrameDropperMaps(ShiftedTarget(evaluated, target)).value, CameraRate(evaluated);
            && crit.drop > 0
            && camera * crit.post >= target * (crit.post + crit.drop)
            && (camera * crit.post == target * (crit.post + crit.drop) <==> camera == 30)
  {
    CriterionIsRate(ShiftedTarget(evaluated, target));
  }

  // ---------------------------------------------------------------- one frame

  /** The counters after a frame and whether it is dropped. */
  datatype Verdict = Verdict(next: PostDrop, dropped: bool)

  function Judge(cur: PostDrop, crit: PostDrop): Verdict {
    var c := if cur.post >= crit.post && cur.drop >= crit.drop then RESET else cur;
    if c.post < crit.post then Verdict(c.(post := c.post + 1), false)
    else if c.drop < crit.drop then Verdict(c.(drop := c.drop + 1), true)
    else Verdict(c, false)
  }

  // ---------------------------------------------------------------- many frames

  /** n frames under one criterion. */
  datatype Tally = Tally(cur: PostDrop, posted: nat, dropped: nat)

  function Frames(crit: PostDrop, n: nat): Tally {
    if n == 0 then Tally(RESET, 0, 0)
    else
      OneMore(Frames(crit, n - 1), crit)
  }

  function OneMore(t: Tally, crit: PostDrop): Tally {
    var v := Judge(t.cur, crit);
    if v.dropped then Tally(v.next, t.posted, t.dropped + 1) else Tally(v.next, t.posted + 1, t.dropped)
  }

  function Min(a: nat, b: nat): nat { if a < b then a else b }

  /** What n frames leave behind, q full rounds and r frames of the next one. */
  ghost predicate AfterRounds(crit: PostDrop, t: Tally, q: nat, r: nat) {
    && r < crit.post + crit.drop
    && t.posted == crit.post * q + Min(crit.post, r)
    && t.posted + t.dropped == q * (crit.post + crit.drop) + r
    && InRound(crit, t.cur, if q > 0 && r == 0 then crit.post + crit.drop else r)
  }

  /** The counters m frames into a round; a full round stands for itself. */
  ghost predicate InRound(crit: PostDrop, cur: PostDrop, m: nat) {
    cur == PostDrop(Min(crit.post, m), if m > crit.post then m - crit.post else 0)
  }

  /** After a reset and with an unchanged criterion of P posts and D drops, n frames yield exactly
      P * (n / (P + D)) + min(P, n % (P + D)) posted frames, and all others are dropped. */
  lemma PostedOfFrames(crit: PostDrop, n: nat)
    requires crit.post > 0
    ensures var round, t := crit.post + crit.drop, Frames(crit, n);
            t.posted == crit.post * (n / round) + Min(crit.post, n % round) && t.posted + t.dropped == n
  {
    var q, r := RoundsOf(crit, n);
    Arithmetic.DivModUnique(n, q, r, crit.post + crit.drop);
  }

  lemma {:induction false} RoundsOf(crit: PostDrop, n: nat) returns (q: nat, r: nat)
    requires crit.post > 0
    ensures AfterRounds(crit, Frames(crit, n), q, r) && n == q * (crit.post + crit.drop) + r
  {
    if n == 0 {
      q, r := 0, 0;
    } else {
      hide *;
      q, r := RoundsOf(crit, n - 1);
      q, r := NextPlace(crit, Frames(crit, n - 1), q, r);
      FramesStep(crit, n);
    }
  }

  lemma FramesStep(crit: PostDrop, n: nat)
    requires n > 0
    ensures Frames(crit, n) == OneMore(Frames(crit, n - 1), crit)
  {
  }

  lemma NextPlace(crit: PostDrop, t: Tally, q: nat, r: nat) returns (q': nat, r': nat)
    requires crit.post > 0 && AfterRounds(crit, t, q, r)
    ensures AfterRounds(crit, OneMore(t, crit), q', r')
    ensures q' * (crit.post + crit.drop) + r' == q * (crit.post + crit.drop) + r + 1
  {
    hide Judge, InRound;
    OneMoreFrame(crit, t.cur, q, r);
    if r + 1 < crit.post + crit.drop {
      q', r' := q, r + 1;
    } else {
      Distribute(crit.post, q);
      Distribute(crit.post + crit.drop, q);
      q', r' := q + 1, 0;
    }
  }

  lemma Distribute(p: nat, q: nat)
    ensures p * (q + 1) == p * q + p && (q + 1) * p == q * p + p
  {
  }

  /** One frame more behind q rounds and r frames. */
  lemma OneMoreFrame(crit: PostDrop, cur: PostDrop, q: nat, r: nat)
    requires crit.post > 0 && r < crit.post + crit.drop
    requires InRound(crit, cur, if q > 0 && r == 0 then crit.post + crit.drop else r)
    ensures Judge(cur, crit).dropped == (r >= crit.post) && InRound(crit, Judge(cur, crit).next, r + 1)
  {
  }

  // ---------------------------------------------------------------- any switches of the criterion

  /** What happens to the dropper: it is reset, a frame passes by it, or it judges a frame. */
  datatype Event = Reset | Pass | Frame(crit: PostDrop)

  predicate FromTable(e: Event) {
    e.Frame? ==> e.crit.post > 0 && e.crit.drop <= MAX_DROPS
  }

  /** The counters and the number of frames dropped in a row so far. */
  datatype Drops = Drops(cur: PostDrop, inARow: nat)

  function Apply(d: Drops, e: Event): Drops {
    match e
    case Reset => Drops(RESET, d.inARow)
    case Pass => Drops(d.cur, 0)
    case Frame(crit) =>
      var v := Judge(d.cur, crit);
      Drops(v.next, if v.dropped then d.inARow + 1 else 0)
  }

  function ApplyAll(d: Drops, events: seq<Event>): Drops {
    if events == [] then d else Apply(ApplyAll(d, events[..|events| - 1]), events[|events| - 1])
  }

  const START := Drops(RESET, 0)

  /** The counter covers the frames dropped in a row, or the next frame will be posted. */
  predicate Bounded(d: Drops) {
    d.inARow <= MAX_DROPS && d.cur.drop <= MAX_DROPS && (d.inARow <= d.cur.drop || d.cur == RESET)
  }

  /** Across any switches of the criterion and any resets, at most five frames in a row are dropped. */
  lemma {:induction false} AtMostFiveInARow(events: seq<Event>)
    requires forall i :: 0 <= i < |events| ==> FromTable(events[i])
    ensures Bounded(ApplyAll(START, events)) && ApplyAll(START, events).inARow <= 5
  {
    if events != [] {
      AtMostFiveInARow(events[..|events| - 1]);
      assert FromTable(events[|events| - 1]);
    }
  }

  /** What a frame does to the dropper, given the rates: the guards in the order of the code. */
  function EventsOf(evaluated: bool, rate: int, lastFps: int, target: int): seq<Event> {
    if target == 30 || !evaluated then [Pass]
    else if rate - 2 <= target then [Reset, Pass]
    else
      var jump := if lastFps > 0 && (lastFps - rate >= 5 || rate - lastFps >= 5) then [Reset] else [];
      if FrameDropperMaps(target).None? || rate < 10 then jump + [Pass]
      else match FrameDropperMaps(ShiftedTarget(rate, target)) case Some(crit) => jump + [Frame(crit)] case None => []
  }

  /** A frame is judged exactly if a rate was evaluated that is at least 10 and more than 2 above a target of the
      table other than 30; the dropper is reset exactly if the rate is not so far above the target or jumped by 5 or
      more since the last evaluated frame. */
  lemma WhenJudgedOrReset(evaluated: bool, rate: int, lastFps: int, target: int)
    ensures var es := EventsOf(evaluated, rate, lastFps, target);
            && ((exists crit :: Frame(crit) in es) <==>
                  evaluated && rate >= 10 && rate - 2 > target && target in {25, 24, 20, 15, 10, 5})
            && (Reset in es <==>
                  evaluated && target != 30
                  && (rate - 2 <= target || (lastFps > 0 && (lastFps - rate >= 5 || rate - lastFps >= 5))))
            && (forall crit :: Frame(crit) in es ==> FrameDropperMaps(ShiftedTarget(rate, target)) == Some(crit))
  {
    if target != 30 && evaluated && rate - 2 > target && FrameDropperMaps(target).Some? && rate >= 10 {
      LookupNeverMisses(rate, target);
      assert Frame(FrameDropperMaps(ShiftedTarget(rate, target)).value) in EventsOf(evaluated, rate, lastFps, target);
    }
  }

  /** The guards never leave a frame undecided and only use criteria of the table. */
  lemma EventsAreFromTable(evaluated: bool, rate: int, lastFps: int, target: int)
    ensures var es := EventsOf(evaluated, rate, lastFps, target);
            es != [] && forall i :: 0 <= i < |es| ==> FromTable(es[i])
  {
    if target != 30 && evaluated && rate - 2 > target && FrameDropperMaps(target).Some? && rate >= 10 {
      LookupNeverMisses(rate, target);
    }
  }

  /** At most two events, one after the other. */
  lemma ApplyTwo(d: Drops, e: Event, f: Event)
    ensures ApplyAll(d, [e]) == Apply(d, e)
    ensures ApplyAll(d, [e, f]) == Apply(Apply(d, e), f)
  {
    assert [e][..0] == [] && [e, f][..1] == [e];
  }

  // ---------------------------------------------------------------- the puller

  const MIN_ITEMS := 5
  const MAX_ITEMS := 10
  const TOTAL_TIME := 500000

  function Sum(s: seq<int>): int {
    if s == [] then 0 else Sum(s[..|s| - 1]) + s[|s| - 1]
  }

  lemma SumOneMore(s: seq<int>, i: nat)
    requires i < |s|
    ensures Sum(s[..i + 1]) == Sum(s[..i]) + s[i]
  {
    assert s[..i + 1][..i] == s[..i];
  }

  lemma SumEnds(s: seq<int>)
    ensures Sum(s[..0]) == 0 && Sum(s[..|s|]) == Sum(s)
  {
    assert s[..|s|] == s;
  }

  /** The differences of neighbouring times. */
  function Deltas(times: seq<int>): seq<int> {
    if |times| < 2 then [] else Deltas(times[..|times| - 1]) + [times[|times| - 1] - times[|times| - 2]]
  }

  /** The sum of the differences is the time between the first and the last frame. */
  lemma {:induction false} SumOfDeltas(times: seq<int>)
    requires times != []
    ensures Sum(Deltas(times)) == times[|times| - 1] - times[0] && |Deltas(times)| == |times| - 1
  {
    if |times| >= 2 {
      var most := times[..|times| - 1];
      SumOfDeltas(most);
      var d := Deltas(times);
      assert d[..|d| - 1] == Deltas(most);
    }
  }

  /** n intervals over a time in microseconds, as a C int. */
  function FramesPerSecond(n: nat, totalUs: int): int
    requires totalUs > 0
  {
    ToInt(n * 1000 * 1000 / totalUs)
  }

  method TotalTime(window: seq<int>) returns (totalTime: int)
    ensures totalTime == Sum(window)
  {
    SumEnds(window);
    hide Sum;
    totalTime := 0;
    for i := 0 to |window|
      invariant totalTime == Sum(window[..i])
    {
      SumOneMore(window, i);
      totalTime := totalTime + window[i];
    }
  }

  /** What the estimator keeps: the time of the last frame, the window of intervals and the rate. */
  datatype Estimator = Estimator(last: int, deltas: seq<int>, rate: int, evaluated: bool)

  const NO_FRAMES := Estimator(-1, [], -1, false)

  /** From five intervals on the rate is their number over the time they span; the window is cut once
      it spans more than half a second or holds more than ten intervals. */
  function Evaluate(e: Estimator, time: int): Estimator {
    if e.last < 0 then Estimator(time, e.deltas, 0, false)
    else
      var window := e.deltas + [time - e.last];
      if |window| < MIN_ITEMS || Sum(window) <= 0 then Estimator(time, window, e.rate, false)
      else Estimator(time, if Sum(window) > TOTAL_TIME || |window| > MAX_ITEMS then window[1..] else window,
                     FramesPerSecond(|window|, Sum(window)), true)
  }

  function EvaluateAll(times: seq<int>): Estimator {
    if times == [] then NO_FRAMES else Evaluate(EvaluateAll(times[..|times| - 1]), times[|times| - 1])
  }

  /** The window always holds the intervals between the most recent frames, up to the last one. */
  lemma {:induction false} WindowIsRecent(times: seq<int>) returns (k: nat)
    requires times != [] && forall i :: 0 <= i < |times| ==> times[i] >= 0
    ensures k < |times| && EvaluateAll(times).last == times[|times| - 1]
    ensures EvaluateAll(times).deltas == Deltas(times[k..])
  {
    var most, time := times[..|times| - 1], times[|times| - 1];
    if most == [] {
      k := 0;
      assert EvaluateAll(most) == NO_FRAMES;
    } else {
      k := WindowIsRecent(most);
      DeltasOneMore(times, k);
      hide Deltas, EvaluateAll, Sum;
      EvaluateOneMore(times);
      if EvaluateAll(times).deltas != Deltas(times[k..]) {
        DeltasTail(times[k..]);
        assert times[k..][1..] == times[k + 1..];
        k := k + 1;
      }
    }
  }

  lemma EvaluateOneMore(times: seq<int>)
    requires times != []
    ensures EvaluateAll(times) == Evaluate(EvaluateAll(times[..|times| - 1]), times[|times| - 1])
  {
  }

  /** A frame keeps the window within ten intervals exactly unless it comes to ten intervals that span
      no time with the new one; an evaluated frame never lengthens a window of more than half a second. */
  lemma WindowStaysShort(e: Estimator, time: int)
    requires e.last >= 0 && |e.deltas| <= MAX_ITEMS
    ensures |Evaluate(e, time).deltas| <= MAX_ITEMS
            <==> !(|e.deltas| == MAX_ITEMS && Sum(e.deltas + [time - e.last]) <= 0)
    ensures Evaluate(e, time).evaluated && Sum(e.deltas + [time - e.last]) > TOTAL_TIME
            ==> |Evaluate(e, time).deltas| == |e.deltas|
  {
    hide Sum;
  }

  /** While time goes on from frame to frame, the window never holds more than ten intervals. */
  lemma {:induction false} WindowIsBounded(times: seq<int>)
    requires times != [] && times[0] >= 0
    requires forall i :: 0 < i < |times| ==> times[i - 1] < times[i]
    ensures |EvaluateAll(times).deltas| <= MAX_ITEMS
  {
    hide Deltas, EvaluateAll, Sum, Evaluate;
    var most, time := times[..|times| - 1], times[|times| - 1];
    EvaluateOneMore(times);
    if most == [] {
      FirstFrame(time);
    } else {
      WindowIsBounded(most);
      var k := WindowSpansTime(times);
      WindowStaysShort(EvaluateAll(most), time);
    }
  }

  lemma FirstFrame(time: int)
    ensures EvaluateAll([]) == NO_FRAMES && Evaluate(NO_FRAMES, time) == Estimator(time, [], 0, false)
  {
  }

  /** While time goes on, the window and the new interval span some time. */
  lemma WindowSpansTime(times: seq<int>) returns (k: nat)
    requires |times| >= 2 && times[0] >= 0
    requires forall i :: 0 < i < |times| ==> times[i - 1] < times[i]
    ensures var e, time := EvaluateAll(times[..|times| - 1]), times[|times| - 1];
            e.last >= 0 && Sum(e.deltas + [time - e.last]) > 0
  {
    hide *;
    var most, time := times[..|times| - 1], times[|times| - 1];
    TimesGrow(times);
    k := WindowIsRecent(most);
    DeltasOneMore(times, k);
    SumOfDeltas(times[k..]);
    assert times[k..][0] == times[k] && times[k..][|times| - 1 - k] == time;
  }

  lemma {:induction false} TimesGrow(times: seq<int>)
    requires times != [] && forall i :: 0 < i < |times| ==> times[i - 1] < times[i]
    ensures forall i :: 0 <= i < |times| - 1 ==> times[0] <= times[i] < times[|times| - 1]
  {
    if |times| > 1 {
      var most := times[..|times| - 1];
      TimesGrow(most);
      assert times[|times| - 2] < times[|times| - 1];
    }
  }

  /** When the clock stands still nothing is evaluated and every interval stays in the window. */
  lemma {:induction false} StandingClockGrows(time: nat, n: nat)
    ensures var e := EvaluateAll(seq(n + 1, _ => time));
            e.last == time && |e.deltas| == n && Sum(e.deltas) == 0 && !e.evaluated
  {
    var times := seq(n + 1, _ => time);
    assert times[..n] == seq(n, _ => time);
    EvaluateOneMore(times);
    if n == 0 {
      assert EvaluateAll(times[..0]) == NO_FRAMES && Sum([]) == 0;
    } else {
      StandingClockGrows(time, n - 1);
      hide EvaluateAll;
      StandStill(EvaluateAll(times[..n]), time);
    }
  }

  lemma StandStill(e: Estimator, time: nat)
    requires e.last == time && Sum(e.deltas) == 0
    ensures Evaluate(e, time).deltas == e.deltas + [0] && Sum(e.deltas + [0]) == 0
    ensures Evaluate(e, time).last == time && !Evaluate(e, time).evaluated
  {
    var d := e.deltas;
    assert (d + [0])[..|d|] == d;
  }

  lemma DeltasOneMore(times: seq<int>, k: nat)
    requires k + 2 <= |times|
    ensures Deltas(times[k..]) == Deltas(times[..|times| - 1][k..]) + [times[|times| - 1] - times[|times| - 2]]
  {
    var recent := times[k..];
    assert recent[..|recent| - 1] == times[..|times| - 1][k..];
  }

  lemma {:induction false} DeltasTail(times: seq<int>)
    requires |times| >= 2
    ensures Deltas(times) != [] && Deltas(times)[1..] == Deltas(times[1..])
  {
    if |times| > 2 {
      DeltasTail(times[..|times| - 1]);
      assert times[..|times| - 1][1..] == times[1..][..|times| - 2];
    } else {
      assert Deltas(times) == Deltas(times[..1]) + [times[1] - times[0]] == [times[1] - times[0]];
    }
  }

  /** With the intervals between some frames in the window, the next frame is evaluated from five
      intervals on, as their number over the time since the first of those frames. */
  lemma EstimateIsRate(times: seq<int>, rate: int, evaluated: bool, time: int)
    requires times != [] && times[|times| - 1] >= 0
    ensures var e := Evaluate(Estimator(times[|times| - 1], Deltas(times), rate, evaluated), time);
            && (e.evaluated <==> |times| >= MIN_ITEMS && time > times[0])
            && (e.evaluated && |times| * 1_000_000 < INT_LIMIT ==>
                  e.rate * (time - times[0]) <= |times| * 1_000_000 < (e.rate + 1) * (time - times[0]))
            && (!e.evaluated ==> e.rate == rate)
  {
    hide Sum, Deltas, FramesPerSecond;
    NextWindow(times, time);
    if time > times[0] && |times| * 1_000_000 < INT_LIMIT {
      RateOfFrames(|times|, time - times[0]);
    }
  }

  /** A rate is the number of whole intervals a second has room for. */
  lemma RateOfFrames(n: nat, totalUs: int)
    requires totalUs > 0 && n * 1_000_000 < INT_LIMIT
    ensures FramesPerSecond(n, totalUs) * totalUs <= n * 1_000_000 < (FramesPerSecond(n, totalUs) + 1) * totalUs
  {
    var x := n * 1000 * 1000;
    var q, r := x / totalUs, x % totalUs;
    assert x == q * totalUs + r;
    assert 0 <= q <= x by { Arithmetic.ProductAtLeast(totalUs, if q >= 0 then q else 0); }
  }

  lemma NextWindow(times: seq<int>, time: int)
    requires times != []
    ensures var window := Deltas(times) + [time - times[|times| - 1]];
            Sum(window) == time - times[0] && |window| == |times|
  {
    hide Sum;
    var all := times + [time];
    DeltasOneMore(all, 0);
    assert all[0..] == all && all[..|times|][0..] == times;
    SumOfDeltas(all);
  }

  class Puller {
    var mLastYUVTimeUs: int
    var mFrameDeltaTimeUs: seq<int>
    var mEvaluateFrameRate: int
    var mTargetFrameRate: int
    var mCurrentDropper: PostDrop
    var sLastFps: int
    ghost var inARow: nat      // frames dropped since the last one posted

    /** Never more than five frames in a row have been dropped; the drop counter covers them, or the
        dropper has just been reset and the next frame will be posted. */
    ghost predicate Valid()
      reads this
    {
      Bounded(Now())
    }

    lemma ValidBounds()
      requires Valid()
      ensures inARow <= MAX_DROPS
    {
    }

    ghost function Now(): Drops
      reads this
    {
      Drops(mCurrentDropper, inARow)
    }

    ghost function Rate(evaluated: bool): Estimator
      reads this
    {
      Estimator(mLastYUVTimeUs, mFrameDeltaTimeUs, mEvaluateFrameRate, evaluated)
    }

    constructor ()
      ensures Valid() && Now() == START && Rate(false) == NO_FRAMES && mTargetFrameRate == 30
    {
      mLastYUVTimeUs, mFrameDeltaTimeUs, mEvaluateFrameRate := -1, [], -1;
      mTargetFrameRate, mCurrentDropper, sLastFps, inARow := 30, RESET, 0, 0;
    }

    method ResetFrameDropper()
      requires Valid()
      modifies this`mCurrentDropper
      ensures Valid() && mCurrentDropper == RESET
    {
      mCurrentDropper := RESET;
    }

    method ResetFrameEvaluator()
      modifies this`mLastYUVTimeUs, this`mEvaluateFrameRate, this`mFrameDeltaTimeUs
      ensures Rate(false) == NO_FRAMES
    {
      mLastYUVTimeUs, mEvaluateFrameRate, mFrameDeltaTimeUs := -1, -1, [];
    }

    method SetConfig(fps: int)
      requires Valid()
      modifies this`mTargetFrameRate, this`mCurrentDropper
      ensures Valid()
      ensures if fps > 0 && old(mTargetFrameRate) != fps then mTargetFrameRate == fps && mCurrentDropper == RESET
              else mTargetFrameRate == old(mTargetFrameRate) && mCurrentDropper == old(mCurrentDropper)
    {
      if fps > 0 && mTargetFrameRate != fps {
        mTargetFrameRate := fps;
        ResetFrameDropper();
      }
    }

    /** Estimates the camera's rate over a sliding window. */
    method FramerateEvaluation(curFrmTimeUs: int) returns (evaluated: bool)
      modifies this`mLastYUVTimeUs, this`mEvaluateFrameRate, this`mFrameDeltaTimeUs
      ensures Rate(evaluated) == Evaluate(old(Rate(false)), curFrmTimeUs)
      ensures old(mLastYUVTimeUs) < 0 ==> !evaluated && mLastYUVTimeUs == curFrmTimeUs && mEvaluateFrameRate == 0
    {
      hide Sum, FramesPerSecond;
      if mLastYUVTimeUs < 0 {
        mLastYUVTimeUs, mEvaluateFrameRate := curFrmTimeUs, 0;
        return false;
      }
      var timeDelta := curFrmTimeUs - mLastYUVTimeUs;
      mFrameDeltaTimeUs := mFrameDeltaTimeUs + [timeDelta];
      mLastYUVTimeUs := curFrmTimeUs;
      if |mFrameDeltaTimeUs| < MIN_ITEMS {
        return false;
      }
      var totalTime := TotalTime(mFrameDeltaTimeUs);
      if totalTime <= 0 {
        return false;
      }
      mEvaluateFrameRate := FramesPerSecond(|mFrameDeltaTimeUs|, totalTime);
      if totalTime > TOTAL_TIME || |mFrameDeltaTimeUs| > MAX_ITEMS {
        mFrameDeltaTimeUs := mFrameDeltaTimeUs[1..];
      }
      evaluated := true;
    }

    /** Decides about one frame.  Whatever the rates do, no more than five frames in a row are
        dropped, and the criterion looked up always exists. */
    method DropFrameAsAdaptive(curFrmTimeUs: int) returns (dropThis: bool)
      requires Valid()
      modifies this
      ensures Valid() && mTargetFrameRate == old(mTargetFrameRate)
      ensures inARow == if dropThis then old(inARow) + 1 else 0
      ensures var e := Evaluate(old(Rate(false)), curFrmTimeUs);
              && Rate(e.evaluated) == e
              && Now() == ApplyAll(old(Now()), EventsOf(e.evaluated, e.rate, old(sLastFps), mTargetFrameRate))
              && sLastFps == if mTargetFrameRate == 30 || !e.evaluated then old(sLastFps) else e.rate
    {
      hide Evaluate, Judge;
      var fpsEvaluated := FramerateEvaluation(curFrmTimeUs);
      if mTargetFrameRate == 30 || !fpsEvaluated {
        ApplyTwo(Now(), Pass, Pass);
        inARow := 0;
        return false;
      }
      if sLastFps > 0 && (sLastFps - mEvaluateFrameRate >= 5 || mEvaluateFrameRate - sLastFps >= 5) {
        ResetFrameDropper();
      }
      ghost var d, reset := old(Now()), mCurrentDropper;
      sLastFps := mEvaluateFrameRate;
      if mEvaluateFrameRate - 2 <= mTargetFrameRate {
        ApplyTwo(d, Reset, Pass);
        ResetFrameDropper();
        inARow := 0;
        return false;
      }
      if FrameDropperMaps(mTargetFrameRate).None? || mEvaluateFrameRate < 10 {
        ApplyTwo(d, Pass, Pass);
        ApplyTwo(d, Reset, Pass);
        inARow := 0;
        return false;
      }
      LookupNeverMisses(mEvaluateFrameRate, mTargetFrameRate);
      var criteria := FrameDropperMaps(ShiftedTarget(mEvaluateFrameRate, mTargetFrameRate)).value;
      ApplyTwo(d, Frame(criteria), Frame(criteria));
      ApplyTwo(d, Reset, Frame(criteria));
      dropThis := PostOrDrop(criteria);
    }

    /** Posts until the criterion's posts are reached, then drops until its drops are, then anew. */
    method PostOrDrop(criteria: PostDrop) returns (dropThis: bool)
      requires Valid() && criteria.post > 0 && criteria.drop <= MAX_DROPS
      modifies this`mCurrentDropper, this`inARow
      ensures Valid() && Now() == Apply(old(Now()), Frame(criteria))
      ensures inARow == if dropThis then old(inARow) + 1 else 0
      ensures Verdict(mCurrentDropper, dropThis) == Judge(old(mCurrentDropper), criteria)
    {
      dropThis := false;
      if mCurrentDropper.post >= criteria.post && mCurrentDropper.drop >= criteria.drop {
        ResetFrameDropper();
      }
      if mCurrentDropper.post < criteria.post {
        mCurrentDropper := mCurrentDropper.(post := mCurrentDropper.post + 1);
        inARow := 0;
      } else if mCurrentDropper.drop < criteria.drop {
        mCurrentDropper := mCurrentDropper.(drop := mCurrentDropper.drop + 1);
        dropThis := true;
        inARow := inARow + 1;
      }
    }

    /** Starting, pausing, resuming and a failed read begin anew. */
    method Restart()
      requires Valid()
      modifies this
      ensures Valid() && Now() == Drops(RESET, old(inARow)) && Rate(false) == NO_FRAMES
      ensures mTargetFrameRate == old(mTargetFrameRate) && sLastFps == old(sLastFps) && inARow == old(inARow)
    {
      ResetFrameDropper();
      ResetFrameEvaluator();
    }

    /** Whatever happens to a puller, no six consecutive frames are dropped. */
    method Run(inputs: seq<Input>) returns (dropped: seq<bool>)
      requires Valid() && inARow == 0
      modifies this
      ensures Valid()
      ensures forall i: nat :: i + 6 <= |dropped| ==> PostedWithin(dropped, i)
    {
      hide *;
      dropped := [];
      NoVerdicts();
      for i := 0 to |inputs|
        invariant Valid() && inARow == DroppedLast(dropped)
        invariant ShortRuns(dropped)
      {
        match inputs[i]
        case FrameAt(time) =>
          var dropThis := DropFrameAsAdaptive(time);
          ValidBounds();
          OneMoreVerdict(dropped, dropThis);
          dropped := dropped + [dropThis];
        case Config(fps) => SetConfig(fps);
        case Restarted => Restart();
      }
      NoSixInARow(dropped);
    }
  }

  /** What reaches a puller: a frame, a new target rate, or a fresh start. */
  datatype Input = FrameAt(timeUs: int) | Config(fps: int) | Restarted

  /** How many of the last frames were dropped. */
  function DroppedLast(dropped: seq<bool>): nat {
    if dropped == [] || !dropped[|dropped| - 1] then 0 else DroppedLast(dropped[..|dropped| - 1]) + 1
  }

  /** At no point more than five frames in a row were dropped. */
  ghost predicate ShortRuns(dropped: seq<bool>) {
    forall k :: 0 <= k <= |dropped| ==> DroppedLast(dropped[..k]) <= MAX_DROPS
  }

  /** Of the six frames from i on one was posted. */
  ghost predicate PostedWithin(dropped: seq<bool>, i: nat) {
    exists j :: i <= j < i + 6 && j < |dropped| && !dropped[j]
  }

  lemma NoVerdicts()
    ensures DroppedLast([]) == 0 && ShortRuns([])
  {
  }

  lemma OneMoreVerdict(dropped: seq<bool>, dropThis: bool)
    requires ShortRuns(dropped)
    ensures DroppedLast(dropped + [dropThis]) == if dropThis then DroppedLast(dropped) + 1 else 0
    ensures DroppedLast(dropped + [dropThis]) <= MAX_DROPS ==> ShortRuns(dropped + [dropThis])
  {
    var longer := dropped + [dropThis];
    assert longer[..|dropped|] == dropped && longer[..|longer|] == longer;
    assert forall k :: 0 <= k <= |dropped| ==> longer[..k] == dropped[..k];
  }

  lemma {:induction false} DroppedLastAtLeast(dropped: seq<bool>, n: nat)
    requires n <= |dropped| && forall j :: |dropped| - n <= j < |dropped| ==> dropped[j]
    ensures DroppedLast(dropped) >= n
  {
    if n > 0 {
      DroppedLastAtLeast(dropped[..|dropped| - 1], n - 1);
    }
  }

  lemma NoSixInARow(dropped: seq<bool>)
    requires ShortRuns(dropped)
    ensures forall i: nat :: i + 6 <= |dropped| ==> PostedWithin(dropped, i)
  {
    forall i: nat | i + 6 <= |dropped|
      ensures PostedWithin(dropped, i)
    {
      if !PostedWithin(dropped, i) {
        var six := dropped[..i + 6];
        DroppedLastAtLeast(six, 6);
        assert false;
      }
    }
  }
}
