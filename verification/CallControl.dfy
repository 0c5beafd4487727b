/** The call-control state machine of ImsMa: start, stop, hold and turn-off-video over the flag word,
    driving the source, the sink and the two RTP directions by posted requests. */
module CallControl {
  import opened Common

  datatype Flag =
    | UplinkStarted | UplinkStopped | UplinkPaused | UplinkHold | UplinkHeld | UplinkTurnOffVideo
    | DownlinkStarted | DownlinkStopped | DownlinkPaused | DownlinkHold | DownlinkTurnOffVideo

  datatype DataPath = Source | Sink | SourceSink {
    predicate HasSource() { Source? || SourceSink? }
    predicate HasSink() { Sink? || SourceSink? }
  }

  datatype FlagMode = Set | Clear | Assign
  datatype Mode = Enable | Disable
  datatype Direction = ByLocal | ByPeer
  datatype PauseMode = Hold(hold: Direction) | TurnOffVideo(video: Direction) | Normal

  datatype Request =
    | StartSource | StopSource | PauseSource | ResumeSource | StartSink | StopSink
    | StartRtp(uplink: bool) | StopRtp(uplink: bool) | TellPeerPause | TellPeerResume

  /** Which of the four modules are running. */
  datatype Modules = Modules(source: bool, sink: bool, uplinkRtp: bool, downlinkRtp: bool)

  function Effect(m: Modules, req: Request): Modules {
    match req
    case StartSource => m.(source := true)
    case StopSource => m.(source := false)
    case StartSink => m.(sink := true)
    case StopSink => m.(sink := false)
    case StartRtp(up) => if up then m.(uplinkRtp := true) else m.(downlinkRtp := true)
    case StopRtp(up) => if up then m.(uplinkRtp := false) else m.(downlinkRtp := false)
    case _ => m
  }

  /** Nobody feeds a stopped module: the source only runs over a running uplink, and the downlink
      only runs into a running sink. */
  predicate Safe(m: Modules) {
    (m.source ==> m.uplinkRtp) && (m.downlinkRtp ==> m.sink)
  }

  /** The modules do what the flags say. */
  predicate Running(flags: set<Flag>, m: Modules) {
    UplinkRunning(flags, m) && DownlinkRunning(flags, m)
  }

  predicate UplinkRunning(flags: set<Flag>, m: Modules) {
    m.source == m.uplinkRtp == (UplinkStarted in flags && UplinkHold !in flags && UplinkHeld !in flags)
  }

  predicate DownlinkRunning(flags: set<Flag>, m: Modules) {
    m.sink == m.downlinkRtp == (DownlinkStarted in flags && DownlinkHold !in flags)
  }

  const UPLINK_STATES: set<Flag> := {UplinkPaused, UplinkHold, UplinkHeld, UplinkTurnOffVideo}
  const DOWNLINK_STATES: set<Flag> := {DownlinkPaused, DownlinkHold, DownlinkTurnOffVideo}

  /** Started and stopped exclude each other, and every other state of a path implies started. */
  predicate Consistent(flags: set<Flag>) {
    && !(UplinkStarted in flags && UplinkStopped in flags)
    && !(DownlinkStarted in flags && DownlinkStopped in flags)
    && (flags * UPLINK_STATES != {} ==> UplinkStarted in flags)
    && (flags * DOWNLINK_STATES != {} ==> DownlinkStarted in flags)
  }

  /** What a call returns: a status, or a failed CHECK that aborts the process. */
  datatype Outcome = Done(err: int) | Abort

  // ---------------------------------------------------------------- the flags

  datatype Call = StartCall(path: DataPath) | StopCall(path: DataPath)
                | PauseCall(path: DataPath, mode: PauseMode) | ResumeCall(path: DataPath, mode: PauseMode)

  predicate IsNormal(c: Call) {
    (c.PauseCall? || c.ResumeCall?) && c.mode.Normal?
  }

  function AfterStart(path: DataPath, flags: set<Flag>): set<Flag> {
    var up := if path.HasSource() then flags - {UplinkStopped} + {UplinkStarted} else flags;
    if path.HasSink() then up - {DownlinkStopped} + {DownlinkStarted} else up
  }

  /** Stopping a path clears every other state of it. */
  function AfterStop(path: DataPath, flags: set<Flag>): set<Flag> {
    var up := if path.HasSource() then flags - UPLINK_STATES - {UplinkStarted} + {UplinkStopped} else flags;
    if path.HasSink() then up - DOWNLINK_STATES - {DownlinkStarted} + {DownlinkStopped} else up
  }

  predicate StartedOn(path: DataPath, flags: set<Flag>) {
    && (path.HasSource() ==> UplinkStarted in flags)
    && (path.HasSink() ==> DownlinkStarted in flags)
  }

  function LocalHolds(path: DataPath): set<Flag> {
    (if path.HasSource() then {UplinkHold} else {}) + (if path.HasSink() then {DownlinkHold} else {})
  }

  function Holds(path: DataPath, direction: Direction): set<Flag> {
    if direction.ByPeer? then {UplinkHeld} else LocalHolds(path)
  }

  /** The flags a hold or its end leaves: complete on success; a failure leaves them as they were, except
      that of two paths the first one may be done. */
  predicate HoldOutcome(path: DataPath, mode: Mode, direction: Direction, flags: set<Flag>, err: int, flags': set<Flag>) {
    if err == 0 then flags' == if mode.Enable? then flags + Holds(path, direction) else flags - Holds(path, direction)
    else
      || flags' == flags
      || (path == SourceSink && direction.ByLocal?
          && flags' == if mode.Enable? then flags + {UplinkHold} else flags - {DownlinkHold})
  }

  /** A video of the path is turned off. */
  predicate VideoAgain(path: DataPath, flags: set<Flag>) {
    (path.HasSource() && UplinkTurnOffVideo in flags) || (path.HasSink() && DownlinkTurnOffVideo in flags)
  }

  function TurnOffs(path: DataPath): set<Flag> {
    (if path.HasSource() then {UplinkTurnOffVideo} else {}) + (if path.HasSink() then {DownlinkTurnOffVideo} else {})
  }

  function Pauses(path: DataPath): set<Flag> {
    (if path.HasSource() then {UplinkPaused} else {}) + (if path.HasSink() then {DownlinkPaused} else {})
  }

  /** A CHECK of the hold operations fails. */
  predicate HoldAborts(path: DataPath, mode: Mode, direction: Direction, flags: set<Flag>) {
    if direction.ByPeer? then path != Source || UplinkStarted !in flags || (mode.Disable? && UplinkHeld !in flags)
    else !StartedOn(path, flags) || (mode.Disable? && !(LocalHolds(path) <= flags))
  }

  /** A CHECK of the video operations fails: the uplink is turned off locally, the downlink by the peer. */
  predicate TurnOffAborts(path: DataPath, mode: Mode, direction: Direction, flags: set<Flag>) {
    || !StartedOn(path, flags)
    || (mode.Disable? && !(TurnOffs(path) <= flags))
    || (path.HasSource() && direction != ByLocal)
    || (path.HasSink() && direction != ByPeer)
  }

  /** Both paths resume from a hold while a video is turned off: the two directions cannot both fit. */
  predicate VideoBlocks(path: DataPath, flags: set<Flag>) {
    path == SourceSink && (UplinkTurnOffVideo in flags || DownlinkTurnOffVideo in flags)
  }

  /** What a call makes of the flags when all its requests succeed; None is a failed CHECK. */
  function FlagsAfter(c: Call, flags: set<Flag>): Option<set<Flag>> {
    match c
    case StartCall(path) => Some(AfterStart(path, flags))
    case StopCall(path) => Some(AfterStop(path, flags))
    case PauseCall(path, Hold(d)) => if HoldAborts(path, Enable, d, flags) then None else Some(flags + Holds(path, d))
    case PauseCall(path, TurnOffVideo(d)) =>
      if TurnOffAborts(path, Enable, d, flags) then None else Some(flags + TurnOffs(path))
    case PauseCall(path, Normal) => if !StartedOn(path, flags) then None else Some(flags + Pauses(path))
    case ResumeCall(path, Hold(d)) =>
      if HoldAborts(path, Disable, d, flags) || VideoBlocks(path, flags) then None else Some(flags - Holds(path, d))
    case ResumeCall(path, TurnOffVideo(d)) =>
      if path.HasSource() && (UplinkHeld in flags || UplinkHold in flags) then Some(flags - {UplinkTurnOffVideo})
      else if TurnOffAborts(path, Disable, d, flags) then None else Some(flags - TurnOffs(path))
    case ResumeCall(path, Normal) =>
      if !StartedOn(path, flags) || !(Pauses(path) <= flags) then None else Some(flags - Pauses(path))
  }

  function FlagsAfterAll(calls: seq<Call>, flags: set<Flag>): Option<set<Flag>> {
    if calls == [] then Some(flags)
    else match FlagsAfter(calls[0], flags)
         case None => None
         case Some(next) => FlagsAfterAll(calls[1..], next)
  }

  // ---------------------------------------------------------------- posting requests

  /** The answers that the next requests will get, behind which every request succeeds, and the requests
      posted so far. */
  datatype Line = Line(answers: seq<int>, posted: seq<Request>)

  function Answer(line: Line): int {
    if line.answers == [] then 0 else line.answers[0]
  }

  function Next(line: Line, req: Request): Line {
    Line(if line.answers == [] then [] else line.answers[1..], line.posted + [req])
  }

  /** The line after requests that are posted one after the other up to the first failure. */
  function PostAll(line: Line, reqs: seq<Request>): Line
    decreases |reqs|
  {
    if reqs == [] then line
    else if Answer(line) != 0 then Next(line, reqs[0])
    else PostAll(Next(line, reqs[0]), reqs[1..])
  }

  /** What they return. */
  function ResultOf(line: Line, reqs: seq<Request>): int
    decreases |reqs|
  {
    if reqs == [] then 0
    else if Answer(line) != 0 then Answer(line)
    else ResultOf(Next(line, reqs[0]), reqs[1..])
  }

  /** These requests were posted, up to the first failure. */
  predicate Posted(before: Line, after: Line, reqs: seq<Request>, err: int) {
    err == ResultOf(before, reqs) && after == PostAll(before, reqs)
  }

  lemma {:induction false} PostedThen(before: Line, middle: Line, after: Line, first: seq<Request>, second: seq<Request>, err: int)
    requires Posted(before, middle, first, 0) && Posted(middle, after, second, err)
    ensures Posted(before, after, first + second, err)
    decreases |first|
  {
    if first == [] {
      assert first + second == second;
    } else {
      assert (first + second)[1..] == first[1..] + second;
      PostedThen(Next(before, first[0]), middle, after, first[1..], second, err);
    }
  }

  lemma {:induction false} PostedFails(before: Line, after: Line, first: seq<Request>, second: seq<Request>, err: int)
    requires Posted(before, after, first, err) && err != 0
    ensures Posted(before, after, first + second, err)
    decreases |first|
  {
    assert (first + second)[1..] == first[1..] + second;
    if Answer(before) == 0 {
      PostedFails(Next(before, first[0]), after, first[1..], second, err);
    }
  }

  /** With no failures to come, all requests are posted and succeed. */
  lemma {:induction false} AllSucceed(line: Line, reqs: seq<Request>)
    requires line.answers == []
    ensures Posted(line, Line([], line.posted + reqs), reqs, 0)
    decreases |reqs|
  {
    if reqs == [] {
      assert line.posted + [] == line.posted;
    } else {
      AllSucceed(Next(line, reqs[0]), reqs[1..]);
      assert line.posted + [reqs[0]] + reqs[1..] == line.posted + reqs;
    }
  }

  /** However a sequence of requests ends, what is posted of it is a prefix, and it is whole if it succeeds. */
  lemma {:induction false} PostsPrefix(line: Line, reqs: seq<Request>) returns (n: nat)
    ensures n <= |reqs| && PostAll(line, reqs).posted == line.posted + reqs[..n]
    ensures ResultOf(line, reqs) == 0 ==> n == |reqs|
    decreases |reqs|
  {
    if reqs == [] {
      n := 0;
    } else if Answer(line) != 0 {
      n := 1;
    } else {
      n := PostsPrefix(Next(line, reqs[0]), reqs[1..]);
      n := n + 1;
    }
  }

  lemma PostedResult(before: Line, after: Line, reqs: seq<Request>, err: int)
    requires Posted(before, after, reqs, err)
    ensures err == ResultOf(before, reqs)
  {
  }

  lemma Nothing(a: Line)
    ensures Posted(a, a, [], 0)
  {
  }

  lemma OneRequest(a: Line, r: Request)
    ensures Posted(a, Next(a, r), [r], Answer(a)) && Posted(a, a, [], 0)
  {
    assert [r][1..] == [];
  }

  lemma TwoRequests(a: Line, r: Request, q: Request)
    ensures Posted(a, a, [], 0)
    ensures var b := Next(a, r);
            if Answer(a) != 0 then Posted(a, b, [r, q], Answer(a)) else Posted(a, Next(b, q), [r, q], Answer(b))
  {
    OneRequest(Next(a, r), q);
    assert [r, q][1..] == [q];
  }

  lemma ThreeRequests(a: Line, r: Request, q: Request, p: Request)
    ensures Posted(a, a, [], 0)
    ensures var b := Next(a, r);
            if Answer(a) != 0 then Posted(a, b, [r, q, p], Answer(a))
            else if Answer(b) != 0 then Posted(a, Next(b, q), [r, q, p], Answer(b))
            else Posted(a, Next(Next(b, q), p), [r, q, p], Answer(Next(b, q)))
  {
    TwoRequests(Next(a, r), q, p);
    assert [r, q, p][1..] == [q, p];
  }

  // ---------------------------------------------------------------- the requests of each call

  function SinkStart(flags: set<Flag>): seq<Request> {
    if DownlinkStarted in flags then [] else [StartSink, StartRtp(false)]
  }

  function SourceStart(flags: set<Flag>): seq<Request> {
    if UplinkStarted in flags then [] else [StartRtp(true), StartSource]
  }

  /** The requests a call posts if all of them succeed. */
  function StartRequests(path: DataPath, flags: set<Flag>): seq<Request> {
    (if path.HasSink() then SinkStart(flags) else []) + (if path.HasSource() then SourceStart(flags) else [])
  }

  function SourceStop(flags: set<Flag>): seq<Request> {
    if UplinkStopped in flags then [] else [StopSource, StopRtp(true)]
  }

  function SinkStop(flags: set<Flag>): seq<Request> {
    if DownlinkStopped in flags then [] else [StopRtp(false), StopSink]
  }

  function StopRequests(path: DataPath, flags: set<Flag>): seq<Request> {
    (if path.HasSource() then SourceStop(flags) else []) + (if path.HasSink() then SinkStop(flags) else [])
  }

  function SourceHold(flags: set<Flag>): seq<Request> {
    if UplinkHold in flags || UplinkHeld in flags then [] else [StopSource, StopRtp(true)]
  }

  function SinkHold(flags: set<Flag>): seq<Request> {
    if DownlinkHold in flags then [] else [StopRtp(false), StopSink]
  }

  function HoldRequests(path: DataPath, direction: Direction, flags: set<Flag>): seq<Request> {
    if direction.ByPeer? then
      if UplinkHeld in flags || UplinkHold in flags then [] else [StopSource, TellPeerPause, StopRtp(true)]
    else (if path.HasSource() then SourceHold(flags) else []) + (if path.HasSink() then SinkHold(flags) else [])
  }

  function SourceUnhold(flags: set<Flag>): seq<Request> {
    if UplinkHeld in flags then [] else [StartRtp(true), StartSource]
  }

  function UnholdRequests(path: DataPath, direction: Direction, flags: set<Flag>): seq<Request> {
    if direction.ByPeer? then
      if UplinkHold in flags then [TellPeerResume] else [TellPeerResume, StartRtp(true), StartSource]
    else (if path.HasSink() then [StartSink, StartRtp(false)] else []) + (if path.HasSource() then SourceUnhold(flags) else [])
  }

  /** Turning the video off or on concerns one path: the camera, or what the peer is told. */
  function VideoRequests(path: DataPath, mode: Mode, flags: set<Flag>): seq<Request> {
    if mode.Enable? then
      if VideoAgain(path, flags) then [] else if path.Source? then [PauseSource] else [TellPeerPause]
    else if path.Source? then [ResumeSource] else [TellPeerResume]
  }

  function SourcePause(flags: set<Flag>): seq<Request> {
    if UplinkPaused in flags then [] else [StopSource]
  }

  function SinkPause(flags: set<Flag>): seq<Request> {
    if DownlinkPaused in flags then [] else [TellPeerPause, StopSink]
  }

  function PauseRequests(path: DataPath, flags: set<Flag>): seq<Request> {
    (if path.HasSource() then SourcePause(flags) else []) + (if path.HasSink() then SinkPause(flags) else [])
  }

  function ResumeRequests(path: DataPath): seq<Request> {
    (if path.HasSource() then [StartSource] else []) + (if path.HasSink() then [StartSink, TellPeerResume] else [])
  }

  /** Ending a hold and re-applying a turned-off video behind it, whatever the end of the hold returned. */
  predicate ResumePosts(path: DataPath, direction: Direction, flags: set<Flag>, before: Line, after: Line,
                        hold: Outcome, video: int)
  {
    var reqs := UnholdRequests(path, direction, flags);
    var behind := PostAll(before, reqs);
    && hold == Done(ResultOf(before, reqs))
    && if VideoAgain(path, flags)
       then video == Answer(behind) && after == Next(behind, if path.Source? then PauseSource else TellPeerPause)
       else video == 0 && after == behind
  }

  /** Resuming from a hold ends with OK while the hold stands: the path has a turned-off video, a request that
      ends the hold fails, and the one that re-applies the video succeeds. */
  predicate Masked(path: DataPath, direction: Direction, flags: set<Flag>, line: Line) {
    && !HoldAborts(path, Disable, direction, flags) && !VideoBlocks(path, flags) && VideoAgain(path, flags)
    && var reqs := UnholdRequests(path, direction, flags);
       ResultOf(line, reqs) != 0 && Answer(PostAll(line, reqs)) == 0
  }

  /** Some answers let a resume end so exactly if it does not fail a CHECK, the path has a turned-off video, and
      the hold is not a local one inside a hold by the peer, whose end posts no request. */
  lemma MaskedExactly(path: DataPath, direction: Direction, flags: set<Flag>, posted: seq<Request>)
    ensures (exists answers :: Masked(path, direction, flags, Line(answers, posted)))
            <==> !HoldAborts(path, Disable, direction, flags) && !VideoBlocks(path, flags) && VideoAgain(path, flags)
                 && !(path == Source && direction == ByLocal && UplinkHeld in flags)
  {
    var reqs := UnholdRequests(path, direction, flags);
    if reqs != [] {
      var line := Line([1], posted);
      assert ResultOf(line, reqs) == 1 && Answer(PostAll(line, reqs)) == 0;
      assert Masked(path, direction, flags, line)
        <==> !HoldAborts(path, Disable, direction, flags) && !VideoBlocks(path, flags) && VideoAgain(path, flags);
    }
  }

  // ---------------------------------------------------------------- the state machine

  class ImsMa {
    var mFlags: set<Flag>
    ghost var modules: Modules
    var answers: seq<int>       // what the next requests return; behind them every request succeeds
    var posted: seq<Request>    // every request so far
    ghost var faulty: bool      // some request has failed
    ghost var normal: bool      // a normal-mode pause or resume has been asked for

    /** The invariant of every run: flags are consistent; without normal-mode pauses the modules are
        safe, and if no request has failed either they do exactly what the flags say. */
    ghost predicate Valid()
      reads this
    {
      && Consistent(mFlags)
      && (!normal ==> Safe(modules))
      && (!normal && !faulty ==> Running(mFlags, modules))
    }

    function Now(): Line
      reads this`answers, this`posted
    {
      Line(answers, posted)
    }

    /** The answers stand for whatever the requests of a run return. */
    constructor (answers: seq<int>)
      ensures Valid() && mFlags == {} && !faulty && !normal && Now() == Line(answers, [])
    {
      this.answers, posted := answers, [];
      mFlags, modules, faulty, normal := {}, Modules(false, false, false, false), false, false;
    }

    method ModifyFlags(value: Flag, mode: FlagMode)
      modifies this`mFlags
      ensures mFlags == if mode.Set? then old(mFlags) + {value}
                        else if mode.Clear? then old(mFlags) - {value} else {value}
    {
      match mode
      case Set => mFlags := mFlags + {value};
      case Clear => mFlags := mFlags - {value};
      case Assign => mFlags := {value};
    }

    /** Posts a request and waits: it succeeds with its effect, or fails and leaves its module as it
        was.  Between any two requests the modules are safe. */
    method Post(req: Request) returns (err: int)
      requires normal || (Safe(modules) && Safe(Effect(modules, req)))
      modifies this`modules, this`faulty, this`answers, this`posted
      ensures normal || Safe(modules)
      ensures err == Answer(old(Now())) && Now() == Next(old(Now()), req)
      ensures err == 0 ==> modules == Effect(old(modules), req) && faulty == old(faulty)
      ensures err != 0 ==> modules == old(modules) && faulty
    {
      err := Answer(Now());
      answers, posted := if answers == [] then [] else answers[1..], posted + [req];
      if err == 0 {
        modules := Effect(modules, req);
      } else {
        faulty := true;
      }
    }

    lemma NoFailure(reqs: seq<Request>)
      ensures answers == [] ==> Posted(Now(), Line([], posted + reqs), reqs, 0)
    {
      if answers == [] {
        AllSucceed(Now(), reqs);
      }
    }

    // -------------------------------------------------------------- start and stop

    method StartSinkPath() returns (err: int)
      requires Valid()
      modifies this
      ensures Posted(old(Now()), Now(), SinkStart(old(mFlags)), err)
      ensures faulty <==> old(faulty) || err != 0
      ensures Valid() && normal == old(normal)
      ensures mFlags == if err == 0 then old(mFlags) - {DownlinkStopped} + {DownlinkStarted} else old(mFlags)
    {
      TwoRequests(Now(), StartSink, StartRtp(false));
      hide Posted;
      err := 0;
      if DownlinkStarted !in mFlags {
        err := Post(StartSink);
        if err != 0 {
          return;
        }
        err := Post(StartRtp(false));
        if err != 0 {
          return;
        }
        ModifyFlags(DownlinkStarted, Set);
        ModifyFlags(DownlinkStopped, Clear);
      }
    }

    method StartSourcePath() returns (err: int)
      requires Valid()
      modifies this
      ensures Posted(old(Now()), Now(), SourceStart(old(mFlags)), err)
      ensures faulty <==> old(faulty) || err != 0
      ensures Valid() && normal == old(normal)
      ensures mFlags == if err == 0 then old(mFlags) - {UplinkStopped} + {UplinkStarted} else old(mFlags)
    {
      TwoRequests(Now(), StartRtp(true), StartSource);
      hide Posted;
      err := 0;
      if UplinkStarted !in mFlags {
        err := Post(StartRtp(true));
        if err != 0 {
          return;
        }
        err := Post(StartSource);
        if err != 0 {
          return;
        }
        ModifyFlags(UplinkStarted, Set);
        ModifyFlags(UplinkStopped, Clear);
      }
    }

    method Start(path: DataPath) returns (r: Outcome)
      requires Valid()
      modifies this
      ensures r.Done? ==> Posted(old(Now()), Now(), StartRequests(path, old(mFlags)), r.err)
      ensures r.Abort? ==> Now() == old(Now())
      ensures faulty <==> old(faulty) || (r.Done? && r.err != 0)
      ensures Valid() && normal == old(normal) && r.Done?
      ensures r.err == 0 ==> mFlags == AfterStart(path, old(mFlags))
      ensures r.err != 0 ==> mFlags == if path == SourceSink && ResultOf(old(Now()), SinkStart(old(mFlags))) == 0
                                       then AfterStart(Sink, old(mFlags)) else old(mFlags)
    {
      ghost var before := Now();
      ghost var first: seq<Request> := if path.HasSink() then SinkStart(mFlags) else [];
      ghost var second: seq<Request> := if path.HasSource() then SourceStart(mFlags) else [];
      Nothing(before);
      hide Posted;
      if path.HasSink() {
        var err := StartSinkPath();
        PostedResult(before, Now(), SinkStart(old(mFlags)), err);
        if err != 0 {
          PostedFails(before, Now(), first, second, err);
          return Done(err);
        }
      }
      ghost var middle := Now();
      Nothing(middle);
      if path.HasSource() {
        var err := StartSourcePath();
        PostedThen(before, middle, Now(), first, second, err);
        if err != 0 {
          return Done(err);
        }
      }
      if !path.HasSource() {
        PostedThen(before, middle, middle, first, second, 0);
      }
      r := Done(0);
    }

    method LeaveSource()
      requires Consistent(mFlags) && (!normal ==> Safe(modules))
      requires !normal && !faulty ==> !modules.source && !modules.uplinkRtp && DownlinkRunning(mFlags, modules)
      modifies this`mFlags
      ensures Valid() && mFlags == old(mFlags) - UPLINK_STATES - {UplinkStarted} + {UplinkStopped}
    {
      ModifyFlags(UplinkStarted, Clear);
      ModifyFlags(UplinkStopped, Set);
      ModifyFlags(UplinkPaused, Clear);
      ModifyFlags(UplinkTurnOffVideo, Clear);
      ModifyFlags(UplinkHold, Clear);
      ModifyFlags(UplinkHeld, Clear);
    }

    method StopSourcePath() returns (err: int)
      requires Valid()
      modifies this
      ensures Posted(old(Now()), Now(), SourceStop(old(mFlags)), err)
      ensures faulty <==> old(faulty) || err != 0
      ensures Valid() && normal == old(normal)
      ensures mFlags == if err == 0 then old(mFlags) - UPLINK_STATES - {UplinkStarted} + {UplinkStopped} else old(mFlags)
    {
      TwoRequests(Now(), StopSource, StopRtp(true));
      hide Posted;
      err := 0;
      if UplinkStopped !in mFlags {
        err := Post(StopSource);
        if err != 0 {
          return;
        }
        err := Post(StopRtp(true));
        if err != 0 {
          return;
        }
        LeaveSource();
      }
    }

    method LeaveSink()
      requires Consistent(mFlags) && (!normal ==> Safe(modules))
      requires !normal && !faulty ==> !modules.sink && !modules.downlinkRtp && UplinkRunning(mFlags, modules)
      modifies this`mFlags
      ensures Valid() && mFlags == old(mFlags) - DOWNLINK_STATES - {DownlinkStarted} + {DownlinkStopped}
    {
      ModifyFlags(DownlinkStarted, Clear);
      ModifyFlags(DownlinkStopped, Set);
      ModifyFlags(DownlinkPaused, Clear);
      ModifyFlags(DownlinkTurnOffVideo, Clear);
      ModifyFlags(DownlinkHold, Clear);
    }

    method StopSinkPath() returns (err: int)
      requires Valid()
      modifies this
      ensures Posted(old(Now()), Now(), SinkStop(old(mFlags)), err)
      ensures faulty <==> old(faulty) || err != 0
      ensures Valid() && normal == old(normal)
      ensures mFlags == if err == 0 then old(mFlags) - DOWNLINK_STATES - {DownlinkStarted} + {DownlinkStopped} else old(mFlags)
    {
      TwoRequests(Now(), StopRtp(false), StopSink);
      hide Posted;
      err := 0;
      if DownlinkStopped !in mFlags {
        err := Post(StopRtp(false));
        if err != 0 {
          return;
        }
        err := Post(StopSink);
        if err != 0 {
          return;
        }
        LeaveSink();
      }
    }

    method Stop(path: DataPath) returns (r: Outcome)
      requires Valid()
      modifies this
      ensures r.Done? ==> Posted(old(Now()), Now(), StopRequests(path, old(mFlags)), r.err)
      ensures faulty <==> old(faulty) || (r.Done? && r.err != 0)
      ensures Valid() && normal == old(normal) && r.Done?
      ensures r.err == 0 ==> mFlags == AfterStop(path, old(mFlags))
      ensures r.err != 0 ==> mFlags == if path == SourceSink && ResultOf(old(Now()), SourceStop(old(mFlags))) == 0
                                       then AfterStop(Source, old(mFlags)) else old(mFlags)
    {
      ghost var before := Now();
      ghost var first: seq<Request> := if path.HasSource() then SourceStop(mFlags) else [];
      ghost var second: seq<Request> := if path.HasSink() then SinkStop(mFlags) else [];
      Nothing(before);
      hide Posted;
      if path.HasSource() {
        var err := StopSourcePath();
        PostedResult(before, Now(), SourceStop(old(mFlags)), err);
        if err != 0 {
          PostedFails(before, Now(), first, second, err);
          return Done(err);
        }
      }
      ghost var middle := Now();
      Nothing(middle);
      if path.HasSink() {
        var err := StopSinkPath();
        PostedThen(before, middle, Now(), first, second, err);
        if err != 0 {
          return Done(err);
        }
      }
      if !path.HasSink() {
        PostedThen(before, middle, middle, first, second, 0);
      }
      r := Done(0);
    }

    // -------------------------------------------------------------- hold

    /** The peer holds the call: only the uplink pauses, once, however often it is already held. */
    method HoldByPeer(path: DataPath) returns (r: Outcome)
      requires Valid()
      modifies this
      ensures r.Done? ==> Posted(old(Now()), Now(), HoldRequests(path, ByPeer, old(mFlags)), r.err)
      ensures r.Abort? ==> Now() == old(Now())
      ensures faulty <==> old(faulty) || (r.Done? && r.err != 0)
      ensures Valid() && normal == old(normal)
      ensures r.Abort? <==> path != Source || UplinkStarted !in old(mFlags)
      ensures mFlags == if r == Done(0) then old(mFlags) + {UplinkHeld} else old(mFlags)
    {
      ThreeRequests(Now(), StopSource, TellPeerPause, StopRtp(true));
      hide Posted;
      if path != Source || UplinkStarted !in mFlags {
        return Abort;
      }
      if UplinkHeld !in mFlags && UplinkHold !in mFlags {
        var err := Post(StopSource);
        if err != 0 {
          return Done(err);
        }
        err := Post(TellPeerPause);
        if err != 0 {
          return Done(err);
        }
        err := Post(StopRtp(true));
        if err != 0 {
          return Done(err);
        }
      }
      ModifyFlags(UplinkHeld, Set);
      r := Done(0);
    }

    method UnholdByPeer(path: DataPath) returns (r: Outcome)
      requires Valid()
      modifies this
      ensures r.Done? ==> Posted(old(Now()), Now(), UnholdRequests(path, ByPeer, old(mFlags)), r.err)
      ensures r.Abort? ==> Now() == old(Now())
      ensures faulty <==> old(faulty) || (r.Done? && r.err != 0)
      ensures Valid() && normal == old(normal)
      ensures r.Abort? <==> path != Source || UplinkStarted !in old(mFlags) || UplinkHeld !in old(mFlags)
      ensures mFlags == if r == Done(0) then old(mFlags) - {UplinkHeld} else old(mFlags)
    {
      OneRequest(Now(), TellPeerResume);
      ThreeRequests(Now(), TellPeerResume, StartRtp(true), StartSource);
      hide Posted;
      if path != Source || UplinkStarted !in mFlags || UplinkHeld !in mFlags {
        return Abort;
      }
      var err := Post(TellPeerResume);
      if err != 0 {
        return Done(err);
      }
      if UplinkHold !in mFlags {
        err := Post(StartRtp(true));
        if err != 0 {
          return Done(err);
        }
        err := Post(StartSource);
        if err != 0 {
          return Done(err);
        }
      }
      ModifyFlags(UplinkHeld, Clear);
      r := Done(0);
    }

    /** A local hold of the uplink, nesting inside a hold by the peer. */
    method HoldSource() returns (err: int)
      requires Valid() && UplinkStarted in mFlags
      modifies this
      ensures Posted(old(Now()), Now(), SourceHold(old(mFlags)), err)
      ensures faulty <==> old(faulty) || err != 0
      ensures Valid() && normal == old(normal)
      ensures mFlags == if err == 0 then old(mFlags) + {UplinkHold} else old(mFlags)
    {
      TwoRequests(Now(), StopSource, StopRtp(true));
      hide Posted;
      err := 0;
      if UplinkHold !in mFlags && UplinkHeld !in mFlags {
        err := Post(StopSource);
        if err != 0 {
          return;
        }
        err := Post(StopRtp(true));
        if err != 0 {
          return;
        }
      }
      ModifyFlags(UplinkHold, Set);
    }

    method HoldSink() returns (err: int)
      requires Valid() && DownlinkStarted in mFlags
      modifies this
      ensures Posted(old(Now()), Now(), SinkHold(old(mFlags)), err)
      ensures faulty <==> old(faulty) || err != 0
      ensures Valid() && normal == old(normal)
      ensures mFlags == if err == 0 then old(mFlags) + {DownlinkHold} else old(mFlags)
    {
      TwoRequests(Now(), StopRtp(false), StopSink);
      hide Posted;
      err := 0;
      if DownlinkHold !in mFlags {
        err := Post(StopRtp(false));
        if err != 0 {
          return;
        }
        err := Post(StopSink);
        if err != 0 {
          return;
        }
      }
      ModifyFlags(DownlinkHold, Set);
    }

    method HoldByLocal(path: DataPath) returns (r: Outcome)
      requires Valid()
      modifies this
      ensures r.Done? ==> Posted(old(Now()), Now(), HoldRequests(path, ByLocal, old(mFlags)), r.err)
      ensures r.Abort? ==> Now() == old(Now())
      ensures faulty <==> old(faulty) || (r.Done? && r.err != 0)
      ensures Valid() && normal == old(normal)
      ensures r.Abort? <==> !StartedOn(path, old(mFlags))
      ensures r.Abort? ==> mFlags == old(mFlags)
      ensures r.Done? ==> HoldOutcome(path, Enable, ByLocal, old(mFlags), r.err, mFlags)
      ensures r.Done? && r.err != 0 ==>
                mFlags == if path == SourceSink && ResultOf(old(Now()), SourceHold(old(mFlags))) == 0
                          then old(mFlags) + {UplinkHold} else old(mFlags)
    {
      ghost var before := Now();
      ghost var first: seq<Request> := if path.HasSource() then SourceHold(mFlags) else [];
      ghost var second: seq<Request> := if path.HasSink() then SinkHold(mFlags) else [];
      Nothing(before);
      hide Posted;
      if path.HasSource() && UplinkStarted !in mFlags {
        return Abort;
      }
      if path.HasSink() && DownlinkStarted !in mFlags {
        return Abort;
      }
      if path.HasSource() {
        var err := HoldSource();
        PostedResult(before, Now(), SourceHold(old(mFlags)), err);
        if err != 0 {
          PostedFails(before, Now(), first, second, err);
          return Done(err);
        }
      }
      ghost var middle := Now();
      Nothing(middle);
      if path.HasSink() {
        var err := HoldSink();
        PostedThen(before, middle, Now(), first, second, err);
        if err != 0 {
          return Done(err);
        }
      }
      if !path.HasSink() {
        PostedThen(before, middle, middle, first, second, 0);
      }
      r := Done(0);
    }

    method UnholdSource() returns (err: int)
      requires Valid() && UplinkStarted in mFlags && UplinkHold in mFlags
      modifies this
      ensures Posted(old(Now()), Now(), SourceUnhold(old(mFlags)), err)
      ensures faulty <==> old(faulty) || err != 0
      ensures Valid() && normal == old(normal)
      ensures mFlags == if err == 0 then old(mFlags) - {UplinkHold} else old(mFlags)
    {
      TwoRequests(Now(), StartRtp(true), StartSource);
      hide Posted;
      err := 0;
      if UplinkHeld !in mFlags {
        err := Post(StartRtp(true));
        if err != 0 {
          return;
        }
        err := Post(StartSource);
        if err != 0 {
          return;
        }
      }
      ModifyFlags(UplinkHold, Clear);
    }

    method UnholdSink() returns (err: int)
      requires Valid() && DownlinkStarted in mFlags && DownlinkHold in mFlags
      modifies this
      ensures Posted(old(Now()), Now(), [StartSink, StartRtp(false)], err)
      ensures faulty <==> old(faulty) || err != 0
      ensures Valid() && normal == old(normal)
      ensures mFlags == if err == 0 then old(mFlags) - {DownlinkHold} else old(mFlags)
    {
      TwoRequests(Now(), StartSink, StartRtp(false));
      hide Posted;
      err := Post(StartSink);
      if err != 0 {
        return;
      }
      err := Post(StartRtp(false));
      if err != 0 {
        return;
      }
      ModifyFlags(DownlinkHold, Clear);
    }

    method UnholdByLocal(path: DataPath) returns (r: Outcome)
      requires Valid()
      modifies this
      ensures r.Done? ==> Posted(old(Now()), Now(), UnholdRequests(path, ByLocal, old(mFlags)), r.err)
      ensures r.Abort? ==> Now() == old(Now())
      ensures faulty <==> old(faulty) || (r.Done? && r.err != 0)
      ensures Valid() && normal == old(normal)
      ensures r.Abort? <==> !StartedOn(path, old(mFlags)) || !(LocalHolds(path) <= old(mFlags))
      ensures r.Abort? ==> mFlags == old(mFlags)
      ensures r.Done? ==> HoldOutcome(path, Disable, ByLocal, old(mFlags), r.err, mFlags)
      ensures r.Done? && r.err != 0 ==>
                mFlags == if path == SourceSink && ResultOf(old(Now()), [StartSink, StartRtp(false)]) == 0
                          then old(mFlags) - {DownlinkHold} else old(mFlags)
    {
      ghost var before := Now();
      ghost var first: seq<Request> := if path.HasSink() then [StartSink, StartRtp(false)] else [];
      ghost var second: seq<Request> := if path.HasSource() then SourceUnhold(mFlags) else [];
      Nothing(before);
      hide Posted;
      if path.HasSource() && !(UplinkStarted in mFlags && UplinkHold in mFlags) {
        return Abort;
      }
      if path.HasSink() && !(DownlinkStarted in mFlags && DownlinkHold in mFlags) {
        return Abort;
      }
      if path.HasSink() {
        var err := UnholdSink();
        PostedResult(before, Now(), [StartSink, StartRtp(false)], err);
        if err != 0 {
          PostedFails(before, Now(), first, second, err);
          return Done(err);
        }
      }
      ghost var middle := Now();
      Nothing(middle);
      if path.HasSource() {
        var err := UnholdSource();
        PostedThen(before, middle, Now(), first, second, err);
        if err != 0 {
          return Done(err);
        }
      }
      if !path.HasSource() {
        PostedThen(before, middle, middle, first, second, 0);
      }
      r := Done(0);
    }

    method SetHold(path: DataPath, mode: Mode, direction: Direction) returns (r: Outcome)
      requires Valid()
      modifies this
      ensures r.Done? ==> Posted(old(Now()), Now(), if mode.Enable? then HoldRequests(path, direction, old(mFlags)) else UnholdRequests(path, direction, old(mFlags)), r.err)
      ensures r.Abort? ==> Now() == old(Now())
      ensures faulty <==> old(faulty) || (r.Done? && r.err != 0)
      ensures Valid() && normal == old(normal)
      ensures r.Done? ==> HoldOutcome(path, mode, direction, old(mFlags), r.err, mFlags)
      ensures r.Abort? <==> HoldAborts(path, mode, direction, old(mFlags))
      ensures r.Abort? ==> mFlags == old(mFlags)
    {
      match (direction, mode)
      case (ByPeer, Enable) => r := HoldByPeer(path);
      case (ByPeer, Disable) => r := UnholdByPeer(path);
      case (ByLocal, Enable) => r := HoldByLocal(path);
      case (ByLocal, Disable) => r := UnholdByLocal(path);
    }

    // -------------------------------------------------------------- turn off video

    method SetTurnOffVideo(path: DataPath, mode: Mode, direction: Direction) returns (r: Outcome)
      requires Valid()
      modifies this
      ensures r.Done? ==> Posted(old(Now()), Now(), VideoRequests(path, mode, old(mFlags)), r.err)
      ensures r.Abort? ==> Now() == old(Now())
      ensures faulty <==> old(faulty) || (r.Done? && r.err != 0)
      ensures Valid() && normal == old(normal)
      ensures r.Abort? <==> TurnOffAborts(path, mode, direction, old(mFlags))
      ensures r.Abort? ==> mFlags == old(mFlags)
      ensures r == Done(0) ==> mFlags == if mode.Enable? then old(mFlags) + TurnOffs(path) else old(mFlags) - TurnOffs(path)
      ensures r.Done? && r.err != 0 ==> mFlags == old(mFlags)
    {
      OneRequest(Now(), if path.Source? then if mode.Enable? then PauseSource else ResumeSource
                        else if mode.Enable? then TellPeerPause else TellPeerResume);
      hide Posted;
      if TurnOffAborts(path, mode, direction, mFlags) {
        return Abort;
      }
      if mode.Enable? {
        if path.HasSource() && UplinkTurnOffVideo !in mFlags {
          var err := Post(PauseSource);
          if err != 0 {
            return Done(err);
          }
          ModifyFlags(UplinkTurnOffVideo, Set);
        }
        if path.HasSink() && DownlinkTurnOffVideo !in mFlags {
          var err := Post(TellPeerPause);
          if err != 0 {
            return Done(err);
          }
          ModifyFlags(DownlinkTurnOffVideo, Set);
        }
      } else {
        if path.HasSource() {
          var err := Post(ResumeSource);
          if err != 0 {
            return Done(err);
          }
          ModifyFlags(UplinkTurnOffVideo, Clear);
        }
        if path.HasSink() {
          var err := Post(TellPeerResume);
          if err != 0 {
            return Done(err);
          }
          ModifyFlags(DownlinkTurnOffVideo, Clear);
        }
      }
      r := Done(0);
    }

    // -------------------------------------------------------------- normal mode

    method PauseNormal(path: DataPath) returns (r: Outcome)
      requires Valid()
      modifies this
      ensures r.Done? ==> Posted(old(Now()), Now(), PauseRequests(path, old(mFlags)), r.err)
      ensures r.Abort? ==> Now() == old(Now())
      ensures faulty <==> old(faulty) || (r.Done? && r.err != 0)
      ensures Valid() && normal
      ensures r.Abort? <==> !StartedOn(path, old(mFlags))
      ensures r.Abort? ==> mFlags == old(mFlags)
      ensures r.Done? && r.err != 0 ==>
                mFlags == if path == SourceSink && ResultOf(old(Now()), SourcePause(old(mFlags))) == 0
                          then old(mFlags) + {UplinkPaused} else old(mFlags)
      ensures r == Done(0) ==> mFlags == old(mFlags) + Pauses(path)
    {
      ghost var before := Now();
      ghost var first: seq<Request> := if path.HasSource() then SourcePause(mFlags) else [];
      ghost var second: seq<Request> := if path.HasSink() then SinkPause(mFlags) else [];
      OneRequest(before, StopSource);
      hide Posted;
      normal := true;
      if path.HasSource() && UplinkStarted !in mFlags {
        return Abort;
      }
      if path.HasSink() && DownlinkStarted !in mFlags {
        return Abort;
      }
      if path.HasSource() && UplinkPaused !in mFlags {
        var err := Post(StopSource);
        if err != 0 {
          PostedResult(before, Now(), first, err);
          PostedFails(before, Now(), first, second, err);
          return Done(err);
        }
        ModifyFlags(UplinkPaused, Set);
      }
      ghost var middle := Now();
      PostedResult(before, middle, first, 0);
      TwoRequests(middle, TellPeerPause, StopSink);
      if path.HasSink() && DownlinkPaused !in mFlags {
        var err := Post(TellPeerPause);
        if err != 0 {
          PostedThen(before, middle, Now(), first, second, err);
          return Done(err);
        }
        err := Post(StopSink);
        PostedThen(before, middle, Now(), first, second, err);
        if err != 0 {
          return Done(err);
        }
        ModifyFlags(DownlinkPaused, Set);
      }
      if !path.HasSink() || DownlinkPaused in old(mFlags) {
        PostedThen(before, middle, Now(), first, second, 0);
      }
      r := Done(0);
    }

    method ResumeNormal(path: DataPath) returns (r: Outcome)
      requires Valid()
      modifies this
      ensures r.Done? ==> Posted(old(Now()), Now(), ResumeRequests(path), r.err)
      ensures r.Abort? ==> Now() == old(Now())
      ensures faulty <==> old(faulty) || (r.Done? && r.err != 0)
      ensures Valid() && normal
      ensures r.Abort? <==> !StartedOn(path, old(mFlags)) || !(Pauses(path) <= old(mFlags))
      ensures r.Abort? ==> mFlags == old(mFlags)
      ensures r.Done? && r.err != 0 ==>
                mFlags == if path.HasSource() && ResultOf(old(Now()), [StartSource]) != 0 then old(mFlags)
                          else if ResultOf(old(Now()), (if path.HasSource() then [StartSource] else []) + [StartSink]) != 0
                          then old(mFlags) - (if path.HasSource() then {UplinkPaused} else {})
                          else old(mFlags) - Pauses(path)
      ensures r == Done(0) ==> mFlags == old(mFlags) - Pauses(path)
    {
      ghost var before := Now();
      ghost var first: seq<Request> := if path.HasSource() then [StartSource] else [];
      ghost var second: seq<Request> := if path.HasSink() then [StartSink, TellPeerResume] else [];
      OneRequest(before, StartSource);
      hide Posted;
      normal := true;
      if path.HasSource() && !(UplinkPaused in mFlags && UplinkStarted in mFlags) {
        return Abort;
      }
      if path.HasSink() && !(DownlinkPaused in mFlags && DownlinkStarted in mFlags) {
        return Abort;
      }
      var err := 0;
      if path.HasSource() {
        err := Post(StartSource);
        if err != 0 {
          PostedResult(before, Now(), first, err);
          PostedFails(before, Now(), first, second, err);
          return Done(err);
        }
        ModifyFlags(UplinkPaused, Clear);
      }
      ghost var middle := Now();
      PostedResult(before, middle, first, 0);
      OneRequest(middle, StartSink);
      TwoRequests(middle, StartSink, TellPeerResume);
      if path.HasSink() {
        err := Post(StartSink);
        PostedThen(before, middle, Now(), first, [StartSink], err);
        PostedResult(before, Now(), first + [StartSink], err);
        if err != 0 {
          PostedThen(before, middle, Now(), first, second, err);
          return Done(err);
        }
        err := Post(TellPeerResume);
        ModifyFlags(DownlinkPaused, Clear);
      }
      PostedThen(before, middle, Now(), first, second, err);
      r := Done(err);
    }

    // -------------------------------------------------------------- pause and resume

    method Pause(path: DataPath, mode: PauseMode) returns (r: Outcome)
      requires Valid()
      modifies this
      ensures old(faulty) ==> faulty
      ensures old(answers) == [] ==> answers == [] && faulty == old(faulty)
      ensures r.Done? ==> Posted(old(Now()), Now(), match mode
                                                    case Hold(direction) => HoldRequests(path, direction, old(mFlags))
                                                    case TurnOffVideo(_) => VideoRequests(path, Enable, old(mFlags))
                                                    case Normal => PauseRequests(path, old(mFlags)), r.err)
      ensures r.Abort? ==> Now() == old(Now())
      ensures r.Done? && r.err != 0 ==> faulty
      ensures Valid() && (normal <==> old(normal) || mode.Normal?)
      ensures r.Abort? <==> FlagsAfter(PauseCall(path, mode), old(mFlags)).None?
      ensures r == Done(0) ==> FlagsAfter(PauseCall(path, mode), old(mFlags)) == Some(mFlags)
    {
      match mode
      case Hold(direction) =>
        NoFailure(HoldRequests(path, direction, mFlags));
        r := SetHold(path, Enable, direction);
      case TurnOffVideo(direction) =>
        NoFailure(VideoRequests(path, Enable, mFlags));
        r := SetTurnOffVideo(path, Enable, direction);
      case Normal =>
        NoFailure(PauseRequests(path, mFlags));
        r := PauseNormal(path);
    }

    /** Resuming from a hold re-applies a turned-off video of the path; with both paths that aborts,
        because the two paths expect different directions.  What the hold returned is lost when a video
        is re-applied, and a video that cannot be re-applied counts as turned on. */
    method ResumeHold(path: DataPath, direction: Direction) returns (r: Outcome, ghost hold: Outcome, ghost video: int)
      requires Valid()
      modifies this
      ensures old(faulty) ==> faulty
      ensures old(answers) == [] ==> answers == [] && faulty == old(faulty)
      ensures Valid() && normal == old(normal)
      ensures r.Abort? <==> HoldAborts(path, Disable, direction, old(mFlags)) || VideoBlocks(path, old(mFlags))
      ensures r.Done? ==>
                && ResumePosts(path, direction, old(mFlags), old(Now()), Now(), hold, video)
                && r == (if VideoAgain(path, old(mFlags)) then Done(video) else hold)
                && (faulty <==> old(faulty) || hold.err != 0 || video != 0)
                && var lost := if video != 0 then TurnOffs(path) else {};
                   && lost <= old(mFlags) && lost !! mFlags
                   && HoldOutcome(path, Disable, direction, old(mFlags), hold.err, mFlags + lost)
    {
      NoFailure(UnholdRequests(path, direction, mFlags));
      hide Running, Safe, Consistent, PostAll, ResultOf, UnholdRequests;
      video := 0;
      r := SetHold(path, Disable, direction);
      hold := r;
      if r.Abort? {
        return;
      }
      if UplinkTurnOffVideo in mFlags && path.HasSource() {
        ForgetVideo(UplinkTurnOffVideo);
        OneRequest(Now(), PauseSource);
        r := SetTurnOffVideo(path, Enable, ByLocal);
        if r.Abort? {
          return;
        }
        video := r.err;
      }
      if DownlinkTurnOffVideo in mFlags && path.HasSink() {
        ForgetVideo(DownlinkTurnOffVideo);
        OneRequest(Now(), TellPeerPause);
        r := SetTurnOffVideo(path, Enable, ByPeer);
        if r.Abort? {
          return;
        }
        video := r.err;
      }
    }

    method ForgetVideo(value: Flag)
      requires Valid() && (value.UplinkTurnOffVideo? || value.DownlinkTurnOffVideo?)
      modifies this`mFlags
      ensures Valid() && mFlags == old(mFlags) - {value}
    {
      ModifyFlags(value, Clear);
    }

    /** Turning video on again while the uplink is held or on hold only clears the flag; the modules
        stay as the hold left them. */
    method ResumeVideo(path: DataPath, direction: Direction) returns (r: Outcome)
      requires Valid()
      modifies this
      ensures old(faulty) ==> faulty
      ensures old(answers) == [] ==> answers == [] && faulty == old(faulty)
      ensures r.Done? && r.err != 0 ==> faulty
      ensures r.Done? ==> if path.HasSource() && old(UplinkHeld in mFlags || UplinkHold in mFlags)
                          then Now() == Next(old(Now()), ResumeSource) && r == Done(0)
                          else Posted(old(Now()), Now(), VideoRequests(path, Disable, old(mFlags)), r.err)
      ensures r.Abort? ==> Now() == old(Now())
      ensures Valid() && normal == old(normal)
      ensures r == Done(0) ==>
                mFlags == old(mFlags) - if path.HasSource() && old(UplinkHeld in mFlags || UplinkHold in mFlags)
                                        then {UplinkTurnOffVideo} else TurnOffs(path)
      ensures r.Abort? || r.err != 0 ==> mFlags == old(mFlags)
      ensures r.Abort? <==> !(path.HasSource() && old(UplinkHeld in mFlags || UplinkHold in mFlags))
                            && TurnOffAborts(path, Disable, direction, old(mFlags))
    {
      NoFailure(VideoRequests(path, Disable, mFlags));
      if (UplinkHeld in mFlags || UplinkHold in mFlags) && path.HasSource() {
        ModifyFlags(UplinkTurnOffVideo, Clear);
        var err := Post(ResumeSource);
        return Done(0);
      }
      r := SetTurnOffVideo(path, Disable, direction);
    }

    method Resume(path: DataPath, mode: PauseMode) returns (r: Outcome)
      requires Valid()
      modifies this
      ensures old(faulty) ==> faulty
      ensures old(answers) == [] ==> answers == [] && faulty == old(faulty)
      ensures r.Done? && r.err != 0 ==> faulty
      ensures Valid() && (normal <==> old(normal) || mode.Normal?)
      ensures r.Abort? <==> FlagsAfter(ResumeCall(path, mode), old(mFlags)).None?
      ensures !faulty && r.Done? ==> FlagsAfter(ResumeCall(path, mode), old(mFlags)) == Some(mFlags)
      ensures r.Done? && mode.Normal? ==> Posted(old(Now()), Now(), ResumeRequests(path), r.err)
      ensures r.Done? && mode.TurnOffVideo? ==>
                if path.HasSource() && old(UplinkHeld in mFlags || UplinkHold in mFlags)
                then Now() == Next(old(Now()), ResumeSource) && r == Done(0)
                else Posted(old(Now()), Now(), VideoRequests(path, Disable, old(mFlags)), r.err)
      ensures r.Done? && mode.Hold? ==>
                exists hold, video :: ResumePosts(path, mode.hold, old(mFlags), old(Now()), Now(), hold, video)
      ensures r == Done(0) ==>
                FlagsAfter(ResumeCall(path, mode), old(mFlags)) == Some(mFlags)
                || (mode.Hold? && Masked(path, mode.hold, old(mFlags), old(Now())) && mFlags == old(mFlags))
      ensures mode.Hold? && r.Done? ==>
                (r.err == 0 && Holds(path, mode.hold) <= mFlags <==> Masked(path, mode.hold, old(mFlags), old(Now())))
      ensures r.Done? && r.err != 0 && mode.Hold? && VideoAgain(path, old(mFlags)) ==> TurnOffs(path) !! mFlags
    {
      match mode
      case Hold(direction) =>
        ghost var hold, video;
        r, hold, video := ResumeHold(path, direction);
        ghost var none: set<Flag> := {};
        assert mFlags + none == mFlags;
      case TurnOffVideo(direction) => r := ResumeVideo(path, direction);
      case Normal =>
        NoFailure(ResumeRequests(path));
        r := ResumeNormal(path);
    }

    // -------------------------------------------------------------- runs

    /** Any run of calls, each request succeeding or failing as it may, until a failed CHECK. */
    method Run(calls: seq<Call>) returns (aborted: bool)
      requires Valid()
      modifies this
      ensures Valid()
      ensures normal ==> old(normal) || exists i :: 0 <= i < |calls| && IsNormal(calls[i])
      ensures !faulty ==> FlagsAfterAll(calls, old(mFlags)) == if aborted then None else Some(mFlags)
    {
      hide FlagsAfter, Running, Consistent, Safe;
      for i := 0 to |calls|
        invariant Valid()
        invariant normal ==> old(normal) || exists k :: 0 <= k < i && IsNormal(calls[k])
        invariant old(normal) ==> normal
        invariant !faulty ==> FlagsAfterAll(calls, old(mFlags)) == FlagsAfterAll(calls[i..], mFlags)
      {
        assert calls[i..][0] == calls[i] && calls[i..][1..] == calls[i + 1..];
        var r := Handle(calls[i]);
        if r.Abort? {
          return true;
        }
      }
      aborted := false;
    }

    method Handle(c: Call) returns (r: Outcome)
      requires Valid()
      modifies this
      ensures old(faulty) ==> faulty
      ensures old(answers) == [] ==> answers == [] && faulty == old(faulty)
      ensures Valid() && (normal <==> old(normal) || IsNormal(c))
      ensures r.Abort? <==> FlagsAfter(c, old(mFlags)).None?
      ensures !faulty && r.Done? ==> FlagsAfter(c, old(mFlags)) == Some(mFlags)
    {
      hide Running, Consistent, Safe;
      match c
      case StartCall(path) =>
        NoFailure(StartRequests(path, mFlags));
        r := Start(path);
      case StopCall(path) =>
        NoFailure(StopRequests(path, mFlags));
        r := Stop(path);
      case PauseCall(path, mode) => r := Pause(path, mode);
      case ResumeCall(path, mode) => r := Resume(path, mode);
    }
  }

  // ---------------------------------------------------------------- the flags over whole runs

  lemma FlagsStayConsistent(c: Call, flags: set<Flag>)
    requires Consistent(flags) && FlagsAfter(c, flags).Some?
    ensures Consistent(FlagsAfter(c, flags).value)
  {
  }

  lemma ConsistentMeans(flags: set<Flag>)
    ensures Consistent(flags) <==>
              && !(UplinkStarted in flags && UplinkStopped in flags) && !(DownlinkStarted in flags && DownlinkStopped in flags)
              && (UplinkPaused in flags || UplinkHold in flags || UplinkHeld in flags || UplinkTurnOffVideo in flags ==>
                    UplinkStarted in flags)
              && (DownlinkPaused in flags || DownlinkHold in flags || DownlinkTurnOffVideo in flags ==> DownlinkStarted in flags)
  {
    assert UplinkPaused in flags ==> UplinkPaused in flags * UPLINK_STATES;
    assert UplinkHold in flags ==> UplinkHold in flags * UPLINK_STATES;
    assert UplinkHeld in flags ==> UplinkHeld in flags * UPLINK_STATES;
    assert UplinkTurnOffVideo in flags ==> UplinkTurnOffVideo in flags * UPLINK_STATES;
    assert DownlinkPaused in flags ==> DownlinkPaused in flags * DOWNLINK_STATES;
    assert DownlinkHold in flags ==> DownlinkHold in flags * DOWNLINK_STATES;
    assert DownlinkTurnOffVideo in flags ==> DownlinkTurnOffVideo in flags * DOWNLINK_STATES;
  }

  /** Over all runs, normal pauses included: started and stopped exclude each other, and any paused,
      hold, held or turn-off flag implies started on its path. */
  lemma {:induction false} RunsStayConsistent(calls: seq<Call>, flags: set<Flag>)
    requires Consistent(flags)
    ensures var r := FlagsAfterAll(calls, flags); r.Some? ==> Consistent(r.value)
    decreases |calls|
  {
    if calls != [] && FlagsAfter(calls[0], flags).Some? {
      FlagsStayConsistent(calls[0], flags);
      RunsStayConsistent(calls[1..], FlagsAfter(calls[0], flags).value);
    }
  }

  /** The flags a pause sets. */
  function PauseFlags(path: DataPath, mode: PauseMode): set<Flag> {
    match mode
    case Hold(d) => Holds(path, d)
    case TurnOffVideo(_) => TurnOffs(path)
    case Normal => Pauses(path)
  }

  /** Resuming undoes a pause that was new, whatever else is paused, exactly unless both paths resume
      from a hold while a video is turned off. */
  lemma ResumeUndoesPause(path: DataPath, mode: PauseMode, flags: set<Flag>)
    requires FlagsAfter(PauseCall(path, mode), flags).Some? && flags !! PauseFlags(path, mode)
    ensures FlagsAfter(ResumeCall(path, mode), FlagsAfter(PauseCall(path, mode), flags).value) == Some(flags)
            <==> !(mode.Hold? && VideoBlocks(path, flags))
  {
    var paused := FlagsAfter(PauseCall(path, mode), flags).value;
    assert paused == flags + PauseFlags(path, mode);
    assert paused - PauseFlags(path, mode) == flags;
    assert mode.TurnOffVideo? ==> path != SourceSink;
    assert path == Source ==> TurnOffs(path) == {UplinkTurnOffVideo};
    assert VideoBlocks(path, paused) && mode.Hold? ==> VideoBlocks(path, flags);
  }

  lemma FirstCall(c: Call, rest: seq<Call>, flags: set<Flag>)
    ensures FlagsAfterAll([c] + rest, flags) == var f :- FlagsAfter(c, flags); FlagsAfterAll(rest, f)
  {
    hide FlagsAfter;
    assert ([c] + rest)[1..] == rest;
  }

  lemma FourCalls(a: Call, b: Call, c: Call, d: Call, flags: set<Flag>)
    ensures FlagsAfterAll([a, b, c, d], flags)
            == var fa :- FlagsAfter(a, flags); var fb :- FlagsAfter(b, fa); var fc :- FlagsAfter(c, fb); FlagsAfter(d, fc)
    ensures FlagsAfterAll([a, b, c], flags)
            == var fa :- FlagsAfter(a, flags); var fb :- FlagsAfter(b, fa); FlagsAfter(c, fb)
  {
    hide FlagsAfter;
    assert [a, b, c, d] == [a] + ([b] + ([c] + ([d] + []))) && [a, b, c] == [a] + ([b] + ([c] + []));
    FirstCall(a, [b] + ([c] + ([d] + [])), flags);
    FirstCall(a, [b] + ([c] + []), flags);
    if FlagsAfter(a, flags).Some? {
      var fa := FlagsAfter(a, flags).value;
      FirstCall(b, [c] + ([d] + []), fa);
      FirstCall(b, [c] + [], fa);
      if FlagsAfter(b, fa).Some? {
        var fb := FlagsAfter(b, fa).value;
        FirstCall(c, [d] + [], fb);
        FirstCall(c, [], fb);
        if FlagsAfter(c, fb).Some? {
          FirstCall(d, [], FlagsAfter(c, fb).value);
        }
      }
    }
  }

  /** If the flags are those given and the modules follow them, nothing runs on the uplink. */
  predicate StoppedUplink(flags: set<Flag>, m: Modules, given: Option<set<Flag>>) {
    given == Some(flags) && Running(flags, m) ==> !m.source && !m.uplinkRtp
  }

  /** The uplink is on hold by both sides only after both asked, and comes back, in either order of
      release, only with the second. */
  lemma HoldsNest(flags: set<Flag>, first: Direction, second: Direction)
    requires UplinkStarted in flags && UplinkHold !in flags && UplinkHeld !in flags
    requires first != second
    ensures var p1, p2 := PauseCall(Source, Hold(first)), PauseCall(Source, Hold(second));
            var r1, r2 := ResumeCall(Source, Hold(first)), ResumeCall(Source, Hold(second));
            && FlagsAfterAll([p1, p2, r1, r2], flags) == Some(flags)
            && FlagsAfterAll([p1, p2, r2, r1], flags) == Some(flags)
            && (forall f: set<Flag>, m: Modules :: StoppedUplink(f, m, FlagsAfterAll([p1, p2, r1], flags)))
            && (forall f: set<Flag>, m: Modules :: StoppedUplink(f, m, FlagsAfterAll([p1, p2, r2], flags)))
  {
    var p1, p2 := PauseCall(Source, Hold(first)), PauseCall(Source, Hold(second));
    var r1, r2 := ResumeCall(Source, Hold(first)), ResumeCall(Source, Hold(second));
    var h1, h2 := Holds(Source, first), Holds(Source, second);
    assert flags + h1 + h2 - h1 - h2 == flags && flags + h1 + h2 - h2 - h1 == flags;
    FourCalls(p1, p2, r1, r2, flags);
    FourCalls(p1, p2, r2, r1, flags);
  }

  /** A run from the beginning that fails a CHECK: start both paths, turn the camera off, hold both paths and
      resume from the hold. */
  lemma ResumeAbortIsReached()
    ensures FlagsAfterAll([StartCall(SourceSink), PauseCall(Source, TurnOffVideo(ByLocal)),
                           PauseCall(SourceSink, Hold(ByLocal)), ResumeCall(SourceSink, Hold(ByLocal))], {}) == None
    ensures FlagsAfterAll([StartCall(SourceSink), PauseCall(Source, TurnOffVideo(ByLocal)),
                           PauseCall(SourceSink, Hold(ByLocal))], {}).Some?
  {
    FourCalls(StartCall(SourceSink), PauseCall(Source, TurnOffVideo(ByLocal)),
              PauseCall(SourceSink, Hold(ByLocal)), ResumeCall(SourceSink, Hold(ByLocal)), {});
  }

  /** A run that ends with OK and on hold: the camera turned off, a local hold, and a resume whose first
      request fails. */
  method OkStillOnHold(err: int) returns (m: ImsMa, r: Outcome)
    requires err != 0
    ensures r == Done(0) && UplinkHold in m.mFlags
  {
    m := new ImsMa([0, 0, 0, 0, 0, err]);
    hide Running, Safe, Consistent, PostAll, ResultOf;
    SourceRequests(m.mFlags);
    TwoRequests(m.Now(), StartRtp(true), StartSource);
    r := m.Start(Source);
    assert m.answers == [0, 0, 0, err];
    OneRequest(m.Now(), PauseSource);
    r := m.Pause(Source, TurnOffVideo(ByLocal));
    assert m.answers == [0, 0, err];
    SourceRequests(m.mFlags);
    TwoRequests(m.Now(), StopSource, StopRtp(true));
    r := m.Pause(Source, Hold(ByLocal));
    assert m.answers == [err];
    SourceRequests(m.mFlags);
    TwoRequests(m.Now(), StartRtp(true), StartSource);
    r := m.Resume(Source, Hold(ByLocal));
  }

  lemma SourceRequests(flags: set<Flag>)
    ensures StartRequests(Source, flags) == SourceStart(flags)
    ensures HoldRequests(Source, ByLocal, flags) == SourceHold(flags)
    ensures UnholdRequests(Source, ByLocal, flags) == SourceUnhold(flags)
  {
  }
}
