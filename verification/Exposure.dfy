/** The exposure server: one request at a time goes through the filter wheel's two-leg
    approach, the exposure, the polls for its end, and the readout.  Timer expiries, the
    characters the wheel sends and the replies of the camera are events from outside. */
module Exposure {

  datatype ExposureState =
    | Idle | ExposureRequested | ReadyForExposure | Exposing | ReadyForExposureToEnd | ReadyForReadout

  /** The single pending timeout: the procedure SetTimeout was last given. */
  datatype Timer = NoTimer | FilterTimer | ExposureTimer

  /** What the server does to the hardware, in order. */
  datatype Action =
    | Move(position: int)
    | Start(reported: int, desired: int)
    | Readout
    | NoFrame
    | WheelTimeout
    | ExposureTimedOut

  /** The camera's side of one callback: whether the set-up calls and the shutter call succeed,
      whether the exposure ends so soon that no timer is set, the remaining time reported, and
      whether a frame that is read out has sixteen bits a pixel. */
  datatype Camera = Camera(setupOk: bool, shotOk: bool, immediate: bool, remaining: nat, frameOk: bool)

  predicate Sound(camera: Camera) { camera.setupOk && camera.shotOk && camera.frameOk }

  /** 25 / 0.1 ticks of the wheel timer. */
  const CFW_MAX_TIMEOUTS: int := 250
  /** (5.0 + 0.1) / 0.1 is 50.99... in double arithmetic and is truncated to an int. */
  const EXPOSURE_POLLS: int := 50

  /** The globals of the server and of the wheel driver; mark and moved are history: the number
      of actions before the current request, and whether that request had to move the wheel. */
  datatype Server = Server(
    state: ExposureState, tgtNum: int, firstPos: int, desiredPos: int, cfwPosition: int,
    filterCounter: int, exposureCounter: int, timer: Timer, exited: bool,
    currentPosition: int, inMove: bool, readBuffer: string,
    log: seq<Action>, mark: nat, moved: bool)

  // ---------------------------------------------------------------- one callback

  /** USBMoveFilterWheel */
  function MoveWheel(s: Server, position: int): Server
  {
    s.(readBuffer := "", inMove := true, log := s.log + [Move(position)])
  }

  /** RefreshCFWPosition: the first character since the last move is the position. */
  function Refresh(s: Server): Server
  {
    if s.inMove && s.readBuffer != "" then
      var p := s.readBuffer[0] as int - '0' as int;
      s.(currentPosition := p, readBuffer := "", cfwPosition := p)
    else s.(cfwPosition := s.currentPosition)
  }

  /** The wheel approaches the desired slot from a neighbour. */
  function Staging(desired: int): int { if desired != 0 then desired - 1 else desired + 1 }

  function WheelWait(s: Server): Server { s.(timer := FilterTimer, filterCounter := CFW_MAX_TIMEOUTS) }

  function FirstLeg(s: Server): Server
  {
    WheelWait(MoveWheel(s.(firstPos := Staging(s.desiredPos), moved := true), Staging(s.desiredPos)))
  }

  function SecondLeg(s: Server): Server { WheelWait(MoveWheel(s, s.desiredPos)) }

  /** ReadoutExposure; a frame of another depth is given up. */
  function Finish(s: Server, camera: Camera): Server
  {
    s.(state := Idle, log := s.log + [if camera.frameOk then Readout else NoFrame])
  }

  /** One more poll of a camera that is not done. */
  function PollAgain(s: Server): Server
  {
    var left := s.exposureCounter - 1;
    if left <= 0 then s.(state := ReadyForExposureToEnd, exposureCounter := left, log := s.log + [ExposureTimedOut])
    else s.(state := ReadyForExposureToEnd, exposureCounter := left, timer := ExposureTimer)
  }

  function Poll(s: Server, camera: Camera): Server
  {
    if camera.remaining <= 0 then Finish(s, camera) else PollAgain(s)
  }

  function Expose(s: Server, camera: Camera): Server
  {
    if !camera.setupOk then s.(state := ReadyForExposure)
    else
      var open := s.(state := Exposing, log := s.log + [Start(s.cfwPosition, s.desiredPos)]);
      if !camera.shotOk then open
      else
        var counting := open.(exposureCounter := EXPOSURE_POLLS);
        if camera.immediate then Poll(counting, camera) else counting.(timer := ExposureTimer)
  }

  /** The wheel is moved in two legs unless it already stands at the desired slot. */
  function Approach(s: Server, camera: Camera): Server
  {
    if s.desiredPos == s.cfwPosition then Expose(s, camera)
    else if s.tgtNum == 0 then FirstLeg(s)
    else SecondLeg(s)
  }

  /** ProcessAll */
  function Process(s: Server, camera: Camera): Server
  {
    match s.state
    case ExposureRequested => Approach(s, camera)
    case ReadyForExposure => Expose(s, camera)
    case ReadyForReadout => Finish(s, camera)
    case _ => s
  }

  /** handle_expose_message, once the wheel has finished initialising. */
  function Request(s: Server, desired: nat, camera: Camera): Server
  {
    Process(Refresh(s.(desiredPos := desired, mark := |s.log|, moved := false)).(state := ExposureRequested), camera)
  }

  /** FilterTimeout */
  function FilterTick(s: Server, camera: Camera): Server
  {
    var r := Refresh(s);
    if r.tgtNum == 0 && r.cfwPosition == r.firstPos then Process(r.(tgtNum := 1), camera)
    else if r.tgtNum == 1 && r.cfwPosition == r.desiredPos then
      Process(r.(tgtNum := 0, state := ReadyForExposure), camera)
    else if r.filterCounter - 1 <= 0 then
      r.(filterCounter := r.filterCounter - 1, exited := true, log := r.log + [WheelTimeout])
    else r.(filterCounter := r.filterCounter - 1, timer := FilterTimer)
  }

  /** The dispatch of the pending timeout. */
  function Tick(s: Server, camera: Camera): Server
  {
    var r := s.(timer := NoTimer);
    match s.timer
    case NoTimer => s
    case FilterTimer => FilterTick(r, camera)
    case ExposureTimer => Poll(r, camera)
  }

  // ---------------------------------------------------------------- the callbacks as methods

  function Rank(state: ExposureState): nat
  {
    match state
    case Idle => 0
    case ReadyForReadout => 1
    case ReadyForExposureToEnd => 2
    case Exposing => 3
    case ReadyForExposure => 4
    case ExposureRequested => 5
  }

  class ExposureServer {
    var state: ExposureState
    var tgtNum: int
    var firstPos: int
    var desiredPos: int
    var cfwPosition: int
    var filterCounter: int
    var exposureCounter: int
    var timer: Timer
    var exited: bool
    var currentPosition: int
    var inMove: bool
    var readBuffer: string
    var log: seq<Action>
    ghost var mark: nat
    ghost var moved: bool

    ghost function View(): Server
      reads this
    {
      Server(state, tgtNum, firstPos, desiredPos, cfwPosition, filterCounter, exposureCounter, timer, exited,
             currentPosition, inMove, readBuffer, log, mark, moved)
    }

    constructor (position: int)
      ensures View() == Powered(position)
    {
      state, tgtNum, firstPos, desiredPos, cfwPosition := Idle, 0, 0, 0, position;
      filterCounter, exposureCounter, timer, exited := -1, -1, NoTimer, false;
      currentPosition, inMove, readBuffer, log, mark, moved := position, true, "", [], 0, false;
    }

    /** The reader thread stores one more character. */
    method ReadThread(c: char)
      modifies this
      ensures View() == old(View()).(readBuffer := old(readBuffer) + [c])
    {
      readBuffer := readBuffer + [c];
    }

    method USBMoveFilterWheel(position: int)
      modifies this
      ensures View() == MoveWheel(old(View()), position)
    {
      readBuffer := "";
      log := log + [Move(position)];
      inMove := true;
    }

    /** Afterwards the position is the wheel's first character since the last move command or the
        last look, or what it was if there is none. */
    method RefreshCFWPosition()
      modifies this
      ensures View() == Refresh(old(View()))
      ensures cfwPosition == currentPosition
      ensures old(inMove) && old(readBuffer) != "" ==>
                old(readBuffer)[0] as int == '0' as int + cfwPosition && readBuffer == ""
      ensures !old(inMove) || old(readBuffer) == "" ==>
                cfwPosition == old(currentPosition) && readBuffer == old(readBuffer)
    {
      if inMove && readBuffer != "" {
        currentPosition := readBuffer[0] as int - '0' as int;
        readBuffer := "";
      }
      cfwPosition := currentPosition;
    }

    method ScheduleFilterTimeout(firstTime: bool)
      modifies this
      ensures View() == old(View()).(timer := FilterTimer,
                                     filterCounter := if firstTime then CFW_MAX_TIMEOUTS else old(filterCounter))
    {
      if firstTime {
        filterCounter := CFW_MAX_TIMEOUTS;
      }
      timer := FilterTimer;
    }

    method ScheduleExposureTimeout(camera: Camera)
      requires state == Exposing || state == ReadyForExposureToEnd
      modifies this
      ensures old(state) == Exposing ==>
                View() == var counting := old(View()).(exposureCounter := EXPOSURE_POLLS);
                          if camera.immediate then Poll(counting, camera) else counting.(timer := ExposureTimer)
      ensures old(state) == ReadyForExposureToEnd ==> View() == PollAgain(old(View()))
      decreases Rank(state), 1
    {
      if state == Exposing {
        exposureCounter := EXPOSURE_POLLS;
        if camera.immediate {
          ExposureTimeout(camera);
        } else {
          timer := ExposureTimer;
        }
      } else {
        exposureCounter := exposureCounter - 1;
        if exposureCounter <= 0 {
          log := log + [ExposureTimedOut];
          return;
        }
        timer := ExposureTimer;
      }
    }

    method ExposureTimeout(camera: Camera)
      modifies this
      ensures View() == Poll(old(View()), camera)
      decreases 2, 5
    {
      state := ReadyForExposureToEnd;
      if camera.remaining <= 0 {
        ExposureFinished(camera);
      } else {
        ScheduleExposureTimeout(camera);
      }
    }

    method ExposureFinished(camera: Camera)
      requires state == ReadyForExposureToEnd
      modifies this
      ensures View() == Finish(old(View()), camera)
      decreases 2, 0
    {
      state := ReadyForReadout;
      ProcessAll(camera);
    }

    method ReadoutExposure(camera: Camera)
      modifies this
      ensures View() == Finish(old(View()), camera)
    {
      state := Idle;
      if !camera.frameOk {
        log := log + [NoFrame];
        return;
      }
      log := log + [Readout];
    }

    method StartExposure(camera: Camera)
      requires state == ReadyForExposure
      modifies this
      ensures View() == Expose(old(View()), camera)
      decreases 4, 2
    {
      if !camera.setupOk {
        return;
      }
      state := Exposing;
      log := log + [Start(cfwPosition, desiredPos)];
      if !camera.shotOk {
        return;
      }
      ScheduleExposureTimeout(camera);
    }

    method ProcessAll(camera: Camera)
      modifies this
      ensures View() == Process(old(View()), camera)
      decreases Rank(state), 3
    {
      match state
      case Idle => return;
      case ExposureRequested =>
        if desiredPos != cfwPosition {
          if tgtNum == 0 {
            firstPos := if desiredPos != 0 then desiredPos - 1 else desiredPos + 1;
            moved := true;
            USBMoveFilterWheel(firstPos);
          } else {
            USBMoveFilterWheel(desiredPos);
          }
          ScheduleFilterTimeout(true);
        } else {
          state := ReadyForExposure;
          ProcessAll(camera);
        }
      case ReadyForExposure => StartExposure(camera);
      case Exposing =>
      case ReadyForExposureToEnd =>
      case ReadyForReadout => ReadoutExposure(camera);
    }

    method FilterTimeout(camera: Camera)
      modifies this
      ensures View() == FilterTick(old(View()), camera)
    {
      hide Process, Refresh;
      RefreshCFWPosition();
      if tgtNum == 0 && cfwPosition == firstPos {
        tgtNum := 1;
        ProcessAll(camera);
      } else if tgtNum == 1 && cfwPosition == desiredPos {
        tgtNum := 0;
        state := ReadyForExposure;
        ProcessAll(camera);
      } else {
        filterCounter := filterCounter - 1;
        if filterCounter <= 0 {
          exited := true;
          log := log + [WheelTimeout];
        } else {
          ScheduleFilterTimeout(false);
        }
      }
    }

    method HandleExposeMessage(desired: nat, camera: Camera)
      modifies this
      ensures View() == Request(old(View()), desired, camera)
    {
      hide Process, Refresh;
      desiredPos := desired;
      mark := |log|;
      moved := false;
      RefreshCFWPosition();
      state := ExposureRequested;
      ProcessAll(camera);
    }

    /** The answer to a status query looks where the wheel is. */
    method SendStatusMessage()
      modifies this
      ensures View() == Refresh(old(View()))
    {
      RefreshCFWPosition();
    }

    /** The main loop's dispatch: the expired flag is cleared, then the procedure runs. */
    method Dispatch(camera: Camera)
      modifies this
      ensures View() == Tick(old(View()), camera)
    {
      var procedure := timer;
      timer := NoTimer;
      match procedure
      case NoTimer =>
      case FilterTimer => FilterTimeout(camera);
      case ExposureTimer => ExposureTimeout(camera);
    }
  }

  /** The server once the wheel has reported its position for the first time. */
  function Powered(position: int): Server
  {
    Server(Idle, 0, 0, 0, position, -1, -1, NoTimer, false, position, true, "", [], 0, false)
  }

  // ---------------------------------------------------------------- runs

  datatype Event =
    | Expired(camera: Camera)
    | WheelSays(c: char)
    | Message(desired: nat, camera: Camera)
    | StatusQuery

  /** One request at a time: an expose message comes only when no timeout is pending; an expiry
      only when one is; a status query at any time; and nothing after exit(). */
  predicate Enabled(s: Server, e: Event)
  {
    && !s.exited
    && (e.Expired? ==> !s.timer.NoTimer?)
    && (e.Message? ==> s.timer.NoTimer?)
  }

  function After(s: Server, e: Event): Server
  {
    match e
    case Expired(camera) => Tick(s, camera)
    case WheelSays(c) => s.(readBuffer := s.readBuffer + [c])
    case Message(desired, camera) => Request(s, desired, camera)
    case StatusQuery => Refresh(s)
  }

  predicate IsRun(s: Server, events: seq<Event>)
    decreases |events|
  {
    events == [] || (Enabled(s, events[0]) && IsRun(After(s, events[0]), events[1..]))
  }

  function Outcome(s: Server, events: seq<Event>): Server
    decreases |events|
  {
    if events == [] then s else Outcome(After(s, events[0]), events[1..])
  }

  /** The actions since the current request began. */
  function Current(s: Server): seq<Action>
    requires s.mark <= |s.log|
  {
    s.log[s.mark..]
  }

  /** The commands that bring the wheel to the desired slot. */
  function Legs(s: Server): seq<Action>
  {
    if s.moved then [Move(Staging(s.desiredPos)), Move(s.desiredPos)] else []
  }

  function Shot(s: Server): seq<Action> { Legs(s) + [Start(s.desiredPos, s.desiredPos)] }

  /** What the current request has done so far, by the state the server rests in. */
  ghost predicate Progress(s: Server)
  {
    s.mark <= |s.log| &&
    match s.state
    case Idle => s.log == [] || Current(s) == Shot(s) + [Readout] || Current(s) == Shot(s) + [NoFrame]
    case ExposureRequested =>
      && s.moved
      && Current(s) == (if s.tgtNum == 0 then Legs(s)[..1] else Legs(s)) + (if s.exited then [WheelTimeout] else [])
    case ReadyForExposure => Current(s) == Legs(s)
    case Exposing => Current(s) == Shot(s)
    case ReadyForExposureToEnd => Current(s) == Shot(s) + (if s.timer.NoTimer? then [ExposureTimedOut] else [])
    case ReadyForReadout => false
  }

  /** What holds between any two events. */
  ghost predicate Inv(s: Server)
  {
    && (s.tgtNum == 0 || s.tgtNum == 1)
    && (s.tgtNum == 1 ==> s.state == ExposureRequested)
    && (s.timer == FilterTimer <==> s.state == ExposureRequested && !s.exited)
    && (s.exited ==> s.state == ExposureRequested)
    && (s.timer == FilterTimer ==> s.firstPos == Staging(s.desiredPos) && 0 < s.filterCounter <= CFW_MAX_TIMEOUTS)
    && (s.timer == ExposureTimer ==> s.state == Exposing || s.state == ReadyForExposureToEnd)
    && (s.timer == ExposureTimer && s.state == ReadyForExposureToEnd ==> 0 < s.exposureCounter < EXPOSURE_POLLS)
    && (s.timer == ExposureTimer && s.state == Exposing ==> s.exposureCounter == EXPOSURE_POLLS)
    && Progress(s)
  }

  /** Every exposure so far was started with the wheel reported at the slot asked for. */
  predicate StartsInPlace(log: seq<Action>)
  {
    forall i :: 0 <= i < |log| && log[i].Start? ==> log[i].reported == log[i].desired
  }

  lemma ExposeInv(s: Server, camera: Camera)
    requires s.tgtNum == 0 && s.timer == NoTimer && !s.exited && s.mark <= |s.log| && Current(s) == Legs(s)
    requires s.cfwPosition == s.desiredPos && StartsInPlace(s.log)
    ensures var v := Expose(s, camera); Inv(v) && StartsInPlace(v.log) && Measure(v) <= 51 && Begun(v)
    ensures Sound(camera) ==> Healthy(Expose(s, camera))
  {
    hide Poll;
    if camera.setupOk {
      var open := s.(state := Exposing, log := s.log + [Start(s.cfwPosition, s.desiredPos)]);
      assert Current(open) == Current(s) + [Start(s.desiredPos, s.desiredPos)];
      if camera.shotOk && camera.immediate {
        PollInv(open.(exposureCounter := EXPOSURE_POLLS), camera);
      }
    }
  }

  lemma PollInv(s: Server, camera: Camera)
    requires s.tgtNum == 0 && s.timer == NoTimer && !s.exited && s.mark <= |s.log| && Current(s) == Shot(s)
    requires 0 < s.exposureCounter <= EXPOSURE_POLLS && StartsInPlace(s.log)
    ensures var v := Poll(s, camera);
            && Inv(v) && StartsInPlace(v.log) && Measure(v) < s.exposureCounter && Begun(v)
            && (camera.frameOk ==> Healthy(v))
  {
    var v := Poll(s, camera);
    assert forall a :: (s.log + [a])[s.mark..] == Current(s) + [a];
  }

  /** Looking where the wheel is changes nothing else. */
  lemma RefreshInv(s: Server)
    ensures var w := Refresh(s);
            w == s.(cfwPosition := w.cfwPosition, currentPosition := w.currentPosition, readBuffer := w.readBuffer)
    ensures Inv(Refresh(s)) <==> Inv(s)
    ensures Healthy(Refresh(s)) <==> Healthy(s)
  {
  }

  /** The wheel timer has gone off and the wheel has been looked at. */
  ghost predicate Ticked(s: Server)
  {
    Inv(s.(timer := FilterTimer)) && s.timer == NoTimer && s.state == ExposureRequested && StartsInPlace(s.log)
  }

  lemma SecondLegInv(w: Server, camera: Camera)
    requires Ticked(w) && !w.exited && w.tgtNum == 0 && w.cfwPosition == w.firstPos
    ensures var v := Process(w.(tgtNum := 1), camera);
            Inv(v) && StartsInPlace(v.log) && Measure(v) <= 301 && Begun(v) && Healthy(v)
  {
    hide Expose;
    assert (w.log + [Move(w.desiredPos)])[w.mark..] == Current(w) + [Move(w.desiredPos)];
  }

  lemma WaitInv(w: Server)
    requires Ticked(w) && !w.exited
    ensures var c := w.filterCounter - 1;
            var v := if c <= 0 then w.(filterCounter := c, exited := true, log := w.log + [WheelTimeout])
                     else w.(filterCounter := c, timer := FilterTimer);
            && Inv(v) && StartsInPlace(v.log) && Begun(v) && Healthy(v)
            && Measure(v) < (if w.tgtNum == 0 then 301 else 51) + w.filterCounter
  {
    assert (w.log + [WheelTimeout])[w.mark..] == Current(w) + [WheelTimeout];
  }

  lemma FilterTickInv(s: Server, camera: Camera)
    requires Inv(s) && !s.exited && s.timer == FilterTimer && StartsInPlace(s.log)
    ensures var v := FilterTick(s.(timer := NoTimer), camera);
            && Inv(v) && StartsInPlace(v.log) && Measure(v) < Measure(s) && Begun(v)
            && (Sound(camera) ==> Healthy(v))
  {
    hide Expose, Process, StartsInPlace;
    var w := Refresh(s.(timer := NoTimer));
    RefreshInv(s.(timer := NoTimer));
    assert Inv(w.(timer := FilterTimer));
    if w.tgtNum == 0 && w.cfwPosition == w.firstPos {
      SecondLegInv(w, camera);
    } else if w.tgtNum == 1 && w.cfwPosition == w.desiredPos {
      ShotAfterLegs(w.(tgtNum := 0, state := ReadyForExposure), camera);
    } else {
      WaitInv(w);
    }
  }

  lemma ShotAfterLegs(w: Server, camera: Camera)
    requires w.tgtNum == 0 && w.timer == NoTimer && !w.exited && w.mark <= |w.log| && Current(w) == Legs(w)
    requires w.cfwPosition == w.desiredPos && StartsInPlace(w.log) && w.state == ReadyForExposure
    ensures var v := Process(w, camera);
            Inv(v) && StartsInPlace(v.log) && Measure(v) <= 51 && Begun(v) && (Sound(camera) ==> Healthy(v))
  {
    ExposeInv(w, camera);
  }

  lemma RequestInv(s: Server, desired: nat, camera: Camera)
    requires Inv(s) && !s.exited && s.timer == NoTimer && StartsInPlace(s.log)
    ensures var v := Request(s, desired, camera);
            && Inv(v) && StartsInPlace(v.log) && Measure(v) <= LONGEST && Begun(v)
            && (Sound(camera) ==> Healthy(v))
  {
    hide Expose;
    var r := Refresh(s.(desiredPos := desired, mark := |s.log|, moved := false)).(state := ExposureRequested);
    assert Current(r) == [];
    if r.desiredPos == r.cfwPosition {
      ExposeInv(r, camera);
    } else {
      assert (r.log + [Move(Staging(desired))])[|s.log|..] == [Move(Staging(desired))];
    }
  }

  /** Every event keeps the invariant, starts no exposure out of place, and an expiry brings
      the request strictly closer to its end. */
  lemma InvAfter(s: Server, e: Event)
    requires Inv(s) && Enabled(s, e) && StartsInPlace(s.log)
    ensures Inv(After(s, e)) && StartsInPlace(After(s, e).log)
    ensures e.Expired? ==> Measure(After(s, e)) < Measure(s)
    ensures e.WheelSays? || e.StatusQuery? ==> Measure(After(s, e)) == Measure(s)
    ensures e.Message? ==> Measure(After(s, e)) <= LONGEST
    ensures Succeeds(e) && (e.Message? || Healthy(s)) ==> Healthy(After(s, e))
    ensures e.Message? || Begun(s) ==> Begun(After(s, e))
  {
    hide FilterTick, Request, Poll;
    match e
    case WheelSays(_) =>
    case StatusQuery => RefreshInv(s);
    case Expired(camera) =>
      if s.timer == FilterTimer {
        FilterTickInv(s, camera);
      } else {
        PollInv(s.(timer := NoTimer), camera);
      }
    case Message(desired, camera) => RequestInv(s, desired, camera);
  }

  /** The number of expiries a request can take: two legs, the exposure, the polls. */
  const LONGEST: nat := 551

  /** How many expiries the current request has left at most. */
  function Measure(s: Server): nat
  {
    if s.exited then 0
    else
      match s.timer
      case NoTimer => 0
      case FilterTimer => (if s.tgtNum == 0 then 301 else 51) + (if s.filterCounter > 0 then s.filterCounter else 0)
      case ExposureTimer => if s.state == Exposing then 51 else if s.exposureCounter > 0 then s.exposureCounter else 0
  }

  predicate Succeeds(e: Event)
  {
    match e
    case Expired(camera) => Sound(camera)
    case WheelSays(_) => true
    case StatusQuery => true
    case Message(_, camera) => Sound(camera)
  }

  /** A server that is idle again has done something. */
  predicate Begun(s: Server) { s.state == Idle ==> s.log != [] }

  /** No SDK call of the current request has failed. */
  predicate Healthy(s: Server)
  {
    && s.state != ReadyForExposure && (s.state == Exposing ==> s.timer == ExposureTimer)
    && (s.state == Idle && s.log != [] ==> s.log[|s.log| - 1] != NoFrame)
  }

  // ---------------------------------------------------------------- the theorems

  lemma {:induction false} RunInv(s: Server, events: seq<Event>)
    requires Inv(s) && StartsInPlace(s.log) && IsRun(s, events)
    ensures Inv(Outcome(s, events)) && StartsInPlace(Outcome(s, events).log)
    decreases |events|
  {
    hide After, Inv;
    if events != [] {
      InvAfter(s, events[0]);
      RunInv(After(s, events[0]), events[1..]);
    }
  }

  /** In every run an exposure starts only where the wheel was reported at the desired slot;
      the actions of the request in hand are exactly those its state calls for, the two legs
      in order first; and the leg counter is 0 outside ExposureRequested. */
  lemma RunsAreSafe(position: int, events: seq<Event>)
    requires IsRun(Powered(position), events)
    ensures var s := Outcome(Powered(position), events);
            && StartsInPlace(s.log)
            && Progress(s)
            && (s.state != ExposureRequested ==> s.tgtNum == 0)
  {
    RunInv(Powered(position), events);
  }

  function Expiries(events: seq<Event>): nat
    decreases |events|
  {
    if events == [] then 0 else (if events[0].Expired? then 1 else 0) + Expiries(events[1..])
  }

  predicate NoMessage(events: seq<Event>)
  {
    forall i :: 0 <= i < |events| ==> !events[i].Message?
  }

  lemma {:induction false} ExpiriesBounded(s: Server, events: seq<Event>)
    requires Inv(s) && StartsInPlace(s.log) && IsRun(s, events) && NoMessage(events)
    ensures Expiries(events) + Measure(Outcome(s, events)) <= Measure(s)
    ensures Healthy(s) && (forall i :: 0 <= i < |events| ==> Succeeds(events[i])) ==> Healthy(Outcome(s, events))
    ensures Begun(s) ==> Begun(Outcome(s, events))
    decreases |events|
  {
    hide After, Inv, Measure, Healthy, Begun;
    if events != [] {
      InvAfter(s, events[0]);
      ExpiriesBounded(After(s, events[0]), events[1..]);
    }
  }

  /** A request is over when no timeout is pending any more. */
  predicate Over(s: Server) { s.exited || s.timer.NoTimer? }

  /** It ended in exactly one readout after the exposure, or in one of the two timeouts. */
  ghost predicate Concluded(s: Server)
    requires s.mark <= |s.log|
  {
    || (s.state == Idle && Current(s) == Shot(s) + [Readout])
    || (s.state == ReadyForExposureToEnd && Current(s) == Shot(s) + [ExposureTimedOut])
    || (s.exited && Current(s) == [Move(Staging(s.desiredPos)), WheelTimeout])
    || (s.exited && Current(s) == Legs(s) + [WheelTimeout])
  }

  /** However the wheel and the camera behave, a request is over after at most 551 expiries,
      and if no SDK call failed it has then been read out exactly once or stopped at one of
      the two declared timeouts. */
  lemma EveryRequestEnds(position: int, before: seq<Event>, desired: nat, camera: Camera, events: seq<Event>)
    requires IsRun(Powered(position), before)
    requires var s := Outcome(Powered(position), before);
             Enabled(s, Message(desired, camera)) && IsRun(Request(s, desired, camera), events)
    requires NoMessage(events)
    ensures Expiries(events) <= LONGEST
    ensures var s := Outcome(Request(Outcome(Powered(position), before), desired, camera), events);
            && s.mark <= |s.log|
            && (Expiries(events) == LONGEST ==> Over(s))
            && (Over(s) && Sound(camera) && (forall i :: 0 <= i < |events| ==> Succeeds(events[i]))
                ==> Concluded(s))
  {
    var s := Outcome(Powered(position), before);
    var r := Request(s, desired, camera);
    RunInv(Powered(position), before);
    InvAfter(s, Message(desired, camera));
    ExpiriesBounded(r, events);
    RunInv(r, events);
  }

  // ---------------------------------------------------------------- where the wheel stands

  /** The slot the wheel has last reported. */
  function Standing(s: Server): int
  {
    if s.inMove && s.readBuffer != "" then Digit(s.readBuffer[0]) else s.currentPosition
  }

  function Digit(c: char): int { c as int - '0' as int }

  /** At most the first thing that happens in an event is an opening of the shutter. */
  predicate OpensAtMostFirst(before: seq<Action>, after: seq<Action>)
  {
    before <= after && forall i :: |before| < i < |after| ==> !after[i].Start?
  }

  lemma ExposeActs(s: Server, camera: Camera)
    ensures var v := Expose(s, camera);
            && OpensAtMostFirst(s.log, v.log)
            && (if camera.setupOk then s.log + [Start(s.cfwPosition, s.desiredPos)] <= v.log else v.log == s.log)
            && (camera.setupOk && camera.shotOk && !camera.immediate ==>
                  v.state == Exposing && v.timer == ExposureTimer && v.exposureCounter == 50)
  {
  }

  /** A request opens the shutter at once if and only if the wheel stands at its slot, and
      otherwise sends the wheel to the neighbouring slot and waits. */
  lemma RequestActs(s: Server, desired: nat, camera: Camera)
    requires Inv(s) && s.timer == NoTimer && !s.exited
    ensures var v := Request(s, desired, camera);
            && OpensAtMostFirst(s.log, v.log)
            && (desired != Standing(s) ==>
                  v.log == s.log + [Move(if desired > 0 then desired - 1 else 1)]
                  && v.timer == FilterTimer && v.filterCounter == 250)
            && (desired == Standing(s) && camera.setupOk ==> s.log + [Start(desired, desired)] <= v.log)
            && (desired == Standing(s) && !camera.setupOk ==> v.log == s.log)
  {
    hide Expose, Progress;
    var r := Refresh(s.(desiredPos := desired, mark := |s.log|, moved := false));
    ExposeActs(r.(state := ExposureRequested), camera);
  }

  /** Only the expiry that finds the wheel at the end of its second leg opens the shutter. */
  lemma TickActs(s: Server, camera: Camera)
    requires Inv(s) && !s.exited && s.timer != NoTimer
    ensures var v := Tick(s, camera);
            && OpensAtMostFirst(s.log, v.log)
            && (|s.log| < |v.log| && v.log[|s.log|].Start? ==>
                  && s.timer == FilterTimer && s.tgtNum == 1 && Standing(s) == s.desiredPos
                  && v.log[|s.log|] == Start(s.desiredPos, s.desiredPos))
  {
    hide Expose, Progress;
    var w := Refresh(s.(timer := NoTimer));
    ExposeActs(w.(tgtNum := 0, state := ReadyForExposure), camera);
  }

  /** The wheel has said p at some moment when the server had done just this. */
  ghost predicate SaidAt(position: int, events: seq<Event>, p: int, log: seq<Action>)
  {
    exists j :: 0 <= j < |events| && events[j].WheelSays? && Digit(events[j].c) == p
                && Outcome(Powered(position), events[..j]).log == log
  }

  /** The wheel stood at p when the server was switched on, or has said so. */
  ghost predicate Known(position: int, events: seq<Event>, p: int)
  {
    p == position || exists j :: 0 <= j < |events| && events[j].WheelSays? && Digit(events[j].c) == p
  }

  /** A request for p came at such a moment, and the wheel stood at p. */
  ghost predicate AskedAt(position: int, events: seq<Event>, p: int, log: seq<Action>)
  {
    exists j :: 0 <= j < |events| && events[j].Message? && events[j].desired == p
                && Outcome(Powered(position), events[..j]).log == log
                && Standing(Outcome(Powered(position), events[..j])) == p
  }

  /** Why the shutter was opened. */
  ghost predicate Explained(position: int, events: seq<Event>, log: seq<Action>, i: nat)
    requires i < |log| && log[i].Start?
  {
    var p := log[i].desired;
    && log[i].reported == p
    && Known(position, events, p)
    && (AskedAt(position, events, p, log[..i])
        || (i >= 2 && log[i - 2] == Move(if p != 0 then p - 1 else 1) && log[i - 1] == Move(p)
            && SaidAt(position, events, p, log[..i])))
  }

  /** What is in hand about the wheel goes back to what it has said; during the second leg, to
      what it has said since that leg began. */
  ghost predicate Traced(position: int, events: seq<Event>, s: Server)
  {
    && s.inMove
    && Known(position, events, s.currentPosition)
    && (forall c :: c in s.readBuffer ==> Known(position, events, Digit(c)))
    && (s.timer == FilterTimer ==> forall c :: c in s.readBuffer ==> SaidAt(position, events, Digit(c), s.log))
    && (s.timer == FilterTimer && s.tgtNum == 1 ==>
          s.currentPosition == s.firstPos || SaidAt(position, events, s.currentPosition, s.log))
    && (forall i :: 0 <= i < |s.log| && s.log[i].Start? ==> Explained(position, events, s.log, i))
  }

  lemma {:induction false} OutcomeSnoc(s: Server, events: seq<Event>, e: Event)
    ensures Outcome(s, events + [e]) == After(Outcome(s, events), e)
    ensures IsRun(s, events + [e]) <==> IsRun(s, events) && Enabled(Outcome(s, events), e)
    decreases |events|
  {
    hide After, Enabled;
    if events != [] {
      assert (events + [e])[1..] == events[1..] + [e];
      OutcomeSnoc(After(s, events[0]), events[1..], e);
    } else {
      assert (events + [e])[1..] == [];
    }
  }

  /** What was so stays so. */
  lemma TracedLonger(position: int, events: seq<Event>, e: Event, s: Server)
    requires Traced(position, events, s)
    ensures Traced(position, events + [e], s)
  {
    hide Outcome, Standing;
    var longer := events + [e];
    assert forall j :: 0 <= j < |events| ==> longer[j] == events[j] && longer[..j] == events[..j];
  }

  /** Which of the wheel's news an event leaves in hand. */
  lemma NewsAfter(s: Server, e: Event)
    requires Inv(s) && Enabled(s, e) && !e.WheelSays?
    ensures var v := After(s, e);
            && (s.inMove ==> v.inMove)
            && (forall c :: c in v.readBuffer ==> c in s.readBuffer)
            && (v.currentPosition == s.currentPosition
                || (s.readBuffer != "" && v.currentPosition == Digit(s.readBuffer[0])))
            && (v.timer == FilterTimer ==>
                  v.readBuffer == "" || (s.timer == FilterTimer && v.log == s.log && v.tgtNum == s.tgtNum))
            && (v.timer == FilterTimer && v.tgtNum == 1 ==>
                  v.currentPosition == v.firstPos
                  || (s.timer == FilterTimer && v.log == s.log && s.tgtNum == 1 && v.firstPos == s.firstPos))
  {
  }

  /** The openings of an event are explained by what came before it. */
  lemma OpeningExplained(position: int, events: seq<Event>, e: Event)
    requires var s := Outcome(Powered(position), events);
             Inv(s) && Enabled(s, e) && Traced(position, events, s)
    ensures var s := Outcome(Powered(position), events);
            var v := After(s, e);
            && s.log <= v.log
            && forall i :: |s.log| <= i < |v.log| && v.log[i].Start? ==> Explained(position, events + [e], v.log, i)
  {
    hide Request, Tick, Outcome, Powered, Inv;
    var s := Outcome(Powered(position), events);
    var v := After(s, e);
    TracedLonger(position, events, e, s);
    match e
    case WheelSays(_) =>
    case StatusQuery =>
    case Message(desired, camera) =>
      RequestActs(s, desired, camera);
      if |s.log| < |v.log| && v.log[|s.log|].Start? {
        assert (events + [e])[|events|] == e && (events + [e])[..|events|] == events;
        assert v.log[..|s.log|] == s.log;
      }
    case Expired(camera) =>
      TickActs(s, camera);
      if |s.log| < |v.log| && v.log[|s.log|].Start? {
        assert v.log[..|s.log|] == s.log;
        LegsBefore(s);
      }
  }

  lemma LegsBefore(s: Server)
    requires Inv(s) && !s.exited && s.timer == FilterTimer && s.tgtNum == 1
    ensures |s.log| >= 2 && s.log[|s.log| - 1] == Move(s.desiredPos) && s.firstPos != s.desiredPos
    ensures s.log[|s.log| - 2] == Move(if s.desiredPos != 0 then s.desiredPos - 1 else 1)
  {
  }

  lemma ExplainedLonger(position: int, events: seq<Event>, log: seq<Action>, longer: seq<Action>, i: nat)
    requires log <= longer && i < |log| && log[i].Start? && Explained(position, events, log, i)
    ensures Explained(position, events, longer, i)
  {
    hide Outcome;
    assert longer[..i] == log[..i];
  }

  lemma PoweredTraced(position: int)
    ensures Inv(Powered(position)) && StartsInPlace(Powered(position).log)
    ensures Traced(position, [], Powered(position)) && Outcome(Powered(position), []) == Powered(position)
  {
  }

  lemma TracedAfter(position: int, events: seq<Event>, e: Event)
    requires var s := Outcome(Powered(position), events);
             Inv(s) && Enabled(s, e) && Traced(position, events, s)
    ensures Traced(position, events + [e], After(Outcome(Powered(position), events), e))
  {
    hide Request, Tick, Outcome, Powered, Inv, Explained;
    var s := Outcome(Powered(position), events);
    var v := After(s, e);
    OpeningExplained(position, events, e);
    TracedLonger(position, events, e, s);
    forall i | 0 <= i < |s.log| && s.log[i].Start? ensures Explained(position, events + [e], v.log, i) {
      ExplainedLonger(position, events + [e], s.log, v.log, i);
    }
    if e.WheelSays? {
      assert (events + [e])[|events|] == e && (events + [e])[..|events|] == events;
    } else {
      NewsAfter(s, e);
    }
  }

  lemma {:induction false} RunTraced(position: int, events: seq<Event>)
    requires IsRun(Powered(position), events)
    ensures Inv(Outcome(Powered(position), events)) && Traced(position, events, Outcome(Powered(position), events))
    decreases |events|
  {
    hide Inv, Traced, After, Powered;
    PoweredTraced(position);
    RunInv(Powered(position), events);
    if events != [] {
      var front, last := events[..|events| - 1], events[|events| - 1];
      assert events == front + [last];
      OutcomeSnoc(Powered(position), front, last);
      RunTraced(position, front);
      TracedAfter(position, front, last);
    }
  }

  /** In every run the shutter opens only where the wheel is known to stand: the request found
      it there, or both legs were commanded and the wheel has named the slot since. */
  lemma EveryOpeningExplained(position: int, events: seq<Event>)
    requires IsRun(Powered(position), events)
    ensures var log := Outcome(Powered(position), events).log;
            forall i :: 0 <= i < |log| && log[i].Start? ==> Explained(position, events, log, i)
  {
    RunTraced(position, events);
  }

  /** And where the wheel is seen to stand is where it was at first or what it has said: the first
      character since the last move command or the last look, if there is one. */
  lemma WheelKnown(position: int, events: seq<Event>)
    requires IsRun(Powered(position), events)
    ensures var s := Outcome(Powered(position), events);
            && Known(position, events, s.currentPosition) && Known(position, events, Standing(s))
            && Standing(s) == (if s.readBuffer != "" then Digit(s.readBuffer[0]) else s.currentPosition)
            && Refresh(s).cfwPosition == Standing(s)
  {
    RunTraced(position, events);
  }

  /** One event more at the front of a run. */
  lemma RunCons(s: Server, e: Event, v: Server, events: seq<Event>)
    requires Enabled(s, e) && After(s, e) == v
    ensures Outcome(s, [e] + events) == Outcome(v, events)
    ensures IsRun(s, [e] + events) <==> IsRun(v, events)
  {
    assert ([e] + events)[1..] == events;
  }

  /** The wheel says where it stands while the server waits for it, and the timer goes off. */
  lemma WheelArrives(s: Server, c: char, camera: Camera)
    requires !s.exited && s.timer == FilterTimer && s.state == ExposureRequested && s.inMove && s.readBuffer == ""
    ensures var v := Outcome(s, [WheelSays(c), Expired(camera)]);
            && IsRun(s, [WheelSays(c), Expired(camera)])
            && (s.tgtNum == 0 && Digit(c) == s.firstPos && s.firstPos != s.desiredPos ==>
                  v == SecondLeg(v.(tgtNum := 1, log := s.log)) && v.desiredPos == s.desiredPos
                  && v.state == s.state && !v.exited && v.filterCounter == 250)
            && (s.tgtNum == 1 && Digit(c) == s.desiredPos
                && camera.setupOk && camera.shotOk && !camera.immediate ==>
                  v.log == s.log + [Start(Digit(c), s.desiredPos)] && v.state == Exposing && v.timer == ExposureTimer)
  {
    var t := s.(readBuffer := [c]);
    assert s.readBuffer + [c] == [c];
    RunCons(s, WheelSays(c), t, [Expired(camera)]);
    RunCons(t, Expired(camera), Tick(t, camera), []);
    assert [WheelSays(c)] + [Expired(camera)] == [WheelSays(c), Expired(camera)];
    assert [Expired(camera)] + [] == [Expired(camera)];
  }

  lemma {:induction false} RunJoin(s: Server, before: seq<Event>, after: seq<Event>)
    ensures Outcome(s, before + after) == Outcome(Outcome(s, before), after)
    ensures IsRun(s, before + after) <==> IsRun(s, before) && IsRun(Outcome(s, before), after)
    decreases |before|
  {
    hide After, Enabled;
    if before == [] {
      assert before + after == after;
    } else {
      assert (before + after)[1..] == before[1..] + after;
      RunJoin(After(s, before[0]), before[1..], after);
    }
  }

  /** A wheel that reports each slot it is sent to gets the shutter opened at the slot asked for. */
  lemma WheelAnswers(s: Server, desired: nat, camera: Camera, staging: char, slot: char)
    requires Inv(s) && s.timer == NoTimer && !s.exited && desired != Standing(s)
    requires Digit(staging) == (if desired > 0 then desired - 1 else 1) && Digit(slot) == desired
    requires camera.setupOk && camera.shotOk && !camera.immediate
    ensures var events := [Message(desired, camera)] + ([WheelSays(staging), Expired(camera)]
                           + [WheelSays(slot), Expired(camera)]);
            var v := Outcome(s, events);
            && IsRun(s, events)
            && v.log == s.log + [Move(Digit(staging)), Move(desired), Start(desired, desired)]
            && v.state == Exposing && v.timer == ExposureTimer
  {
    hide Outcome, IsRun, Tick, Expose;
    var s1 := Request(s, desired, camera);
    var s2 := Outcome(s1, [WheelSays(staging), Expired(camera)]);
    RunCons(s, Message(desired, camera), s1,
            [WheelSays(staging), Expired(camera)] + [WheelSays(slot), Expired(camera)]);
    RunJoin(s1, [WheelSays(staging), Expired(camera)], [WheelSays(slot), Expired(camera)]);
    WheelArrives(s1, staging, camera);
    WheelArrives(s2, slot, camera);
  }

  function Polls(cameras: seq<Camera>): (events: seq<Event>)
    ensures |events| == |cameras|
  {
    seq(|cameras|, i requires 0 <= i < |cameras| => Expired(cameras[i]))
  }

  /** A wheel that stays silent is given up at the 250th expiry of either leg and not before. */
  lemma {:induction false} SilentWheel(s: Server, cameras: seq<Camera>)
    requires !s.exited && s.timer == FilterTimer && 0 < s.filterCounter && |cameras| <= s.filterCounter
    requires s.tgtNum == 0 || s.tgtNum == 1
    requires Standing(s) != if s.tgtNum == 0 then s.firstPos else s.desiredPos
    ensures IsRun(s, Polls(cameras))
    ensures var v := Outcome(s, Polls(cameras));
            && v.exited == (|cameras| == s.filterCounter)
            && v.log == s.log + (if v.exited then [WheelTimeout] else [])
    decreases |cameras|
  {
    hide Process;
    if cameras != [] {
      var v := Tick(s, cameras[0]);
      RunCons(s, Expired(cameras[0]), v, Polls(cameras[1..]));
      assert [Expired(cameras[0])] + Polls(cameras[1..]) == Polls(cameras);
      if |cameras| > 1 || s.filterCounter > 1 {
        SilentWheel(v, cameras[1..]);
      }
    }
  }

  /** While the camera still reports time remaining it is polled again, up to its counter. */
  lemma {:induction false} BusyCamera(s: Server, cameras: seq<Camera>)
    requires !s.exited && s.timer == ExposureTimer && 0 < s.exposureCounter && |cameras| <= s.exposureCounter
    requires forall i :: 0 <= i < |cameras| ==> cameras[i].remaining > 0
    ensures IsRun(s, Polls(cameras))
    ensures var v := Outcome(s, Polls(cameras));
            && v.timer == (if |cameras| == s.exposureCounter then NoTimer else ExposureTimer)
            && v.log == s.log + (if v.timer == NoTimer then [ExposureTimedOut] else [])
            && !v.exited && v.exposureCounter == s.exposureCounter - |cameras|
    decreases |cameras|
  {
    if cameras != [] {
      var v := Tick(s, cameras[0]);
      RunCons(s, Expired(cameras[0]), v, Polls(cameras[1..]));
      assert [Expired(cameras[0])] + Polls(cameras[1..]) == Polls(cameras);
      if |cameras| < s.exposureCounter || |cameras| > 1 {
        BusyCamera(v, cameras[1..]);
      }
    }
  }

  /** The exposure is read out at the first expiry at which the camera reports no time remaining. */
  lemma ReadOutWhenDone(s: Server, cameras: seq<Camera>, last: Camera)
    requires !s.exited && s.timer == ExposureTimer && |cameras| < s.exposureCounter
    requires (forall i :: 0 <= i < |cameras| ==> cameras[i].remaining > 0) && last.remaining == 0
    ensures var v := Outcome(s, Polls(cameras + [last]));
            && IsRun(s, Polls(cameras + [last]))
            && v.state == Idle && v.timer == NoTimer
            && v.log == s.log + [if last.frameOk then Readout else NoFrame]
  {
    BusyCamera(s, cameras);
    OutcomeSnoc(s, Polls(cameras), Expired(last));
    assert Polls(cameras + [last]) == Polls(cameras) + [Expired(last)];
  }
}
