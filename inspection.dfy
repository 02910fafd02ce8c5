/**
 * The inspection session of content.js: the module-level state
 * (`inspectionState`, `lastSample`, `clickTimeout`, `lastSent`) and the
 * handlers that change it (`startInspection`, `stopInspection`,
 * `onMouseMove`, `onKeyDown`, `onClick`, `onDblClick`, the runtime message
 * listener).
 *
 * The browser is abstracted as follows.
 *  - The tooltip and the four document listeners are present or absent
 *    (`tooltip`, `listening`); their styling and position are not modelled.
 *  - `chrome.runtime.sendMessage` appends to `outbox`;
 *    `chrome.storage.local.set({isDetecting})` sets `storedDetecting`.
 *  - `Date.now()` is the `now` argument of each handler. The freeze timer is
 *    the deadline `pendingFreeze` of the one timer that is armed and has
 *    neither fired nor been cleared; `TimerDue(now)` is the event loop running
 *    it once `now` has reached the deadline.
 *  - The element under the pointer is a `Hover` record of the computed
 *    values the handler reads.
 *
 * The state is first described as a value (`State`) with one transition
 * function per handler; the class `ContentScript` holds the same state in
 * fields and its methods are proved to perform exactly those transitions.
 */
module Inspection {
  import opened JsText
  import RgbHex
  import VisibleBackground
  import ColorScan

  /** Minimum number of milliseconds between two `inspect-update` messages. */
  const MinInterval: int := 100
  /** Delay of the freeze timer armed by a primary click. */
  const FreezeDelay: int := 250

  /** What a handled mouse move records about the hovered element. `fontRem`
      is the `toFixed(2)` rendering of the size in rem, kept opaque. */
  datatype Sample = Sample(
    fontSize: string, fontRem: string, fontWeight: string,
    textColor: string, textHex: string, bgColor: string, bgHex: string)

  /** The messages the content script sends to the extension. */
  datatype Message =
    | InspectUpdate(sample: Sample)
    | InspectFreeze(sample: Sample)
    | InspectEnd
    | ColorResults(colors: seq<string>)

  /** The computed values of the element under the pointer: its font size,
      rem rendering, weight and text colour, the background colours of the
      elements `getVisibleBackground` visits (the element first) and the
      body's background. */
  datatype Hover = Hover(
    fontSize: string, fontRem: string, fontWeight: string, textColor: string,
    backgrounds: seq<string>, bodyBackground: string)

  /** A runtime message received by the content script. */
  datatype Request = Request(action: string, isDetecting: bool)

  /** The whole session state. `updateTimes` records the `now` of every
      `inspect-update` sent, for stating the throttle. */
  datatype State = State(
    isActive: bool, tooltip: bool, listening: bool,
    lastSample: Option<Sample>, pendingFreeze: Option<int>, lastSent: int,
    outbox: seq<Message>, storedDetecting: Option<bool>, updateTimes: seq<int>)

  /** The state when the script is injected. */
  function Initial(): State {
    State(false, false, false, None, None, 0, [], None, [])
  }

  /** Consecutive times are at least `MinInterval` apart. */
  predicate Spaced(times: seq<int>) {
    forall i :: 0 <= i < |times| - 1 ==> times[i] + MinInterval <= times[i + 1]
  }

  /** Number of `inspect-update` messages in an outbox. */
  function UpdateCount(out: seq<Message>): nat {
    if out == [] then 0
    else UpdateCount(out[..|out| - 1]) + (if out[|out| - 1].InspectUpdate? then 1 else 0)
  }

  /** The invariant every handler keeps: the tooltip and the listeners exist
      exactly while the session is active; every `inspect-update` sent is
      recorded in `updateTimes`, which is spaced by `MinInterval`; `lastSent`
      is the time of the last one (0 before the first). */
  predicate Inv(s: State) {
    && s.tooltip == s.isActive
    && s.listening == s.isActive
    && Spaced(s.updateTimes)
    && UpdateCount(s.outbox) == |s.updateTimes|
    && (if s.updateTimes == [] then s.lastSent == 0
        else s.lastSent == s.updateTimes[|s.updateTimes| - 1])
  }

  /** `startInspection`: does nothing while active, otherwise activates the
      session, creates the tooltip and registers the listeners. */
  function Start(s: State): State {
    if s.isActive then s
    else s.(isActive := true, tooltip := true, listening := true)
  }

  /** The one message an effective stop sends. */
  function StopMessage(reason: string, last: Option<Sample>): Message {
    if reason == "freeze" && last.Some? then InspectFreeze(last.value) else InspectEnd
  }

  /** `stopInspection(reason)`: does nothing while inactive, otherwise ends
      the session, removes the tooltip and the listeners, sends one message
      and stores `isDetecting: false`. `lastSample` and the freeze timer are
      left as they are. */
  function Stop(s: State, reason: string): State {
    if !s.isActive then s
    else s.(isActive := false, tooltip := false, listening := false,
            outbox := s.outbox + [StopMessage(reason, s.lastSample)],
            storedDetecting := Some(false))
  }

  /** The sample `onMouseMove` records for a hovered element. */
  function SampleOf(h: Hover): Sample {
    var bg := VisibleBackground.VisibleBackgroundOf(h.backgrounds, h.bodyBackground);
    Sample(h.fontSize, h.fontRem, h.fontWeight, h.textColor,
           RgbHex.RgbToHex(h.textColor), bg, RgbHex.RgbToHex(bg))
  }

  /** `onMouseMove` at time `now` with `hit` under the pointer (`None` when
      `elementFromPoint` finds nothing). */
  function Move(s: State, now: int, hit: Option<Hover>): State {
    if hit.None? || !s.tooltip then s
    else
      var sample := SampleOf(hit.value);
      if now - s.lastSent >= MinInterval then
        s.(lastSample := Some(sample), lastSent := now,
           outbox := s.outbox + [InspectUpdate(sample)],
           updateTimes := s.updateTimes + [now])
      else s.(lastSample := Some(sample))
  }

  /** `onKeyDown`: Escape stops the session with the default reason. */
  function KeyDown(s: State, key: string): State {
    if key == "Escape" then Stop(s, "end") else s
  }

  /** `onClick` at time `now`: a primary click replaces the pending timer by
      one that fires `FreezeDelay` later. */
  function Click(s: State, button: int, now: int): State {
    if button != 0 then s else s.(pendingFreeze := Some(now + FreezeDelay))
  }

  /** `onDblClick`: a primary double click cancels the pending timer and ends
      the session. */
  function DblClick(s: State, button: int): State {
    if button != 0 then s else Stop(s.(pendingFreeze := None), "end")
  }

  /** The event loop at time `now`: a timer whose deadline has come runs
      `stopInspection("freeze")`. */
  function TimerDue(s: State, now: int): State {
    if s.pendingFreeze.Some? && s.pendingFreeze.value <= now
    then Stop(s.(pendingFreeze := None), "freeze")
    else s
  }

  /** The runtime message listener, on a page whose elements have the styles
      `page` and whose colour round-trip is `roundTrip`. */
  function Receive(s: State, msg: Request, page: seq<ColorScan.Style>, roundTrip: string -> string): State {
    if msg.action == "toggle-css-detect" then
      (if msg.isDetecting then Start(s) else Stop(s, "end"))
    else if msg.action == "find-colors" then
      s.(outbox := s.outbox + [ColorResults(ColorScan.ValidColors(ColorScan.AddAll([], ColorScan.PageCandidates(page)), roundTrip))])
    else s
  }

  /** Everything that can happen to the script. Page events reach the
      handlers only while the listeners are registered; the timer and runtime
      messages always do. */
  datatype Event =
    | MouseMoveAt(now: int, hit: Option<Hover>)
    | KeyPress(key: string)
    | ClickAt(button: int, now: int)
    | DoubleClick(button: int)
    | Clock(now: int)
    | Runtime(msg: Request, page: seq<ColorScan.Style>, roundTrip: string -> string)

  function Deliver(s: State, e: Event): State {
    match e
    case MouseMoveAt(now, hit) => if s.listening then Move(s, now, hit) else s
    case KeyPress(key) => if s.listening then KeyDown(s, key) else s
    case ClickAt(button, now) => if s.listening then Click(s, button, now) else s
    case DoubleClick(button) => if s.listening then DblClick(s, button) else s
    case Clock(now) => TimerDue(s, now)
    case Runtime(msg, page, roundTrip) => Receive(s, msg, page, roundTrip)
  }

  /** The state after a whole history of events. */
  function Run(s: State, events: seq<Event>): State
    decreases |events|
  {
    if events == [] then s else Run(Deliver(s, events[0]), events[1..])
  }

  // ---------------------------------------------------------------------
  // Properties of the transitions

  lemma InitialInv()
    ensures Inv(Initial())
  {
  }

  lemma {:induction false} UpdateCountSnoc(out: seq<Message>, m: Message)
    ensures UpdateCount(out + [m]) == UpdateCount(out) + (if m.InspectUpdate? then 1 else 0)
  {
    assert (out + [m])[..|out + [m]| - 1] == out;
  }

  /** `startInspection` while active changes nothing; starting twice is
      starting once. */
  lemma StartIdempotent(s: State)
    ensures s.isActive ==> Start(s) == s
    ensures Start(Start(s)) == Start(s)
    ensures Start(s).isActive
    ensures Inv(s) ==> Start(s).tooltip && Start(s).listening
    ensures Start(s).outbox == s.outbox
  {
  }

  /** `stopInspection` while inactive changes nothing, whatever the reason;
      a second stop after a first one changes nothing. */
  lemma StopIdempotent(s: State, reason: string, reason': string)
    ensures !s.isActive ==> Stop(s, reason) == s
    ensures Stop(Stop(s, reason), reason') == Stop(s, reason)
  {
  }

  /** An effective stop ends the session, removes tooltip and listeners,
      stores `isDetecting: false` and sends exactly one message: a freeze
      carrying the last sample when the reason is "freeze" and there is a
      sample, an end message otherwise. */
  lemma StopSendsOne(s: State, reason: string)
    requires s.isActive
    ensures var t := Stop(s, reason);
      && !t.isActive && !t.tooltip && !t.listening
      && t.storedDetecting == Some(false)
      && |t.outbox| == |s.outbox| + 1 && t.outbox[..|s.outbox|] == s.outbox
      && (t.outbox[|s.outbox|] == InspectEnd <==> !(reason == "freeze" && s.lastSample.Some?))
      && (t.outbox[|s.outbox|].InspectFreeze? <==> reason == "freeze" && s.lastSample.Some?)
      && (t.outbox[|s.outbox|].InspectFreeze? ==> t.outbox[|s.outbox|].sample == s.lastSample.value)
      && t.lastSample == s.lastSample && t.pendingFreeze == s.pendingFreeze
  {
    var t := Stop(s, reason);
    assert t.outbox[..|s.outbox|] == s.outbox;
  }

  /** Moves with nothing under the pointer, or without a tooltip, are
      ignored; any other move replaces the sample, and sends an update iff
      `MinInterval` has passed since the last one. */
  lemma MoveEffect(s: State, now: int, hit: Option<Hover>)
    ensures hit.None? || !s.tooltip ==> Move(s, now, hit) == s
    ensures hit.Some? && s.tooltip ==>
      && Move(s, now, hit).lastSample == Some(SampleOf(hit.value))
      && (Move(s, now, hit).outbox != s.outbox <==> now - s.lastSent >= MinInterval)
      && (Move(s, now, hit).outbox != s.outbox ==>
            Move(s, now, hit).outbox == s.outbox + [InspectUpdate(SampleOf(hit.value))]
            && Move(s, now, hit).lastSent == now)
      && Move(s, now, hit).isActive == s.isActive
  {
    if hit.Some? && s.tooltip && now - s.lastSent >= MinInterval {
      assert |Move(s, now, hit).outbox| == |s.outbox| + 1;
    }
  }

  /** The sample names the colours and their hex forms as `rgbToHex` and
      `getVisibleBackground` compute them; the background is never empty. */
  lemma SampleColours(h: Hover)
    ensures SampleOf(h).bgColor != ""
    ensures SampleOf(h).bgColor in h.backgrounds
         || SampleOf(h).bgColor == VisibleBackground.BodyFallback(h.bodyBackground)
    ensures SampleOf(h).textHex == "" <==> RgbHex.DigitRuns(h.textColor) == []
  {
    VisibleBackground.NeverEmpty(h.backgrounds, h.bodyBackground);
    RgbHex.EmptyIffNoDigit(h.textColor);
  }

  /** Clicks: a non-primary click or double click is ignored; a primary
      click leaves a single timer due `FreezeDelay` later and changes nothing
      else; a primary double click leaves no timer and ends the session. */
  lemma ClickEffect(s: State, button: int, now: int)
    ensures button != 0 ==> Click(s, button, now) == s && DblClick(s, button) == s
    ensures button == 0 ==> Click(s, button, now) == s.(pendingFreeze := Some(now + FreezeDelay))
    ensures button == 0 ==> DblClick(s, button).pendingFreeze == None && !DblClick(s, button).isActive
    ensures button == 0 && s.isActive ==> DblClick(s, button).outbox == s.outbox + [InspectEnd]
  {
  }

  /** Escape ends the session like `stopInspection()`; other keys do
      nothing. */
  lemma EscapeEnds(s: State, key: string)
    ensures key == "Escape" ==> !KeyDown(s, key).isActive
    ensures key == "Escape" && s.isActive ==> KeyDown(s, key).outbox == s.outbox + [InspectEnd]
    ensures key != "Escape" ==> KeyDown(s, key) == s
  {
  }

  /** A freeze timer that fires once the session has stopped sends nothing
      and changes nothing but the timer itself; a timer that is not yet due
      does nothing. */
  lemma StaleTimerSilent(s: State, now: int)
    ensures !s.isActive ==> TimerDue(s, now).outbox == s.outbox
    ensures !s.isActive ==> TimerDue(s, now) == s || TimerDue(s, now) == s.(pendingFreeze := None)
    ensures s.pendingFreeze.None? || now < s.pendingFreeze.value ==> TimerDue(s, now) == s
  {
  }

  /** While the listeners are removed, page events change nothing. */
  lemma InactiveIgnoresPage(s: State, e: Event)
    requires !s.listening && !e.Clock? && !e.Runtime?
    ensures Deliver(s, e) == s
  {
  }

  /** A change that touches neither the sends nor the session flags keeps
      the invariant. */
  lemma InvFrame(s: State, t: State)
    requires Inv(s)
    requires t.isActive == s.isActive && t.tooltip == s.tooltip && t.listening == s.listening
    requires t.updateTimes == s.updateTimes && t.lastSent == s.lastSent
    requires UpdateCount(t.outbox) == UpdateCount(s.outbox)
    ensures Inv(t)
  {
  }

  lemma StartInv(s: State)
    requires Inv(s)
    ensures Inv(Start(s))
  {
  }

  lemma StopInv(s: State, reason: string)
    requires Inv(s)
    ensures Inv(Stop(s, reason))
  {
    if s.isActive {
      UpdateCountSnoc(s.outbox, StopMessage(reason, s.lastSample));
    }
  }

  lemma {:induction false} SpacedSnoc(times: seq<int>, now: int)
    requires Spaced(times)
    requires times != [] ==> times[|times| - 1] + MinInterval <= now
    ensures Spaced(times + [now])
  {
    var t := times + [now];
    forall i | 0 <= i < |t| - 1
      ensures t[i] + MinInterval <= t[i + 1]
    {
      if i < |times| - 1 {
        assert t[i] == times[i] && t[i + 1] == times[i + 1];
      }
    }
  }

  lemma MoveInv(s: State, now: int, hit: Option<Hover>)
    requires Inv(s)
    ensures Inv(Move(s, now, hit))
  {
    if hit.Some? && s.tooltip {
      var t := Move(s, now, hit);
      if now - s.lastSent >= MinInterval {
        UpdateCountSnoc(s.outbox, InspectUpdate(SampleOf(hit.value)));
        SpacedSnoc(s.updateTimes, now);
        assert t.updateTimes == s.updateTimes + [now];
      } else {
        InvFrame(s, t);
      }
    }
  }

  lemma TimerInv(s: State, now: int)
    requires Inv(s)
    ensures Inv(TimerDue(s, now))
  {
    if s.pendingFreeze.Some? && s.pendingFreeze.value <= now {
      InvFrame(s, s.(pendingFreeze := None));
      StopInv(s.(pendingFreeze := None), "freeze");
    }
  }

  lemma ReceiveInv(s: State, msg: Request, page: seq<ColorScan.Style>, roundTrip: string -> string)
    requires Inv(s)
    ensures Inv(Receive(s, msg, page, roundTrip))
  {
    if msg.action == "toggle-css-detect" {
      StartInv(s);
      StopInv(s, "end");
    } else if msg.action == "find-colors" {
      var m := ColorResults(ColorScan.ValidColors(ColorScan.AddAll([], ColorScan.PageCandidates(page)), roundTrip));
      UpdateCountSnoc(s.outbox, m);
      InvFrame(s, s.(outbox := s.outbox + [m]));
    }
  }

  /** Every transition keeps the invariant. */
  lemma DeliverInv(s: State, e: Event)
    requires Inv(s)
    ensures Inv(Deliver(s, e))
  {
    match e
    case MouseMoveAt(now, hit) => MoveInv(s, now, hit);
    case KeyPress(key) => StopInv(s, "end");
    case ClickAt(button, now) => InvFrame(s, Click(s, button, now));
    case DoubleClick(button) =>
      InvFrame(s, s.(pendingFreeze := None));
      StopInv(s.(pendingFreeze := None), "end");
    case Clock(now) => TimerInv(s, now);
    case Runtime(msg, page, roundTrip) => ReceiveInv(s, msg, page, roundTrip);
  }

  /** From a state satisfying the invariant, whatever happens, the invariant
      holds: in particular every two consecutive `inspect-update` messages
      were sent at least `MinInterval` apart. */
  lemma {:induction false} RunInv(s: State, events: seq<Event>)
    requires Inv(s)
    ensures Inv(Run(s, events))
    decreases |events|
  {
    if events != [] {
      DeliverInv(s, events[0]);
      RunInv(Deliver(s, events[0]), events[1..]);
    }
  }

  /** Click, click, double click: the browser's order for a double click.
      The session ends with exactly one `inspect-end`, no freeze, and no
      timer left to fire later. */
  lemma DoubleClickEndsOnce(s: State, t: int, later: int)
    requires Inv(s) && s.isActive
    ensures var r := TimerDue(DblClick(Click(Click(s, 0, t), 0, t + 100), 0), later);
      r.outbox == s.outbox + [InspectEnd] && !r.isActive && r.pendingFreeze == None
  {
  }

  /** A move then a single primary click freezes the session on that move's
      sample once the delay has passed; the move itself sends an update
      first exactly when the throttle lets it through. */
  lemma ClickFreezes(s: State, t: int, h: Hover)
    requires Inv(s) && s.isActive
    ensures var r := TimerDue(Click(Move(s, t, Some(h)), 0, t), t + FreezeDelay);
      && |r.outbox| > 0 && r.outbox[|r.outbox| - 1] == InspectFreeze(SampleOf(h)) && !r.isActive
      && (t - s.lastSent < MinInterval ==> r.outbox == s.outbox + [InspectFreeze(SampleOf(h))])
      && (t - s.lastSent >= MinInterval ==>
            r.outbox == s.outbox + [InspectUpdate(SampleOf(h)), InspectFreeze(SampleOf(h))])
  {
    var s1 := Move(s, t, Some(h));
    assert s1.lastSample == Some(SampleOf(h)) && s1.isActive;
  }

  /** Ending a session with Escape does not clear the freeze timer: when a
      new session starts before it is due, the old timer freezes the new
      session, with no click made in it. */
  lemma StaleTimerFreezesNextSession(h: Hover)
    ensures var ended := KeyDown(Click(Start(Initial()), 0, 1000), "Escape");
      var r := TimerDue(Move(Start(ended), 1100, Some(h)), 1250);
      && ended.outbox == [InspectEnd] && !ended.isActive
      && r.outbox == [InspectEnd, InspectUpdate(SampleOf(h)), InspectFreeze(SampleOf(h))]
      && !r.isActive
  {
    var ended := KeyDown(Click(Start(Initial()), 0, 1000), "Escape");
    assert ended.pendingFreeze == Some(1250) && ended.lastSent == 0;
    var s := Move(Start(ended), 1100, Some(h));
    assert s.outbox == [InspectEnd, InspectUpdate(SampleOf(h))] && s.isActive;
  }

  // ---------------------------------------------------------------------
  // The script's state as it lives in the page

  class ContentScript {
    var isActive: bool
    var tooltip: bool
    var listening: bool
    var lastSample: Option<Sample>
    var pendingFreeze: Option<int>
    var lastSent: int
    var outbox: seq<Message>
    var storedDetecting: Option<bool>
    ghost var updateTimes: seq<int>

    ghost function Snapshot(): State
      reads this
    {
      State(isActive, tooltip, listening, lastSample, pendingFreeze, lastSent,
            outbox, storedDetecting, updateTimes)
    }

    ghost predicate Valid()
      reads this
    {
      Inv(Snapshot())
    }

    constructor()
      ensures Snapshot() == Initial() && Valid()
    {
      isActive, tooltip, listening := false, false, false;
      lastSample, pendingFreeze, lastSent := None, None, 0;
      outbox, storedDetecting, updateTimes := [], None, [];
    }

    method StartInspection()
      modifies this
      requires Valid()
      ensures Valid() && Snapshot() == Start(old(Snapshot()))
    {
      StartInv(Snapshot());
      if isActive { return; }
      isActive := true;
      tooltip := true;
      listening := true;
    }

    method StopInspection(reason: string)
      modifies this
      requires Valid()
      ensures Valid() && Snapshot() == Stop(old(Snapshot()), reason)
    {
      StopInv(Snapshot(), reason);
      if !isActive { return; }
      isActive := false;
      listening := false;
      tooltip := false;
      var m := if reason == "freeze" && lastSample.Some? then InspectFreeze(lastSample.value) else InspectEnd;
      outbox := outbox + [m];
      storedDetecting := Some(false);
    }

    method OnMouseMove(now: int, hit: Option<Hover>)
      modifies this
      requires Valid()
      ensures Valid() && Snapshot() == Move(old(Snapshot()), now, hit)
    {
      MoveInv(Snapshot(), now, hit);
      if hit.None? || !tooltip { return; }
      var h := hit.value;
      var bgColor := VisibleBackground.GetVisibleBackground(h.backgrounds, h.bodyBackground);
      var sample := Sample(h.fontSize, h.fontRem, h.fontWeight, h.textColor,
                           RgbHex.RgbToHex(h.textColor), bgColor, RgbHex.RgbToHex(bgColor));
      lastSample := Some(sample);
      if now - lastSent >= MinInterval {
        lastSent := now;
        outbox := outbox + [InspectUpdate(sample)];
        updateTimes := updateTimes + [now];
      }
    }

    method OnKeyDown(key: string)
      modifies this
      requires Valid()
      ensures Valid() && Snapshot() == KeyDown(old(Snapshot()), key)
    {
      if key == "Escape" { StopInspection("end"); }
    }

    method OnClick(button: int, now: int)
      modifies this
      requires Valid()
      ensures Valid() && Snapshot() == Click(old(Snapshot()), button, now)
    {
      InvFrame(Snapshot(), Click(Snapshot(), button, now));
      if button != 0 { return; }
      pendingFreeze := Some(now + FreezeDelay);
    }

    method OnDblClick(button: int)
      modifies this
      requires Valid()
      ensures Valid() && Snapshot() == DblClick(old(Snapshot()), button)
    {
      if button != 0 { return; }
      pendingFreeze := None;
      StopInspection("end");
    }

    /** The event loop reaching time `now`. */
    method OnTimer(now: int)
      modifies this
      requires Valid()
      ensures Valid() && Snapshot() == TimerDue(old(Snapshot()), now)
    {
      if pendingFreeze.Some? && pendingFreeze.value <= now {
        pendingFreeze := None;
        StopInspection("freeze");
      }
    }

    method OnMessage(msg: Request, page: seq<ColorScan.Style>, roundTrip: string -> string)
      modifies this
      requires Valid()
      ensures Valid() && Snapshot() == Receive(old(Snapshot()), msg, page, roundTrip)
    {
      if msg.action == "toggle-css-detect" {
        if msg.isDetecting { StartInspection(); } else { StopInspection("end"); }
      }
      if msg.action == "find-colors" {
        ReceiveInv(old(Snapshot()), msg, page, roundTrip);
        var colors := ColorScan.FindColors(page, roundTrip);
        UpdateCountSnoc(outbox, ColorResults(colors));
        outbox := outbox + [ColorResults(colors)];
      }
    }
  }
}
