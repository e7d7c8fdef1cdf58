/**
 * The firmware's main loop and its two button interrupts: an interrupt sets a
 * flag unless the last accepted press was less than 200 ms ago, and the loop
 * clears flags and switches screens.  Steps are single accesses to what loop and
 * interrupts share, so a run is any interleaving of interrupts, time and loop.
 */
module ButtonScreens {
  import opened Common

  const DEBOUNCE_US := 200 * 1000

  datatype Screen = MainNoLaps | MainLaps | DebugRtd | DebugNoRtd | Warn

  /** Where the loop is between two accesses. */
  datatype Loop =
    | Head          // about to look at the mode flag
    | ModeSeen      // found it set, about to clear it
    | ModeCleared   // about to toggle driving
    | NoMode        // found it clear, about to look at the submode flag
    | SubSeen
    | SubCleared
    | Warned        // showing the warning, about to go on

  /** A button as the interrupt handler sees it; `accepted` counts the presses let through. */
  datatype Button = Button(flag: bool, last: nat, accepted: nat)

  datatype State = State(
    now: nat,           // microseconds since boot
    mode: Button,
    sub: Button,
    screen: Screen,
    loop: Loop,
    modeHandled: nat,   // mode toggles carried out
    subHandled: nat)

  datatype Event = Tick(us: nat) | PressMode | PressSub | LoopStep

  /** After initialisation the static debug screen is shown. */
  function Boot(now: nat): State {
    State(now, Button(false, 0, 0), Button(false, 0, 0), DebugNoRtd, Head, 0, 0)
  }

  /** The interrupt handler. */
  function Isr(b: Button, now: nat): Button {
    if now - b.last > DEBOUNCE_US then Button(true, now, b.accepted + 1) else b
  }

  function ToggleWhetherDrive(screen: Screen): Screen {
    if screen == DebugNoRtd then MainNoLaps else DebugNoRtd
  }

  function LoopOnce(s: State): State {
    match s.loop
    case Head => s.(loop := if s.mode.flag then ModeSeen else NoMode)
    case ModeSeen => s.(mode := s.mode.(flag := false), loop := ModeCleared)
    case ModeCleared =>
      s.(screen := ToggleWhetherDrive(s.screen), loop := Head, modeHandled := s.modeHandled + 1)
    case NoMode => s.(loop := if s.sub.flag then SubSeen else Head)
    case SubSeen => s.(sub := s.sub.(flag := false), loop := SubCleared)
    case SubCleared =>
      var t := s.(subHandled := s.subHandled + 1);
      if s.screen == DebugNoRtd then t.(loop := Head)
      else (
        match s.screen
        case MainNoLaps => t.(screen := MainLaps, loop := Head)
        case MainLaps => t.(screen := Warn, loop := Warned)
        case DebugRtd => t.(screen := MainNoLaps, loop := Head)
        case _ => t.(loop := Head))
    case Warned => s.(screen := DebugRtd, loop := Head)
  }

  function Step(s: State, e: Event): State {
    match e
    case Tick(us) => s.(now := s.now + us)
    case PressMode => s.(mode := Isr(s.mode, s.now))
    case PressSub => s.(sub := Isr(s.sub, s.now))
    case LoopStep => LoopOnce(s)
  }

  function Run(s: State, events: seq<Event>): State
    decreases |events|
  {
    if events == [] then s else Run(Step(s, events[0]), events[1..])
  }

  function One(b: bool): nat { if b then 1 else 0 }

  /** Accepted presses are more than the debounce time apart, counted from boot. */
  predicate Spaced(b: Button, now: nat) { b.accepted * (DEBOUNCE_US + 1) <= b.last <= now }

  predicate Inv(s: State) {
    && Spaced(s.mode, s.now)
    && Spaced(s.sub, s.now)
    && (s.loop == ModeSeen ==> s.mode.flag)
    && (s.loop == SubSeen ==> s.sub.flag)
    && s.modeHandled + One(s.mode.flag) + One(s.loop == ModeCleared) <= s.mode.accepted
    && s.subHandled + One(s.sub.flag) + One(s.loop == SubCleared) <= s.sub.accepted
    && (s.screen == Warn <==> s.loop == Warned)
  }

  lemma StepInv(s: State, e: Event)
    requires Inv(s)
    ensures Inv(Step(s, e))
  {
  }

  lemma {:induction false} RunInv(s: State, events: seq<Event>)
    requires Inv(s)
    ensures Inv(Run(s, events))
    decreases |events|
  {
    hide Inv, Step;
    if events != [] {
      StepInv(s, events[0]);
      RunInv(Step(s, events[0]), events[1..]);
    }
  }

  /**
   * In every interleaving, by time T the loop has carried out at most T div 200001 toggles for each
   * button, and the warning is never what is shown when the loop comes round.
   */
  lemma TogglesBounded(start: nat, events: seq<Event>)
    ensures var s := Run(Boot(start), events);
            && s.modeHandled <= s.now / 200_001
            && s.subHandled <= s.now / 200_001
            && (s.loop == Head ==> s.screen != Warn)
  {
    hide Run;
    RunInv(Boot(start), events);
  }

  /** Mode toggles begun or carried out. */
  function ModeBegun(s: State): nat { s.modeHandled + One(s.loop == ModeCleared) }

  function SubBegun(s: State): nat { s.subHandled + One(s.loop == SubCleared) }

  /**
   * Once a button's flag is set it stays set until the loop begins a toggle for it.  (A press let
   * through while the flag is still set adds no toggle of its own.)
   */
  lemma {:induction false} FlagPersists(s: State, events: seq<Event>)
    requires Inv(s)
    ensures var t := Run(s, events);
            && (s.mode.flag ==> t.mode.flag || ModeBegun(t) > ModeBegun(s))
            && (s.sub.flag ==> t.sub.flag || SubBegun(t) > SubBegun(s))
    decreases |events|
  {
    if events != [] {
      var t := Step(s, events[0]);
      StepInv(s, events[0]);
      FlagPersists(t, events[1..]);
      HandledGrows(t, events[1..]);
    }
  }

  /** Toggles begun or carried out are never taken back. */
  lemma {:induction false} HandledGrows(s: State, events: seq<Event>)
    ensures var t := Run(s, events);
            && ModeBegun(t) >= ModeBegun(s) && t.modeHandled >= s.modeHandled
            && SubBegun(t) >= SubBegun(s) && t.subHandled >= s.subHandled
    decreases |events|
  {
    if events != [] {
      HandledGrows(Step(s, events[0]), events[1..]);
    }
  }

  /** The static debug screen is left only by a mode toggle, however many submode presses come. */
  lemma {:induction false} DebugLeftByMode(s: State, events: seq<Event>)
    requires Inv(s) && s.screen == DebugNoRtd
    ensures var t := Run(s, events); t.screen == DebugNoRtd || t.modeHandled > s.modeHandled
    decreases |events|
  {
    if events != [] {
      var t := Step(s, events[0]);
      StepInv(s, events[0]);
      if t.screen == DebugNoRtd {
        DebugLeftByMode(t, events[1..]);
      } else {
        HandledGrows(t, events[1..]);
      }
    }
  }

  /** From boot on the static debug screen is shown until the mode button has been pressed. */
  lemma StartsInDebug(start: nat, events: seq<Event>)
    ensures var s := Run(Boot(start), events); s.modeHandled == 0 ==> s.screen == DebugNoRtd
  {
    hide Run;
    DebugLeftByMode(Boot(start), events);
  }

  /** The screen changes exactly along these edges, and each says which button or step caused it. */
  lemma ScreenEdges(s: State, e: Event)
    requires Inv(s)
    ensures Step(s, e).screen ==
            if e != LoopStep then s.screen
            else if s.loop == ModeCleared then if s.screen == DebugNoRtd then MainNoLaps else DebugNoRtd
            else if s.loop == SubCleared && s.screen == MainNoLaps then MainLaps
            else if s.loop == SubCleared && s.screen == MainLaps then Warn
            else if s.loop == SubCleared && s.screen == DebugRtd then MainNoLaps
            else if s.loop == Warned then DebugRtd
            else s.screen
  {
  }

  // ----- presses are carried out ----------------------------------------------------------

  function LoopSteps(events: seq<Event>): nat {
    if events == [] then 0 else LoopSteps(events[1..]) + One(events[0] == LoopStep)
  }

  /** How many steps of the loop it takes at most until a set mode flag has led to a toggle. */
  function ModeRank(loop: Loop): nat {
    match loop
    case ModeCleared => 1
    case ModeSeen => 2
    case Head => 3
    case Warned => 4
    case SubCleared => 5
    case SubSeen => 6
    case NoMode => 7
  }

  /** Whatever else happens, a mode flag that is set has led to a toggle after seven steps of the loop. */
  lemma {:induction false} ModeCarriedOut(s: State, events: seq<Event>)
    requires Inv(s) && (s.mode.flag || s.loop == ModeCleared) && LoopSteps(events) >= ModeRank(s.loop)
    ensures Run(s, events).modeHandled > s.modeHandled
    decreases |events|
  {
    if events != [] {
      var t := Step(s, events[0]);
      StepInv(s, events[0]);
      if t.modeHandled > s.modeHandled {
        HandledGrows(t, events[1..]);
      } else {
        ModeCarriedOut(t, events[1..]);
      }
    }
  }

  /** The same for either flag: the loop carries out one toggle or the other. */
  function AnyRank(loop: Loop, modeFlag: bool): nat {
    match loop
    case ModeCleared => 1
    case SubCleared => 1
    case ModeSeen => 2
    case SubSeen => 2
    case NoMode => 3
    case Head => if modeFlag then 3 else 4
    case Warned => 5
  }

  lemma {:induction false} OneCarriedOut(s: State, events: seq<Event>)
    requires Inv(s) && (s.sub.flag || s.loop == SubCleared) && LoopSteps(events) >= AnyRank(s.loop, s.mode.flag)
    ensures var t := Run(s, events); t.modeHandled + t.subHandled > s.modeHandled + s.subHandled
    decreases |events|
  {
    if events != [] {
      var t := Step(s, events[0]);
      StepInv(s, events[0]);
      if t.modeHandled + t.subHandled > s.modeHandled + s.subHandled {
        HandledGrows(t, events[1..]);
      } else {
        OneCarriedOut(t, events[1..]);
      }
    }
  }

  /**
   * A submode flag gives way to mode toggles only: with five steps of the loop for each of those and
   * five more it has led to a toggle of its own.
   */
  lemma {:induction false} SubCarriedOut(s: State, events: seq<Event>)
    requires Inv(s) && (s.sub.flag || s.loop == SubCleared)
    requires LoopSteps(events) >= AnyRank(s.loop, s.mode.flag) + 5 * (Run(s, events).modeHandled - s.modeHandled)
    ensures Run(s, events).subHandled > s.subHandled
    decreases |events|
  {
    HandledGrows(s, events);
    if events != [] {
      var t := Step(s, events[0]);
      StepInv(s, events[0]);
      HandledGrows(t, events[1..]);
      if t.subHandled == s.subHandled {
        SubCarriedOut(t, events[1..]);
      }
    }
  }

  /** More than the debounce time has gone by since the last press that was let through. */
  predicate Due(b: Button, now: nat) { now - b.last >= 200_001 }

  /** So a press that comes when it is due is carried out, and only such a press counts. */
  lemma PressCarriedOut(s: State, events: seq<Event>)
    requires Inv(s)
    ensures Step(s, PressMode).mode.accepted == s.mode.accepted + One(Due(s.mode, s.now))
    ensures Step(s, PressSub).sub.accepted == s.sub.accepted + One(Due(s.sub, s.now))
    ensures Due(s.mode, s.now) && LoopSteps(events) >= 7 ==>
              Run(Step(s, PressMode), events).modeHandled > s.modeHandled
    ensures var t := Run(Step(s, PressSub), events);
            Due(s.sub, s.now) && LoopSteps(events) >= 5 + 5 * (t.modeHandled - s.modeHandled) ==>
              t.subHandled > s.subHandled
  {
    hide Run, Inv;
    StepInv(s, PressMode);
    StepInv(s, PressSub);
    HandledGrows(Step(s, PressSub), events);
    if Due(s.mode, s.now) && LoopSteps(events) >= 7 {
      ModeCarriedOut(Step(s, PressMode), events);
    }
    var u := Step(s, PressSub);
    if Due(s.sub, s.now) && LoopSteps(events) >= 5 + 5 * (Run(u, events).modeHandled - s.modeHandled) {
      SubCarriedOut(u, events);
    }
  }

  /** As long as no mode toggle is carried out, a screen other than the static debug one never becomes it. */
  lemma {:induction false} DriveKept(s: State, events: seq<Event>)
    requires Inv(s) && s.screen != DebugNoRtd
    requires Run(s, events).modeHandled == s.modeHandled
    ensures Run(s, events).screen != DebugNoRtd
    decreases |events|
  {
    if events != [] {
      var t := Step(s, events[0]);
      StepInv(s, events[0]);
      HandledGrows(t, events[1..]);
      DriveKept(t, events[1..]);
    }
  }
}
