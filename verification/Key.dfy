/**
 The debounced key: its edge interrupt, its 50 ms and 5 s timer callbacks, and
 what they report over every run; then any number of keys on shared GPIO
 registers.
 */
module Key {
  import opened Bits

  const LONG_PRESS_MS: nat := 5000
  const DEBOUNCE_MS: nat := 50

  /** GPIO_INT_TYPE, as far as the driver uses it. */
  datatype Mode = Disabled | PosEdge | NegEdge

  /** A one-shot os_timer: off, or armed to fire at a time or later. */
  datatype Timer = Off | Armed(due: nat)

  /** key_50ms_cb between its read of the pin and its re-arming of the edge. */
  datatype Callback = Resting | Sampled(pin: Bit)

  /** One key: key_level, the interrupt mode of its pin, key_5s, key_50ms and the running callback. */
  datatype Key = Key(level: Bit, mode: Mode, long: Timer, debounce: Timer, callback: Callback)

  const InitialKey: Key := Key(1, NegEdge, Off, Off, Resting)

  /** The handler's part for one key. */
  function OnEdge(k: Key, now: nat): Key {
    if k.level == 1 then k.(long := Armed(now + LONG_PRESS_MS), level := 0, mode := PosEdge)
    else k.(mode := Disabled, debounce := Armed(now + DEBOUNCE_MS))
  }

  /** key_5s_cb; it calls long_press exactly when the pin is low. */
  function OnLong(k: Key): Key {
    k.(long := Off)
  }

  /** The start of key_50ms_cb, up to its read of the pin. */
  function OnSample(k: Key, input: Bit): Key {
    k.(debounce := Off, callback := Sampled(input))
  }

  /** The rest of key_50ms_cb; it calls short_press exactly when the pin was high at the read. */
  function OnRearm(k: Key): Key
    requires k.callback.Sampled?
  {
    if k.callback.pin == 1 then k.(callback := Resting, long := Off, level := 1, mode := NegEdge)
    else k.(callback := Resting, mode := PosEdge)
  }

  // ----- a key in the world

  datatype Entry = Fall(at: nat) | LongPress(at: nat) | Rise(at: nat) | ShortPress(at: nat)

  /** The pin, its latched interrupt status bit, the clock, and the log of edges taken and callbacks called. */
  datatype World = World(key: Key, input: Bit, latched: bool, now: nat, log: seq<Entry>)

  /** After key_init; the pin may already be low. */
  function InitialWorld(input: Bit): World {
    World(InitialKey, input, false, 0, [])
  }

  /**
   Time passes; the pin changes; the handler runs, at once or later; a due timer
   fires, on time or late. The debounce callback reads the pin and later re-arms
   its edge.
   */
  datatype Event = Wait(ms: nat) | Flip | Handle | FireLong | Sample | Rearm

  /** The pin is about to make the edge its interrupt mode asks for. */
  predicate Edge(w: World) {
    (w.input == 0 && w.key.mode.PosEdge?) || (w.input == 1 && w.key.mode.NegEdge?)
  }

  predicate Due(t: Timer, now: nat) {
    t.Armed? && now >= t.due
  }

  function Step(w: World, e: Event): World {
    match e
    case Wait(ms) => w.(now := w.now + ms)
    case Flip => w.(input := 1 - w.input, latched := w.latched || Edge(w))
    case Handle =>
      if w.latched then
        w.(key := OnEdge(w.key, w.now), latched := false,
           log := w.log + [if w.key.level == 1 then Fall(w.now) else Rise(w.now)])
      else w
    case FireLong =>
      if Due(w.key.long, w.now) then
        w.(key := OnLong(w.key), log := if w.input == 0 then w.log + [LongPress(w.now)] else w.log)
      else w
    case Sample => if Due(w.key.debounce, w.now) then w.(key := OnSample(w.key, w.input)) else w
    case Rearm =>
      if w.key.callback.Sampled? then
        w.(key := OnRearm(w.key), log := if w.key.callback.pin == 1 then w.log + [ShortPress(w.now)] else w.log)
      else w
  }

  function Run(w: World, events: seq<Event>): World
    decreases |events|
  {
    if events == [] then w else Run(Step(w, events[0]), events[1..])
  }

  // ----- what a log may say

  datatype Moment = Never | At(at: nat)

  /** Where a log leaves the key: up, or down since a time, with the long press reported or not, and last risen when. */
  datatype Reading = Up | Down(since: nat, held: bool, rose: Moment) | Nonsense

  /**
   A log is falls, each followed by any number of rises and at most one long press,
   5 s after the fall at least, and then one short press, 50 ms after the last rise
   at least.
   */
  function Read(log: seq<Entry>): Reading {
    if log == [] then Up
    else
      var before := Read(log[..|log| - 1]);
      match log[|log| - 1]
      case Fall(t) => if before.Up? then Down(t, false, Never) else Nonsense
      case LongPress(t) =>
        if before.Down? && !before.held && t >= before.since + LONG_PRESS_MS then before.(held := true) else Nonsense
      case Rise(t) =>
        if before.Down? && t >= before.since && (before.rose.At? ==> t >= before.rose.at) then before.(rose := At(t))
        else Nonsense
      case ShortPress(t) =>
        if before.Down? && before.rose.At? && t >= before.rose.at + DEBOUNCE_MS then Up else Nonsense
  }

  lemma ReadSnoc(log: seq<Entry>, e: Entry)
    ensures (log + [e])[..|log|] == log
  {
  }

  /** Level, mode, timers and log fit together, wherever the pin is. */
  predicate Inv(w: World) {
    var r := Read(w.log);
    if w.key.level == 1 then w.key == InitialKey && r == Up
    else
      && r.Down? && r.since <= w.now && (r.rose.At? ==> r.since <= r.rose.at <= w.now)
      && (w.key.long.Armed? ==> !r.held && w.key.long.due == r.since + LONG_PRESS_MS)
      && (if w.key.debounce.Off? && w.key.callback.Resting? then w.key.mode == PosEdge
          else w.key.mode == Disabled && !w.latched && r.rose.At?)
      && (w.key.debounce.Armed? ==> w.key.callback.Resting? && w.key.debounce.due == r.rose.at + DEBOUNCE_MS)
      && (w.key.callback.Sampled? ==> w.now >= r.rose.at + DEBOUNCE_MS)
  }

  lemma StepKeeps(w: World, e: Event)
    requires Inv(w)
    ensures Inv(Step(w, e))
  {
    ReadSnoc(w.log, Fall(w.now));
    ReadSnoc(w.log, LongPress(w.now));
    ReadSnoc(w.log, Rise(w.now));
    ReadSnoc(w.log, ShortPress(w.now));
  }

  /** Over every run the log makes sense. */
  lemma {:induction false} RunKeeps(w: World, events: seq<Event>)
    requires Inv(w)
    ensures Inv(Run(w, events)) && Read(Run(w, events).log) != Nonsense
    decreases |events|
  {
    if events != [] {
      StepKeeps(w, events[0]);
      RunKeeps(Step(w, events[0]), events[1..]);
    }
  }

  /**
   From key_init, every log is falls each followed by at most one long press, no
   sooner than 5 s after the fall, and one short press, no sooner than 50 ms after
   the last rise the handler took.
   */
  lemma RunFromInit(input: Bit, events: seq<Event>)
    ensures var z := Run(InitialWorld(input), events);
      && Read(z.log) != Nonsense
      && (z.key.level == 1 <==> Read(z.log) == Up)
  {
    RunKeeps(InitialWorld(input), events);
  }

  // ----- when the level is the pin's

  /** Nothing is pending: no latched edge, no debounce, no callback under way. */
  predicate Settled(w: World) {
    !w.latched && w.key.debounce.Off? && w.key.callback.Resting?
  }

  /**
   Whether the key's interrupt is armed for an edge its pin has already made, and
   the pin has not moved since: the handler takes a fall and finds the pin high
   again, or the pin moves between the debounce callback's read and its re-arming.
   */
  function NextMissed(w: World, e: Event, missed: bool): bool {
    match e
    case Flip => false
    case Handle => if w.latched then w.key.level == 1 && w.input == 1 else missed
    case Rearm => if w.key.callback.Sampled? then w.input != w.key.callback.pin else missed
    case _ => missed
  }

  function Missed(w: World, events: seq<Event>, missed: bool): bool
    decreases |events|
  {
    if events == [] then missed else Missed(Step(w, events[0]), events[1..], NextMissed(w, events[0], missed))
  }

  predicate Tracks(w: World, missed: bool) {
    Settled(w) ==> (w.key.level == w.input <==> !missed)
  }

  lemma {:induction false} RunTracks(w: World, events: seq<Event>, missed: bool)
    requires Inv(w) && Tracks(w, missed)
    ensures Tracks(Run(w, events), Missed(w, events, missed))
    decreases |events|
  {
    if events != [] {
      StepKeeps(w, events[0]);
      RunTracks(Step(w, events[0]), events[1..], NextMissed(w, events[0], missed));
    }
  }

  /**
   Over every run from key_init, a settled key has its pin's level if and only if
   no edge was missed; a pin that is low at key_init counts as a missed fall.
   */
  lemma LevelIsPinIffNotMissed(input: Bit, events: seq<Event>)
    ensures Tracks(Run(InitialWorld(input), events), Missed(InitialWorld(input), events, input == 0))
  {
    RunTracks(InitialWorld(input), events, input == 0);
  }

  /** A latched edge is handled before anything else, and the pin keeps still while the debounce callback runs. */
  predicate Prompt(w: World, events: seq<Event>)
    decreases |events|
  {
    events == [] ||
    ( && (w.latched ==> events[0].Handle?)
      && (w.key.callback.Sampled? ==> !events[0].Flip?)
      && Prompt(Step(w, events[0]), events[1..]))
  }

  lemma {:induction false} PromptTracks(w: World, events: seq<Event>)
    requires Inv(w) && Tracks(w, false) && (w.latched ==> w.key.level != w.input)
    requires w.key.callback.Sampled? ==> w.key.callback.pin == w.input
    requires Prompt(w, events)
    ensures !Missed(w, events, false) && Tracks(Run(w, events), false)
    decreases |events|
  {
    if events != [] {
      StepKeeps(w, events[0]);
      PromptTracks(Step(w, events[0]), events[1..]);
    }
  }

  /** From key_init on a high pin, prompt runs miss no edge: a settled key always has its pin's level. */
  lemma PromptNeverMisses(events: seq<Event>)
    requires Prompt(InitialWorld(1), events)
    ensures !Missed(InitialWorld(1), events, false) && Tracks(Run(InitialWorld(1), events), false)
  {
    PromptTracks(InitialWorld(1), events);
  }

  // ----- presses

  lemma {:induction false} RunAppend(w: World, a: seq<Event>, b: seq<Event>)
    ensures Run(w, a + b) == Run(Run(w, a), b)
    decreases |a|
  {
    if a == [] {
      assert a + b == b;
    } else {
      assert (a + b)[1..] == a[1..] + b;
      RunAppend(Step(w, a[0]), a[1..], b);
    }
  }

  lemma {:induction false} Run4(w: World, a: Event, b: Event, c: Event, d: Event)
    ensures Run(w, [a, b, c, d]) == Step(Step(Step(Step(w, a), b), c), d)
  {
    hide Step;
    var w1 := Step(w, a);
    var w2 := Step(w1, b);
    var w3 := Step(w2, c);
    assert [a, b, c, d][1..] == [b, c, d];
    assert [b, c, d][1..] == [c, d];
    assert [c, d][1..] == [d];
    assert [d][1..] == [];
    assert Run(w3, [d]) == Run(Step(w3, d), []);
    assert Run(w2, [c, d]) == Run(w3, [d]);
    assert Run(w1, [b, c, d]) == Run(w2, [c, d]);
  }

  lemma Run1(w: World, a: Event)
    ensures Run(w, [a]) == Step(w, a)
  {
    assert Run(Step(w, a), []) == Step(w, a);
  }

  /** A pin that is low at key_init leaves the key up with nothing pending, prompt handler or not. */
  lemma LowAtInitMissed(ms: nat)
    ensures var z := Run(InitialWorld(0), [Wait(ms)]);
      && Prompt(InitialWorld(0), [Wait(ms)]) && Settled(z)
      && z.key.level == 1 && z.input == 0 && z.log == []
  {
    Run1(InitialWorld(0), Wait(ms));
  }

  /** A bounce shorter than the handler's latency: the pin is up, the key is down, and nothing is pending. */
  lemma ShortBounceMissed(w: World, ms: nat)
    requires Inv(w) && Settled(w) && w.key.level == 1 && w.input == 1
    ensures var events := [Flip, Wait(ms), Flip, Handle]; var z := Run(w, events);
      Settled(z) && z.input == 1 && z.key.level == 0 && Missed(w, events, false)
  {
    assert w.key == InitialKey;
    hide Run, Missed, Inv, Read;
    Run4(w, Flip, Wait(ms), Flip, Handle);
    RunTracks(w, [Flip, Wait(ms), Flip, Handle], false);
  }

  /** The pin falls again while the debounce callback runs: the pin is down, the key is up, and nothing is pending. */
  lemma MovedWhileDebouncing(w: World)
    requires Inv(w) && Settled(w) && w.key.level == 1 && w.input == 1
    ensures var events := [Flip, Handle, Flip, Handle] + [Wait(DEBOUNCE_MS), Sample, Flip, Rearm];
      var z := Run(w, events);
      Settled(z) && z.input == 0 && z.key.level == 1 && Missed(w, events, false)
  {
    assert w.key == InitialKey;
    hide Run, Missed, Inv, Read;
    var press, bounce := [Flip, Handle, Flip, Handle], [Wait(DEBOUNCE_MS), Sample, Flip, Rearm];
    RunAppend(w, press, bounce);
    Run4(w, Flip, Handle, Flip, Handle);
    Run4(Run(w, press), Wait(DEBOUNCE_MS), Sample, Flip, Rearm);
    RunTracks(w, press + bounce, false);
  }

  lemma HeldFor(w: World)
    requires Settled(w) && w.key == InitialKey && w.input == 1
    ensures Run(w, [Flip, Handle, Wait(LONG_PRESS_MS), FireLong])
      == World(Key(0, PosEdge, Off, Off, Resting), 0, false, w.now + LONG_PRESS_MS,
               (w.log + [Fall(w.now)]) + [LongPress(w.now + LONG_PRESS_MS)])
  {
    hide Run;
    Run4(w, Flip, Handle, Wait(LONG_PRESS_MS), FireLong);
  }

  lemma ReleasedFor(w: World)
    requires w.key == Key(0, PosEdge, Off, Off, Resting) && w.input == 0 && !w.latched
    ensures Run(w, [Flip, Handle, Wait(DEBOUNCE_MS), Sample] + [Rearm])
      == World(InitialKey, 1, false, w.now + DEBOUNCE_MS,
               (w.log + [Rise(w.now)]) + [ShortPress(w.now + DEBOUNCE_MS)])
  {
    hide Run;
    var release := [Flip, Handle, Wait(DEBOUNCE_MS), Sample];
    RunAppend(w, release, [Rearm]);
    Run4(w, Flip, Handle, Wait(DEBOUNCE_MS), Sample);
    Run1(Run(w, release), Rearm);
  }

  /** A press held for 5 s and then released for 50 ms is reported as one long and one short press. */
  lemma HeldThenReleased(w: World)
    requires Inv(w) && Settled(w) && w.key.level == 1 && w.input == 1
    ensures var z := Run(w, [Flip, Handle, Wait(LONG_PRESS_MS), FireLong]
        + ([Flip, Handle, Wait(DEBOUNCE_MS), Sample] + [Rearm]));
      && z.key == InitialKey && z.input == 1
      && z.log == w.log + [Fall(w.now), LongPress(w.now + LONG_PRESS_MS), Rise(w.now + LONG_PRESS_MS),
                           ShortPress(w.now + LONG_PRESS_MS + DEBOUNCE_MS)]
  {
    assert w.key == InitialKey;
    hide Run, Read, Inv, Step;
    var press := [Flip, Handle, Wait(LONG_PRESS_MS), FireLong];
    RunAppend(w, press, [Flip, Handle, Wait(DEBOUNCE_MS), Sample] + [Rearm]);
    HeldFor(w);
    ReleasedFor(Run(w, press));
  }

  /** Every debounce callback has found the pin low. */
  predicate LowWhenDebounced(w: World, events: seq<Event>)
    decreases |events|
  {
    events == [] ||
    ( && (events[0].Rearm? && w.key.callback.Sampled? ==> w.key.callback.pin == 0)
      && LowWhenDebounced(Step(w, events[0]), events[1..]))
  }

  function ShortPresses(log: seq<Entry>): nat {
    if log == [] then 0
    else ShortPresses(log[..|log| - 1]) + (if log[|log| - 1].ShortPress? then 1 else 0)
  }

  lemma StepReports(w: World, e: Event)
    ensures ShortPresses(Step(w, e).log)
      == ShortPresses(w.log) + (if e.Rearm? && w.key.callback == Sampled(1) then 1 else 0)
  {
    ReadSnoc(w.log, Fall(w.now));
    ReadSnoc(w.log, LongPress(w.now));
    ReadSnoc(w.log, Rise(w.now));
    ReadSnoc(w.log, ShortPress(w.now));
  }

  lemma {:induction false} ReportedIffHigh(w: World, events: seq<Event>)
    ensures ShortPresses(Run(w, events).log) >= ShortPresses(w.log)
    ensures ShortPresses(Run(w, events).log) == ShortPresses(w.log) <==> LowWhenDebounced(w, events)
    decreases |events|
  {
    if events != [] {
      StepReports(w, events[0]);
      ReportedIffHigh(Step(w, events[0]), events[1..]);
      hide Step, ShortPresses;
    }
  }

  /** The log without its rises. */
  function Reports(log: seq<Entry>): seq<Entry> {
    if log == [] then []
    else
      var n := |log| - 1;
      if log[n].Rise? then Reports(log[..n]) else Reports(log[..n]) + [log[n]]
  }

  /** The key is still down since the same fall, and its 5 s timer still runs unless it was due. */
  predicate StillDown(w: World, z: World) {
    var was, r := Read(w.log), Read(z.log);
    var before, after := Reports(w.log), Reports(z.log);
    && was.Down? && r.Down? && r.since == was.since && z.key.level == 0 && z.now >= w.now
    && (if r.held == was.held then after == before
        else r.held && |after| > 0 && after[|after| - 1].LongPress? && after == before + [after[|after| - 1]])
    && (z.key.long == w.key.long || (Due(w.key.long, z.now) && z.key.long.Off?))
  }

  lemma StepStillDown(w: World, e: Event)
    requires Inv(w) && w.key.level == 0
    requires e.Rearm? && w.key.callback.Sampled? ==> w.key.callback.pin == 0
    ensures StillDown(w, Step(w, e))
  {
    ReadSnoc(w.log, LongPress(w.now));
    ReadSnoc(w.log, Rise(w.now));
  }

  lemma StillDownTwice(w: World, v: World, z: World)
    requires StillDown(w, v) && StillDown(v, z)
    ensures StillDown(w, z)
  {
  }

  lemma {:induction false} LowStaysDown(w: World, events: seq<Event>)
    requires Inv(w) && w.key.level == 0 && LowWhenDebounced(w, events)
    ensures StillDown(w, Run(w, events))
    decreases |events|
  {
    if events == [] {
    } else {
      var v := Step(w, events[0]);
      StepKeeps(w, events[0]);
      StepStillDown(w, events[0]);
      LowStaysDown(v, events[1..]);
      StillDownTwice(w, v, Run(w, events));
    }
  }

  lemma {:induction false} ReportsShortPresses(log: seq<Entry>)
    ensures ShortPresses(Reports(log)) == ShortPresses(log)
    decreases |log|
  {
    if log != [] {
      var n := |log| - 1;
      ReportsShortPresses(log[..n]);
      ReadSnoc(Reports(log[..n]), log[n]);
    }
  }

  lemma StillDownUnreported(w: World, z: World)
    requires StillDown(w, z)
    ensures ShortPresses(z.log) == ShortPresses(w.log)
  {
    hide Read, Reports;
    var before, after := Reports(w.log), Reports(z.log);
    ReportsShortPresses(w.log);
    ReportsShortPresses(z.log);
    if after != before {
      ReadSnoc(before, after[|after| - 1]);
    }
  }

  /**
   Over every run from a press, the press goes on unreported, still down since the
   same fall, if and only if every debounce callback finds the pin low.
   */
  lemma BounceIgnored(w: World, events: seq<Event>)
    requires Inv(w) && w.key.level == 0
    ensures StillDown(w, Run(w, events)) <==> LowWhenDebounced(w, events)
  {
    hide Run, LowWhenDebounced, StillDown, ShortPresses;
    ReportedIffHigh(w, events);
    if LowWhenDebounced(w, events) {
      LowStaysDown(w, events);
    } else if StillDown(w, Run(w, events)) {
      StillDownUnreported(w, Run(w, events));
    }
  }

  // ----- both delays, over every run from the edge that starts them

  /** The key is down, its debounce timer is armed for `due`, and no callback runs. */
  predicate Debouncing(w: World, due: nat) {
    w.key.level == 0 && !w.latched && w.key.mode == Disabled && w.key.callback == Resting
    && w.key.debounce == Armed(due)
  }

  lemma StepDebouncing(w: World, e: Event, due: nat)
    requires Debouncing(w, due) && (e.Sample? ==> w.now < due)
    ensures Debouncing(Step(w, e), due) && ShortPresses(Step(w, e).log) == ShortPresses(w.log)
  {
    StepReports(w, e);
    hide ShortPresses;
  }

  lemma {:induction false} NowGrows(w: World, events: seq<Event>)
    ensures Run(w, events).now >= w.now
    decreases |events|
  {
    if events != [] {
      NowGrows(Step(w, events[0]), events[1..]);
    }
  }

  lemma {:induction false} RunDebouncing(w: World, events: seq<Event>, due: nat)
    requires Debouncing(w, due) && (Run(w, events).now < due || Sample !in events)
    ensures Debouncing(Run(w, events), due) && ShortPresses(Run(w, events).log) == ShortPresses(w.log)
    decreases |events|
  {
    hide Debouncing, ShortPresses, Step;
    if events != [] {
      NowGrows(w, events);
      StepDebouncing(w, events[0], due);
      RunDebouncing(Step(w, events[0]), events[1..], due);
    }
  }

  /**
   The handler takes an edge of a key that is down. Over every run from there,
   until 50 ms have passed, no callback reads the pin and no short press is
   reported; from 50 ms on, and no sooner, the debounce callback does read it.
   */
  lemma DebounceFifty(w: World, events: seq<Event>)
    requires Inv(w) && w.latched && w.key.level == 0
    ensures var z := Run(Step(w, Handle), events);
      && (z.now < w.now + 50 ==>
          && z.key.level == 0 && z.key.callback == Resting
          && ShortPresses(z.log) == ShortPresses(w.log)
          && Step(z, Sample) == z)
      && (Sample !in events ==>
          Step(z, Sample).key.callback == if z.now >= w.now + 50 then Sampled(z.input) else Resting)
  {
    var v := Step(w, Handle);
    var z := Run(v, events);
    StepReports(w, Handle);
    assert Debouncing(v, w.now + 50);
    hide Run, Inv, Read, ShortPresses;
    if z.now < w.now + 50 || Sample !in events {
      RunDebouncing(v, events, w.now + 50);
    }
  }

  lemma {:induction false} RunLong(w: World, events: seq<Event>, due: nat)
    requires Inv(w) && w.key.level == 0 && w.key.long == Armed(due)
    requires LowWhenDebounced(w, events) && (Run(w, events).now < due || FireLong !in events)
    ensures Run(w, events).key.long == Armed(due)
    decreases |events|
  {
    hide Inv;
    if events != [] {
      NowGrows(w, events);
      StepKeeps(w, events[0]);
      StepLong(w, events[0], due);
      RunLong(Step(w, events[0]), events[1..], due);
    }
  }

  lemma StepLong(w: World, e: Event, due: nat)
    requires Inv(w) && w.key.level == 0 && w.key.long == Armed(due)
    requires (e.Rearm? && w.key.callback.Sampled? ==> w.key.callback.pin == 0) && (e.FireLong? ==> w.now < due)
    ensures Step(w, e).key.level == 0 && Step(w, e).key.long == Armed(due)
  {
  }

  /**
   The handler takes a fall. Over every run from there in which the press is not
   yet reported short, the 5 s timer has no effect until 5 s have passed; if it has
   not fired, it then reports a long press exactly when the pin is low.
   */
  lemma LongFive(w: World, events: seq<Event>)
    requires Inv(w) && w.latched && w.key.level == 1 && LowWhenDebounced(Step(w, Handle), events)
    ensures var z := Run(Step(w, Handle), events);
      && (z.now < w.now + 5000 ==> Step(z, FireLong) == z)
      && (FireLong !in events && z.now >= w.now + 5000 ==>
          && Step(z, FireLong).log == (if z.input == 0 then z.log + [LongPress(z.now)] else z.log)
          && Step(z, FireLong).key.long == Off)
  {
    var v := Step(w, Handle);
    var z := Run(v, events);
    StepKeeps(w, Handle);
    assert w.key == InitialKey;
    hide Run, Inv, Read, LowWhenDebounced;
    if z.now < w.now + 5000 || FireLong !in events {
      RunLong(v, events, w.now + 5000);
    }
  }

  // ----- any number of keys on the shared GPIO registers

  const PIN_COUNT: nat := 16

  /** The GPIO block: one interrupt mode, one latched status bit and one input level per pin. */
  class Gpio {
    const mode: array<Mode>
    const status: array<bool>
    const input: array<Bit>

    constructor ()
      ensures mode.Length == status.Length == input.Length == PIN_COUNT
      ensures fresh(mode) && fresh(status) && fresh(input)
    {
      mode := new Mode[PIN_COUNT](_ => Disabled);
      status := new bool[PIN_COUNT](_ => false);
      input := new Bit[PIN_COUNT](_ => 1);
    }

    /** A pin changes; the edge its mode asks for latches its status bit. */
    method Change(pin: nat)
      requires mode.Length == status.Length == input.Length == PIN_COUNT && pin < PIN_COUNT
      modifies status, input
      ensures input[pin] == 1 - old(input[pin])
      ensures status[pin] == (old(status[pin])
        || (old(input[pin]) == 0 && mode[pin].PosEdge?) || (old(input[pin]) == 1 && mode[pin].NegEdge?))
      ensures forall p | 0 <= p < PIN_COUNT && p != pin :: input[p] == old(input[p]) && status[p] == old(status[p])
    {
      var rises := input[pin] == 0;
      input[pin] := 1 - input[pin];
      if (if rises then mode[pin].PosEdge? else mode[pin].NegEdge?) {
        status[pin] := true;
      }
    }
  }

  /** struct single_key_param. */
  class KeyParam {
    const id: nat
    var level: Bit
    var long: Timer
    var debounce: Timer
    var callback: Callback  // the local of a running key_50ms_cb

    constructor (id: nat)
      ensures this.id == id && level == 0 && long == Off && debounce == Off && callback == Resting
    {
      this.id := id;
      level, long, debounce, callback := 0, Off, Off, Resting;
    }
  }

  /** What may happen to the keys; pins and timers are named by the key they belong to. */
  datatype Happening =
    | Elapse(ms: nat)
    | Change(i: nat)
    | Interrupt
    | LongTimer(i: nat)
    | DebounceTimer(i: nat)
    | Rearming(i: nat)

  /** A happening as key `i` sees it. */
  function Local(h: Happening, i: nat): Event {
    match h
    case Elapse(ms) => Wait(ms)
    case Change(j) => if j == i then Flip else Wait(0)
    case Interrupt => Handle
    case LongTimer(j) => if j == i then FireLong else Wait(0)
    case DebounceTimer(j) => if j == i then Sample else Wait(0)
    case Rearming(j) => if j == i then Rearm else Wait(0)
  }

  function Seen(hs: seq<Happening>, i: nat): (events: seq<Event>)
    ensures |events| == |hs|
  {
    seq(|hs|, k requires 0 <= k < |hs| => Local(hs[k], i))
  }

  lemma SeenTail(hs: seq<Happening>, i: nat)
    requires hs != []
    ensures Seen(hs, i)[0] == Local(hs[0], i) && Seen(hs, i)[1..] == Seen(hs[1..], i)
  {
  }

  /** struct keys_param, with the pins of the keys distinct. */
  class Keys {
    const keys: seq<KeyParam>
    const gpio: Gpio
    var now: nat  // the system clock
    ghost var logs: seq<seq<Entry>>  // per key, the edges taken and the callbacks called

    ghost predicate Valid()
      reads this`logs
    {
      && gpio.mode.Length == gpio.status.Length == gpio.input.Length == PIN_COUNT
      && (forall i | 0 <= i < |keys| :: keys[i].id < PIN_COUNT)
      && (forall i, j | 0 <= i < j < |keys| :: keys[i] != keys[j] && keys[i].id != keys[j].id)
      && |logs| == |keys|
    }

    constructor (keys: seq<KeyParam>, gpio: Gpio)
      ensures this.keys == keys && this.gpio == gpio && now == 0 && logs == seq(|keys|, _ => [])
    {
      this.keys, this.gpio, now := keys, gpio, 0;
      logs := seq(|keys|, _ => []);
    }

    ghost function View(i: nat): Key
      reads this`logs, keys, gpio.mode
      requires Valid() && i < |keys|
    {
      Key(keys[i].level, gpio.mode[keys[i].id], keys[i].long, keys[i].debounce, keys[i].callback)
    }

    /** Key `i` in the world of the single-key theorems. */
    ghost function WorldOf(i: nat): World
      reads this, keys, gpio.mode, gpio.status, gpio.input
      requires Valid() && i < |keys|
    {
      World(View(i), gpio.input[keys[i].id], gpio.status[keys[i].id], now, logs[i])
    }

    ghost function Worlds(): (worlds: seq<World>)
      requires Valid()
      reads this, keys, gpio.mode, gpio.status, gpio.input
      ensures |worlds| == |keys| && forall i | 0 <= i < |keys| :: worlds[i] == WorldOf(i)
    {
      seq(|keys|, i requires Valid() && 0 <= i < |keys|
        reads this, keys, gpio.mode, gpio.status, gpio.input => WorldOf(i))
    }

    /** key_init: every key starts level high, waiting for a falling edge. */
    method Init()
      requires Valid()
      modifies keys, gpio.mode, gpio.status
      ensures forall i | 0 <= i < |keys| ::
        View(i) == InitialKey.(
          long := old(keys[i].long), debounce := old(keys[i].debounce), callback := old(keys[i].callback))
      ensures forall i | 0 <= i < |keys| :: !gpio.status[keys[i].id]
      ensures forall i | 0 <= i < |keys| ::
        old(keys[i].long.Off? && keys[i].debounce.Off? && keys[i].callback.Resting?) && logs[i] == [] ==>
          Inv(WorldOf(i))
    {
      var i := 0;
      while i < |keys|
        invariant 0 <= i <= |keys|
        invariant forall j | 0 <= j < i ::
          View(j) == InitialKey.(
            long := old(keys[j].long), debounce := old(keys[j].debounce), callback := old(keys[j].callback))
        invariant forall j | 0 <= j < i :: !gpio.status[keys[j].id]
        invariant forall j | i <= j < |keys| ::
          && keys[j].long == old(keys[j].long) && keys[j].debounce == old(keys[j].debounce)
          && keys[j].callback == old(keys[j].callback)
      {
        keys[i].level := 1;
        gpio.status[keys[i].id] := false;
        gpio.mode[keys[i].id] := NegEdge;
        i := i + 1;
      }
    }

    /** The body of key_intr_handler's loop for one key whose status bit was set. */
    method HandleOne(i: nat)
      requires Valid() && i < |keys|
      modifies keys[i], gpio.mode, gpio.status
      ensures View(i) == OnEdge(old(View(i)), now)
      ensures forall p | 0 <= p < PIN_COUNT && p != keys[i].id :: gpio.mode[p] == old(gpio.mode[p])
      ensures forall p | 0 <= p < PIN_COUNT :: gpio.status[p] == (p != keys[i].id && old(gpio.status[p]))
    {
      var k := keys[i];
      gpio.mode[k.id] := Disabled;
      gpio.status[k.id] := false;
      if k.level == 1 {
        k.long := Armed(now + LONG_PRESS_MS);
        k.level := 0;
        gpio.mode[k.id] := PosEdge;
      } else {
        k.debounce := Armed(now + DEBOUNCE_MS);
      }
    }

    /**
     key_intr_handler: exactly the keys whose status bit was set take the
     single-key step, each on its own; their bits are cleared and every other
     pin's mode and bit is left alone.
     */
    method Handle()
      requires Valid()
      modifies keys, gpio.mode, gpio.status
      ensures forall i | 0 <= i < |keys| ::
        View(i) == if old(gpio.status[keys[i].id]) then OnEdge(old(View(i)), now) else old(View(i))
      ensures forall i | 0 <= i < |keys| :: !gpio.status[keys[i].id]
      ensures forall p | 0 <= p < PIN_COUNT && (forall i | 0 <= i < |keys| :: keys[i].id != p) ::
        gpio.mode[p] == old(gpio.mode[p]) && gpio.status[p] == old(gpio.status[p])
    {
      var gpioStatus := gpio.status[..];
      var i := 0;
      while i < |keys|
        invariant 0 <= i <= |keys|
        invariant forall j | 0 <= j < i ::
          View(j) == if gpioStatus[keys[j].id] then OnEdge(old(View(j)), now) else old(View(j))
        invariant forall j | i <= j < |keys| ::
          View(j) == old(View(j)) && gpio.status[keys[j].id] == gpioStatus[keys[j].id]
        invariant forall j | 0 <= j < i :: !gpio.status[keys[j].id]
        invariant forall p | 0 <= p < PIN_COUNT && (forall j | 0 <= j < |keys| :: keys[j].id != p) ::
          gpio.mode[p] == old(gpio.mode[p]) && gpio.status[p] == gpioStatus[p]
      {
        if gpioStatus[keys[i].id] {
          HandleOne(i);
        }
        i := i + 1;
      }
    }

    /** key_50ms_cb up to its read of the pin. */
    method SamplePin(i: nat)
      requires Valid() && i < |keys|
      modifies keys[i]
      ensures View(i) == OnSample(old(View(i)), gpio.input[keys[i].id])
      ensures forall j | 0 <= j < |keys| && j != i :: View(j) == old(View(j))
    {
      var k := keys[i];
      k.debounce := Off;
      k.callback := Sampled(gpio.input[k.id]);
    }

    /** The rest of key_50ms_cb; returns whether short_press is called. */
    method RearmEdge(i: nat) returns (shortPress: bool)
      requires Valid() && i < |keys| && keys[i].callback.Sampled?
      modifies keys[i], gpio.mode
      ensures View(i) == OnRearm(old(View(i))) && (shortPress <==> old(keys[i].callback.pin) == 1)
      ensures forall j | 0 <= j < |keys| && j != i :: View(j) == old(View(j))
    {
      var k := keys[i];
      if k.callback.pin == 1 {
        k.long := Off;
        k.level := 1;
        gpio.mode[k.id] := NegEdge;
        shortPress := true;
      } else {
        gpio.mode[k.id] := PosEdge;
        shortPress := false;
      }
      k.callback := Resting;
    }

    /** key_50ms_cb with nothing in between; returns whether short_press is called. */
    method Debounced(i: nat) returns (shortPress: bool)
      requires Valid() && i < |keys|
      modifies keys[i], gpio.mode
      ensures View(i) == OnRearm(OnSample(old(View(i)), gpio.input[keys[i].id]))
      ensures shortPress <==> gpio.input[keys[i].id] == 1
      ensures forall j | 0 <= j < |keys| && j != i :: View(j) == old(View(j))
    {
      SamplePin(i);
      shortPress := RearmEdge(i);
    }

    /** key_5s_cb; returns whether long_press is called. */
    method LongElapsed(i: nat) returns (longPress: bool)
      requires Valid() && i < |keys|
      modifies keys[i]
      ensures View(i) == OnLong(old(View(i))) && (longPress <==> gpio.input[keys[i].id] == 0)
      ensures forall j | 0 <= j < |keys| && j != i :: View(j) == old(View(j))
    {
      keys[i].long := Off;
      longPress := gpio.input[keys[i].id] == 0;
    }

    /** The handler as an event: the log of every flagged key gets its fall or its rise. */
    method ServeInterrupt()
      requires Valid()
      modifies this`logs, keys, gpio.mode, gpio.status
      ensures Valid()
      ensures forall i | 0 <= i < |keys| :: WorldOf(i) == Step(old(WorldOf(i)), Event.Handle)
    {
      ghost var was := Worlds();
      Handle();
      logs := seq(|keys|, i requires 0 <= i < |keys| => Step(was[i], Event.Handle).log);
      hide OnEdge;
    }

    /** A callback's step as an event of its own key; a timer's callback runs only when the timer is due. */
    method ServeLong(i: nat)
      requires Valid() && i < |keys|
      modifies this`logs, keys
      ensures Valid()
      ensures WorldOf(i) == Step(old(WorldOf(i)), FireLong)
      ensures forall j | 0 <= j < |keys| && j != i :: WorldOf(j) == old(WorldOf(j))
    {
      if keys[i].long.Armed? && now >= keys[i].long.due {
        var longPress := LongElapsed(i);
        if longPress {
          logs := logs[i := logs[i] + [LongPress(now)]];
        }
      }
    }

    method ServeSample(i: nat)
      requires Valid() && i < |keys|
      modifies keys
      ensures WorldOf(i) == Step(old(WorldOf(i)), Sample)
      ensures forall j | 0 <= j < |keys| && j != i :: WorldOf(j) == old(WorldOf(j))
    {
      if keys[i].debounce.Armed? && now >= keys[i].debounce.due {
        SamplePin(i);
      }
    }

    method ServeRearm(i: nat)
      requires Valid() && i < |keys|
      modifies this`logs, keys, gpio.mode
      ensures Valid()
      ensures WorldOf(i) == Step(old(WorldOf(i)), Rearm)
      ensures forall j | 0 <= j < |keys| && j != i :: WorldOf(j) == old(WorldOf(j))
    {
      if keys[i].callback.Sampled? {
        var shortPress := RearmEdge(i);
        if shortPress {
          logs := logs[i := logs[i] + [ShortPress(now)]];
        }
      }
    }

    method ServeChange(i: nat)
      requires Valid() && i < |keys|
      modifies gpio.status, gpio.input
      ensures WorldOf(i) == Step(old(WorldOf(i)), Flip)
      ensures forall j | 0 <= j < |keys| && j != i :: WorldOf(j) == old(WorldOf(j))
    {
      gpio.Change(keys[i].id);
    }

    /** Whatever happens, every key makes its own single-key step. */
    method Serve(h: Happening)
      requires Valid()
      modifies this`now, this`logs, keys, gpio.mode, gpio.status, gpio.input
      ensures Valid()
      ensures forall i | 0 <= i < |keys| :: WorldOf(i) == Step(old(WorldOf(i)), Local(h, i))
    {
      match h
      case Elapse(ms) => now := now + ms;
      case Change(i) => if i < |keys| { ServeChange(i); }
      case Interrupt => ServeInterrupt();
      case LongTimer(i) => if i < |keys| { ServeLong(i); }
      case DebounceTimer(i) => if i < |keys| { ServeSample(i); }
      case Rearming(i) => if i < |keys| { ServeRearm(i); }
    }

    /**
     Over every run of pin changes, handler passes and timers, every key has run
     exactly as it would alone, and its log makes sense.
     */
    method ServeAll(hs: seq<Happening>)
      requires Valid() && forall i | 0 <= i < |keys| :: Inv(WorldOf(i))
      modifies this`now, this`logs, keys, gpio.mode, gpio.status, gpio.input
      ensures Valid()
      ensures forall i | 0 <= i < |keys| ::
        WorldOf(i) == Run(old(WorldOf(i)), Seen(hs, i)) && Inv(WorldOf(i)) && Read(logs[i]) != Nonsense
    {
      hide Step, Inv;
      ghost var first := Worlds();
      var n := 0;
      while n < |hs|
        invariant 0 <= n <= |hs| && Valid()
        invariant forall i | 0 <= i < |keys| :: Run(WorldOf(i), Seen(hs[n..], i)) == Run(first[i], Seen(hs, i))
      {
        ghost var was := Worlds();
        Serve(hs[n]);
        forall i | 0 <= i < |keys|
          ensures Run(WorldOf(i), Seen(hs[n + 1..], i)) == Run(first[i], Seen(hs, i))
        {
          SeenTail(hs[n..], i);
          assert hs[n..][1..] == hs[n + 1..];
          assert Run(was[i], Seen(hs[n..], i)) == Run(WorldOf(i), Seen(hs[n + 1..], i));
        }
        n := n + 1;
      }
      forall i | 0 <= i < |keys|
        ensures WorldOf(i) == Run(first[i], Seen(hs, i)) && Inv(WorldOf(i)) && Read(logs[i]) != Nonsense
      {
        RunKeeps(first[i], Seen(hs, i));
      }
    }
  }
}
