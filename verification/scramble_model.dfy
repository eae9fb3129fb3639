/** The per-cell scramble state machine of `attachHoverScramble`
    (script.js lines 30-80), as functions over values: the closure variables
    `running`, `timer` and `startTime` together with the glyph the cell
    displays. The clock (`performance.now()`) is the `now` of each event, the
    interval handle returned by `setInterval` is the `handle` of an Enter
    event, and `Math.random` is the AlphabetIndex of a Tick event. */
module ScrambleModel {
  import opened Wrappers
  import opened Glyphs

  const DEFAULT_FLIP_DURATION_MS: int := 420
  const DEFAULT_TICK_MS: int := 28

  /** The options object `{ durationMs, tickMs }`; an absent key is None. */
  datatype Options = Options(durationMs: Option<int>, tickMs: Option<int>)

  /** `opts = {}`: both keys absent. */
  const NO_OPTIONS: Options := Options(None, None)

  /** `opts.durationMs ?? DEFAULT_FLIP_DURATION_MS` */
  function DurationOf(opts: Options): int {
    opts.durationMs.GetOr(DEFAULT_FLIP_DURATION_MS)
  }

  /** `opts.tickMs ?? DEFAULT_TICK_MS` */
  function TickOf(opts: Options): int {
    opts.tickMs.GetOr(DEFAULT_TICK_MS)
  }

  /** An absent option takes its default; a given one, even 0, is kept. */
  lemma OptionDefaults(opts: Options)
    ensures DurationOf(NO_OPTIONS) == 420 && TickOf(NO_OPTIONS) == 28
    ensures opts.durationMs == None ==> DurationOf(opts) == 420
    ensures opts.tickMs == None ==> TickOf(opts) == 28
    ensures opts.durationMs.Some? ==> DurationOf(opts) == opts.durationMs.value
    ensures opts.tickMs.Some? ==> TickOf(opts) == opts.tickMs.value
  {
  }

  /** The handle `setInterval` returns. */
  type TimerId = nat

  /** One cell's state: the closure's `running`, `timer` and `startTime`,
      and `shown`, the cell's `textContent`. */
  datatype Session = Session(running: bool, timer: Option<TimerId>, startTime: int, shown: char)

  /** A freshly attached cell: idle, no timer, showing its original glyph. */
  function Idle(original: char): Session {
    Session(false, None, 0, original)
  }

  /** The inputs a cell receives: the pointer entering (mouseenter) at time
      `now`, with the handle a new interval would get; the pointer leaving
      (mouseleave); and a firing of the cell's interval at time `now`, with
      the random draw it makes. */
  datatype Event =
    | Enter(now: int, handle: TimerId)
    | Leave
    | Tick(now: int, pick: AlphabetIndex)

  /** What a cell's state always satisfies: a timer exists exactly while the
      cell runs (so there is never more than one), an idle cell shows its
      original glyph, a whitespace cell never shows anything else, and the
      glyph shown is either the original or a scramble symbol (A-Z, 0-9,
      which AlphabetIsLettersAndDigits shows are the members of ALPHABET). */
  predicate Inv(s: Session, original: char) {
    && (s.running <==> s.timer.Some?)
    && (!s.running ==> s.shown == original)
    && (IsTrimmable(original) ==> s.shown == original)
    && (s.shown == original || IsScrambleSymbol(s.shown))
  }

  /** `start` (the mouseenter handler). While running it returns at once;
      otherwise it marks the cell running, records the start time and
      installs a new interval. The `clearInterval` of the old timer only runs
      when a timer exists, which StartFromIdleHasNoTimer shows cannot happen. */
  function StartStep(s: Session, now: int, handle: TimerId): (r: Session)
    ensures s.running ==> r == s
    ensures !s.running ==> r.running && r.startTime == now && r.timer == Some(handle) && r.shown == s.shown
  {
    if s.running then s
    else
      var cleared := if s.timer.Some? then s.(timer := None) else s;
      cleared.(running := true, startTime := now, timer := Some(handle))
  }

  /** One firing of the interval. Within the window a non-whitespace cell
      shows a random symbol and a whitespace cell is rewritten with its own
      glyph (on a one-code-point string the test `original.trim() === ""`
      is IsTrimmable, by SingleGlyphTrim); once `now - startTime` reaches
      `durationMs` the cell is restored, its interval cleared and it becomes
      idle. */
  function TickStep(s: Session, original: char, durationMs: int, now: int, pick: AlphabetIndex): (r: Session)
    ensures r.startTime == s.startTime
    ensures now - s.startTime < durationMs ==> r.running == s.running && r.timer == s.timer
    ensures now - s.startTime >= durationMs ==> !r.running && r.timer == None && r.shown == original
    ensures IsTrimmable(original) ==> r.shown == original
    ensures !IsTrimmable(original) && now - s.startTime < durationMs ==> IsScrambleSymbol(r.shown)
  {
    var elapsed := now - s.startTime;
    if elapsed < durationMs then
      if IsTrimmable(original) then s.(shown := original)
      else s.(shown := RandomChar(pick))
    else
      s.(shown := original, timer := None, running := false)
  }

  /** An event delivered to a cell. A mouseleave does nothing; a tick comes
      only from a live interval, so once the interval is cleared no tick
      reaches the cell. */
  function Deliver(s: Session, original: char, durationMs: int, e: Event): Session {
    match e
    case Enter(now, handle) => StartStep(s, now, handle)
    case Leave => s
    case Tick(now, pick) => if s.timer.Some? then TickStep(s, original, durationMs, now, pick) else s
  }

  /** The state after a sequence of events, delivered in order. */
  function Run(s: Session, original: char, durationMs: int, evs: seq<Event>): Session
    decreases |evs|
  {
    if evs == [] then s
    else Deliver(Run(s, original, durationMs, evs[..|evs| - 1]), original, durationMs, evs[|evs| - 1])
  }

  lemma RunAppend(s: Session, original: char, durationMs: int, evs: seq<Event>, e: Event)
    ensures Run(s, original, durationMs, evs + [e]) == Deliver(Run(s, original, durationMs, evs), original, durationMs, e)
  {
    assert (evs + [e])[..|evs|] == evs;
  }

  // ---------------------------------------------------------------------------
  // The invariant

  /** A freshly attached cell satisfies the invariant. */
  lemma IdleIsValid(original: char)
    ensures Inv(Idle(original), original)
  {
  }

  /** The `clearInterval` in `start` is dead code: an idle cell has no timer. */
  lemma StartFromIdleHasNoTimer(s: Session, original: char)
    requires Inv(s, original) && !s.running
    ensures s.timer == None
  {
  }

  /** Every event keeps the invariant. */
  lemma DeliverKeepsInv(s: Session, original: char, durationMs: int, e: Event)
    requires Inv(s, original)
    ensures Inv(Deliver(s, original, durationMs, e), original)
  {
  }

  /** Every sequence of events keeps the invariant. */
  lemma {:induction false} RunKeepsInv(s: Session, original: char, durationMs: int, evs: seq<Event>)
    requires Inv(s, original)
    ensures Inv(Run(s, original, durationMs, evs), original)
    decreases |evs|
  {
    if evs != [] {
      RunKeepsInv(s, original, durationMs, evs[..|evs| - 1]);
      DeliverKeepsInv(Run(s, original, durationMs, evs[..|evs| - 1]), original, durationMs, evs[|evs| - 1]);
    }
  }

  /** A whitespace cell shows its own glyph whatever it is sent. */
  lemma {:induction false} BlankCellNeverChanges(original: char, durationMs: int, evs: seq<Event>)
    requires IsTrimmable(original)
    ensures Run(Idle(original), original, durationMs, evs).shown == original
  {
    SingleGlyphTrim(original);
    RunKeepsInv(Idle(original), original, durationMs, evs);
  }

  /** Punctuation is not kept stable: a '.' cell within its window shows the
      drawn symbol, which is never '.', whatever the draw. */
  lemma PunctuationScrambles(s: Session, durationMs: int, now: int, pick: AlphabetIndex)
    requires now - s.startTime < durationMs
    ensures TickStep(s, '.', durationMs, now, pick).shown == RandomChar(pick) != '.'
  {
  }

  // ---------------------------------------------------------------------------
  // Sessions run to completion

  /** Ticks that all come before the end of the window. */
  predicate AllTicksBefore(evs: seq<Event>, deadline: int) {
    forall k :: 0 <= k < |evs| && evs[k].Tick? ==> evs[k].now < deadline
  }

  /** While no tick reaches the end of the window a running cell keeps
      running, with the same start time and the same single timer: pointer
      events (a second mouseenter included) change neither. */
  lemma {:induction false} RunningUntilDeadline(s: Session, original: char, durationMs: int, evs: seq<Event>)
    requires Inv(s, original) && s.running
    requires AllTicksBefore(evs, s.startTime + durationMs)
    ensures var r := Run(s, original, durationMs, evs);
      r.running && r.startTime == s.startTime && r.timer == s.timer
    decreases |evs|
  {
    if evs != [] {
      var init := evs[..|evs| - 1];
      assert forall k :: 0 <= k < |init| ==> init[k] == evs[k];
      RunningUntilDeadline(s, original, durationMs, init);
    }
  }

  /** A session ends at the first tick at or after `startTime + durationMs`:
      the cell is idle again and shows its original glyph, however many
      mouseenter and mouseleave events came in between. */
  lemma SessionEndsAtFirstLateTick(s: Session, original: char, durationMs: int, early: seq<Event>, now: int, pick: AlphabetIndex)
    requires Inv(s, original) && s.running
    requires AllTicksBefore(early, s.startTime + durationMs)
    requires now >= s.startTime + durationMs
    ensures var r := Run(s, original, durationMs, early + [Tick(now, pick)]);
      !r.running && r.timer == None && r.shown == original
  {
    RunningUntilDeadline(s, original, durationMs, early);
    RunAppend(s, original, durationMs, early, Tick(now, pick));
  }

  /** Without a mouseenter an idle cell stays idle and unchanged. */
  lemma {:induction false} IdleStaysIdle(s: Session, original: char, durationMs: int, evs: seq<Event>)
    requires Inv(s, original) && !s.running
    requires forall k :: 0 <= k < |evs| ==> !evs[k].Enter?
    ensures Run(s, original, durationMs, evs) == s
    decreases |evs|
  {
    if evs != [] {
      var init := evs[..|evs| - 1];
      assert forall k :: 0 <= k < |init| ==> init[k] == evs[k];
      IdleStaysIdle(s, original, durationMs, init);
    }
  }

  /** A cell triggered once at `t` shows its original glyph and is idle from
      the first tick at or after `t + durationMs` on, whatever comes later
      except a new mouseenter. */
  lemma TriggeredOnceSettles(original: char, durationMs: int, t: int, handle: TimerId,
                             early: seq<Event>, now: int, pick: AlphabetIndex, later: seq<Event>)
    requires AllTicksBefore(early, t + durationMs)
    requires now >= t + durationMs
    requires forall k :: 0 <= k < |later| ==> !later[k].Enter?
    ensures var s := StartStep(Idle(original), t, handle);
      var r := Run(Run(s, original, durationMs, early + [Tick(now, pick)]), original, durationMs, later);
      !r.running && r.timer == None && r.shown == original
  {
    var s := StartStep(Idle(original), t, handle);
    SessionEndsAtFirstLateTick(s, original, durationMs, early, now, pick);
    var done := Run(s, original, durationMs, early + [Tick(now, pick)]);
    RunKeepsInv(s, original, durationMs, early + [Tick(now, pick)]);
    RunningUntilDeadline(s, original, durationMs, early);
    RunAppend(s, original, durationMs, early, Tick(now, pick));
    IdleStaysIdle(done, original, durationMs, later);
  }

  // ---------------------------------------------------------------------------
  // A regular train of ticks

  /** The firings of an interval of period `tickMs` installed at time `t`:
      the k-th (from 1) fires at `t + k * tickMs` and draws `picks[k - 1]`. */
  function Train(t: int, tickMs: int, picks: seq<AlphabetIndex>): (evs: seq<Event>)
    ensures |evs| == |picks|
    ensures forall k :: 0 <= k < |evs| ==> evs[k].Tick?
    decreases |picks|
  {
    if picks == [] then []
    else Train(t, tickMs, picks[..|picks| - 1]) + [Tick(t + |picks| * tickMs, picks[|picks| - 1])]
  }

  /** The k-th event of a train (from 0) is the tick at `t + (k + 1) * tickMs`
      drawing `picks[k]`. */
  lemma {:induction false} TrainTimes(t: int, tickMs: int, picks: seq<AlphabetIndex>)
    ensures forall k :: 0 <= k < |picks| ==> Train(t, tickMs, picks)[k] == Tick(t + (k + 1) * tickMs, picks[k])
    decreases |picks|
  {
    if picks != [] {
      var init := picks[..|picks| - 1];
      TrainTimes(t, tickMs, init);
      assert forall k :: 0 <= k < |init| ==> init[k] == picks[k];
    }
  }

  /** After n >= 1 regular ticks a session started at `t` is still running
      exactly when `n * tickMs < durationMs`; once it stops it shows its
      original glyph. */
  lemma {:induction false} TrainRunsIff(s: Session, original: char, durationMs: int, tickMs: int, picks: seq<AlphabetIndex>)
    requires Inv(s, original) && s.running && tickMs > 0 && |picks| >= 1
    ensures var r := Run(s, original, durationMs, Train(s.startTime, tickMs, picks));
      (r.running <==> |picks| * tickMs < durationMs) && (!r.running ==> r.shown == original)
    decreases |picks|
  {
    var n := |picks|;
    var init := picks[..n - 1];
    var last := Tick(s.startTime + n * tickMs, picks[n - 1]);
    var evs := Train(s.startTime, tickMs, init);
    assert Train(s.startTime, tickMs, picks) == evs + [last];
    RunAppend(s, original, durationMs, evs, last);
    var q := Run(s, original, durationMs, evs);
    var r := Deliver(q, original, durationMs, last);
    assert Run(s, original, durationMs, Train(s.startTime, tickMs, picks)) == r;
    RunKeepsInv(s, original, durationMs, evs);
    if n == 1 {
      assert evs == [] && q == s;
      assert |picks| * tickMs == tickMs;
      assert r == TickStep(s, original, durationMs, s.startTime + tickMs, picks[0]);
    } else {
      TrainRunsIff(s, original, durationMs, tickMs, init);
      assert n * tickMs == (n - 1) * tickMs + tickMs;
      if q.running {
        TrainKeepsStartTime(s, original, durationMs, tickMs, init);
        assert r == TickStep(q, original, durationMs, s.startTime + n * tickMs, picks[n - 1]);
      } else {
        assert q.timer == None && q.shown == original;
        assert (n - 1) * tickMs >= durationMs;
        assert r == q;
      }
    }
  }

  /** A train of ticks never changes the start time `start` recorded. */
  lemma {:induction false} TrainKeepsStartTime(s: Session, original: char, durationMs: int, tickMs: int, picks: seq<AlphabetIndex>)
    ensures Run(s, original, durationMs, Train(s.startTime, tickMs, picks)).startTime == s.startTime
    decreases |picks|
  {
    if picks != [] {
      var n := |picks|;
      var init := picks[..n - 1];
      var evs := Train(s.startTime, tickMs, init);
      var last := Tick(s.startTime + n * tickMs, picks[n - 1]);
      assert Train(s.startTime, tickMs, picks) == evs + [last];
      RunAppend(s, original, durationMs, evs, last);
      TrainKeepsStartTime(s, original, durationMs, tickMs, init);
      var q := Run(s, original, durationMs, evs);
      assert Deliver(q, original, durationMs, last).startTime == q.startTime;
    }
  }

  /** With the default timing (420 and 28) a session triggered at `t` is
      still scrambling after 14 ticks and is restored by the 15th, at
      `t + 420`: the tick where the elapsed time equals the duration already
      restores. */
  lemma DefaultTimingSettlesOnFifteenthTick(original: char, t: int, handle: TimerId, picks: seq<AlphabetIndex>)
    requires |picks| == 15
    ensures var s := StartStep(Idle(original), t, handle);
      && Run(s, original, 420, Train(t, 28, picks[..14])).running
      && var r := Run(s, original, 420, Train(t, 28, picks));
         !r.running && r.shown == original
  {
    var s := StartStep(Idle(original), t, handle);
    TrainRunsIff(s, original, 420, 28, picks[..14]);
    TrainRunsIff(s, original, 420, 28, picks);
  }

  // ---------------------------------------------------------------------------
  // The hover scenario of the name "AB C"

  /** Cell 'A' entered at 0 and again at 100: the second mouseenter is
      ignored, so the cell is restored by the tick at 420 (the first
      trigger's window), not at 520, and it never has a second timer. */
  lemma RetriggerKeepsFirstWindow(p: AlphabetIndex, q: AlphabetIndex)
    ensures var evs := [Enter(0, 1), Tick(28, p), Enter(100, 2), Tick(392, q)];
      var mid := Run(Idle('A'), 'A', 420, evs);
      && mid.running && mid.startTime == 0 && mid.timer == Some(1)
      && var r := Run(Idle('A'), 'A', 420, evs + [Tick(420, q)]);
         !r.running && r.timer == None && r.shown == 'A'
  {
    var s := StartStep(Idle('A'), 0, 1);
    var rest := [Tick(28, p), Enter(100, 2), Tick(392, q)];
    var evs := [Enter(0, 1), Tick(28, p), Enter(100, 2), Tick(392, q)];
    var late := Tick(420, q);
    assert evs == [Enter(0, 1)] + rest;
    assert evs + [late] == [Enter(0, 1)] + (rest + [late]);
    assert Run(Idle('A'), 'A', 420, [Enter(0, 1)]) == s by {
      assert [Enter(0, 1)][..0] == [];
    }
    RunPrefix(Idle('A'), 'A', 420, [Enter(0, 1)], rest);
    RunPrefix(Idle('A'), 'A', 420, [Enter(0, 1)], rest + [late]);
    assert AllTicksBefore(rest, 420);
    RunningUntilDeadline(s, 'A', 420, rest);
    RunAppend(s, 'A', 420, rest, late);
    SessionEndsAtFirstLateTick(s, 'A', 420, rest, 420, q);
  }

  /** Running two sequences one after the other is running their
      concatenation. */
  lemma {:induction false} RunPrefix(s: Session, original: char, durationMs: int, a: seq<Event>, b: seq<Event>)
    ensures Run(s, original, durationMs, a + b) == Run(Run(s, original, durationMs, a), original, durationMs, b)
    decreases |b|
  {
    if b == [] {
      assert a + b == a;
    } else {
      var init := b[..|b| - 1];
      assert (a + b)[..|a + b| - 1] == a + init;
      RunPrefix(s, original, durationMs, a, init);
    }
  }

  /** The space cell entered at 0 shows ' ' at every tick, before and after
      the window closes. */
  lemma SpaceCellStaysBlank(picks: seq<AlphabetIndex>)
    ensures forall n :: 0 <= n <= |picks| ==>
      Run(Idle(' '), ' ', 420, [Enter(0, 1)] + Train(0, 28, picks[..n])).shown == ' '
  {
    forall n | 0 <= n <= |picks|
      ensures Run(Idle(' '), ' ', 420, [Enter(0, 1)] + Train(0, 28, picks[..n])).shown == ' '
    {
      BlankCellNeverChanges(' ', 420, [Enter(0, 1)] + Train(0, 28, picks[..n]));
    }
  }
}
