/** `attachHoverScramble` (script.js lines 30-80): one controller per cell,
    holding the closure variables `timer`, `running` and `startTime` and
    rewriting its cell's glyph. Each method is proved against the step of
    ScrambleModel it performs, so the lemmas proved there hold of it. */
module HoverScramble {
  import opened Wrappers
  import opened Glyphs
  import opened Segmenter
  import opened ScrambleModel

  class CellScrambler {
    const cell: Span
    const durationMs: int
    const tickMs: int
    var timer: Option<TimerId>
    var running: bool
    var startTime: int

    /** The controller's state together with the glyph its cell shows. */
    function State(): Session
      reads this, cell
    {
      Session(running, timer, startTime, cell.shown)
    }

    ghost predicate Valid()
      reads this, cell
    {
      Inv(State(), cell.original)
    }

    /** The per-span closure: no timer, not running. It is valid exactly when
        the cell shows its original glyph, as a freshly split cell does. */
    constructor (cell: Span, durationMs: int, tickMs: int)
      ensures this.cell == cell && this.durationMs == durationMs && this.tickMs == tickMs
      ensures !running && timer == None
      ensures Valid() <==> cell.shown == cell.original
    {
      this.cell := cell;
      this.durationMs := durationMs;
      this.tickMs := tickMs;
      timer := None;
      running := false;
      startTime := 0;
    }

    /** `start`, the mouseenter handler: a no-op while running; otherwise
        the cell runs from `now` with the single interval `handle`. */
    method Start(now: int, handle: TimerId)
      requires Valid()
      modifies this
      ensures Valid()
      ensures State() == StartStep(old(State()), now, handle)
      ensures old(running) ==> State() == old(State())
    {
      if running {
        return;
      }
      running := true;
      startTime := now;
      if timer.Some? {
        // `clearInterval(timer)` cannot run: an idle cell has no timer.
        assert false;
      }
      timer := Some(handle);
    }

    /** The interval callback at time `now`, drawing `pick`. Only a live
        interval fires, hence `timer.Some?`. */
    method Tick(now: int, pick: AlphabetIndex)
      requires Valid() && timer.Some?
      modifies this, cell
      ensures Valid()
      ensures State() == TickStep(old(State()), cell.original, durationMs, now, pick)
    {
      ghost var before := State();
      var original := cell.original;
      var elapsed := now - startTime;
      if elapsed < durationMs {
        var blank := Trim([original]) == "";
        SingleGlyphTrim(original);
        if blank {
          cell.shown := original;
          assert State() == before.(shown := original);
        } else {
          cell.shown := RandomChar(pick);
          assert State() == before.(shown := RandomChar(pick));
        }
      } else {
        cell.shown := original;
        timer := None;
        running := false;
        assert State() == before.(shown := original, timer := None, running := false);
      }
      assert State() == TickStep(before, original, durationMs, now, pick);

    }

    /** The mouseleave handler: its body is commented out, so it changes
        nothing and a started scramble runs to completion. */
    method Leave()
      ensures State() == old(State())
    {
    }
  }

  /** `attachHoverScramble(container, opts)`: one fresh idle controller per
      cell, in order, with the options defaulted; every controller is valid
      when the cells show their original glyphs, as right after
      SplitIntoSpans. */
  method AttachHoverScramble(container: Container, opts: Options) returns (controllers: seq<CellScrambler>)
    ensures |controllers| == |container.cells|
    ensures forall k :: 0 <= k < |controllers| ==>
      && fresh(controllers[k])
      && controllers[k].cell == container.cells[k]
      && controllers[k].durationMs == DurationOf(opts)
      && controllers[k].tickMs == TickOf(opts)
      && !controllers[k].running && controllers[k].timer == None
    ensures Shown(container.cells) == Originals(container.cells) ==>
      forall k :: 0 <= k < |controllers| ==> controllers[k].Valid()
  {
    var durationMs := opts.durationMs.GetOr(DEFAULT_FLIP_DURATION_MS);
    var tickMs := opts.tickMs.GetOr(DEFAULT_TICK_MS);
    controllers := [];
    for n := 0 to |container.cells|
      invariant |controllers| == n
      invariant forall k :: 0 <= k < n ==>
        && fresh(controllers[k])
        && controllers[k].cell == container.cells[k]
        && controllers[k].durationMs == durationMs
        && controllers[k].tickMs == tickMs
        && !controllers[k].running && controllers[k].timer == None
        && (controllers[k].Valid() <==> container.cells[k].shown == container.cells[k].original)
    {
      var c := new CellScrambler(container.cells[n], durationMs, tickMs);
      controllers := controllers + [c];
    }
  }
}
