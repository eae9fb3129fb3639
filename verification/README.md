# Letter-hover scramble, modelled in Dafny

This project models the script behind a "flip rapidly between random letters" hover
effect, `script.js`. It covers two parts:

- **Segmenter** (`splitIntoSpans`). It picks the text of the name element: its `data-text`
  attribute, else its `textContent`, else the empty string. It discards what the element
  held and gives it one `<span class="char">` per Unicode code point, in order. Each span
  records the code point both as `data-original` and as its displayed text.
- **Scramble controller** (`attachHoverScramble`). Every span gets its own closure with
  `timer`, `running` and `startTime`. `start` (mouseenter) returns at once while the cell
  is running. From idle it records the start time and installs one repeating interval.
  Each firing of the interval works out the elapsed time:
  - within `durationMs`, a non-whitespace cell shows a random symbol of the 36-symbol
    `ALPHABET`, and a whitespace cell is rewritten with its own glyph;
  - once `durationMs` has elapsed, the cell is restored, the interval is cleared and the
    cell becomes idle.

  Mouseleave does nothing. The options default to 420 and 28.

Layout:

- `wrappers.dfy`: the Option type. A nullable value is an Option, and `x ?? d` is `GetOr`.
- `glyphs.dfy`: `ALPHABET`, `randomChar`, and JavaScript's `trim` on code points.
- `segmenter.dfy`: the span and the name element as classes, and `SplitIntoSpans` as a loop.
- `scramble_model.dfy`: one cell's state machine as functions over values: `StartStep`,
  `TickStep`, event delivery, and runs of events. It also holds the lemmas about them.
- `hover_scramble.dfy`: the per-span controller as a class. Its `Start`, `Tick` and
  `Leave` methods are each proved equal to a step of the state machine. It also holds
  `AttachHoverScramble`.

The outside world becomes explicit inputs:

- `performance.now()` is a `now` argument.
- The handle that `setInterval` returns is a `handle` argument of `Start`.
- `Math.floor(Math.random() * ALPHABET.length)` is an `AlphabetIndex`, an integer
  in [0, 36).

A tick is delivered only while the cell's interval is live: the `Tick` method requires a
timer, and an event run ignores a tick when there is none.

Where the code and a reader's expectation part, the model follows the code:

- **Re-entering a running cell does not restart its window** (line 39). The cell settles
  `durationMs` after the *first* trigger. `RetriggerKeepsFirstWindow` shows it: entered at
  0 and again at 100, the cell is restored by the tick at 420, not at 520. Re-entry
  neither cancels the running interval nor restarts the window.
- **The `clearInterval` in `start` (line 46) never runs.** An idle cell never holds a
  timer (`StartFromIdleHasNoTimer`).
- **Only whitespace is kept stable.** The comment at line 53 mentions punctuation, but the
  test at line 54 is `trim() === ""`. Punctuation scrambles (`PunctuationScrambles`).
- **There is no cancel operation.** The restore-on-leave code (lines 74-77) is commented
  out, so mouseleave changes nothing.

## Model

| member | source | states |
|---|---|---|
| `Glyphs.RandomChar` | script.js:13-15 | Every draw `randomChar` can make is an upper-case letter or a digit. |
| `Glyphs.AlphabetAt` | script.js:9 | `ALPHABET` has 36 symbols: index k holds the k-th letter for k < 26, and the (k-26)-th digit after that. |
| `Glyphs.AlphabetIsLettersAndDigits` | script.js:9 | Every symbol of `ALPHABET` is a letter A-Z or a digit 0-9. Every such letter or digit occurs in it, at index `SymbolIndex`. |
| `Glyphs.RandomCharIsInjective` | script.js:13-15 | Two draws give the same symbol only when the indices are equal. So a uniform index gives a uniform symbol. |
| `Glyphs.TrimStart` | script.js:54 | The result of removing leading whitespace does not start with a whitespace code point. |
| `Glyphs.TrimEnd` | script.js:54 | The result of removing trailing whitespace does not end with a whitespace code point. |
| `Glyphs.TrimStartRemovesWhitespacePrefix` | script.js:54 | `TrimStart(s)` is a suffix of `s`, and every code point it removed is whitespace. |
| `Glyphs.TrimEndRemovesWhitespaceSuffix` | script.js:54 | `TrimEnd(s)` is a prefix of `s`, and every code point it removed is whitespace. |
| `Glyphs.TrimIsEmptyIff` | script.js:54 | `s.trim() === ""` holds exactly when every code point of `s` is JavaScript whitespace or a line terminator (both directions). |
| `Glyphs.SingleGlyphTrim` | script.js:54 | For a one-code-point glyph, `trim() === ""` holds exactly when that code point is whitespace. |
| `Segmenter.SourceText` | script.js:18 | The text is `data-text` whenever present, even when empty. Otherwise it is `textContent` when non-null, and otherwise `""`. |
| `Segmenter.Container.TextContent` | script.js:18-19 | The element's text is its other content followed by the glyphs its cells show. With no cells it is that content alone, null included. |
| `Segmenter.Span.constructor` | script.js:22-25 | A new span's original glyph and shown glyph are both the code point it was made from. |
| `Segmenter.SplitIntoSpans` | script.js:17-28 | After the call, the element's cells are fresh, pairwise distinct spans, one per code point of the chosen text, in order. Each shows its original glyph. Prior content is discarded, the element reads back exactly the chosen text, and an empty text gives zero cells. |
| `ScrambleModel.OptionDefaults` | script.js:31-32 | An absent `durationMs` or `tickMs` becomes 420 or 28. A given value, even 0, is kept. `{}` gives 420 and 28. |
| `ScrambleModel.StartStep` | script.js:38-48 | `start` on a running cell changes nothing. From idle it sets `running`, records `startTime = now` and installs exactly the new timer, leaving the glyph alone. |
| `ScrambleModel.TickStep` | script.js:48-66 | A tick keeps the start time. Before the deadline it keeps `running` and the timer. A whitespace cell keeps its glyph, and any other cell shows a letter or digit. At or after the deadline it restores the original glyph, clears the timer and stops. |
| `ScrambleModel.IdleIsValid` | script.js:35-36 | A freshly attached cell (idle, no timer, original glyph) satisfies the cell invariant. |
| `ScrambleModel.StartFromIdleHasNoTimer` | script.js:45-46 | When `start` gets past its guard, no timer exists, so the `clearInterval` of line 46 is dead. |
| `ScrambleModel.DeliverKeepsInv` | script.js:38-78 | mouseenter, mouseleave and a tick each keep the invariant. A timer exists exactly while the cell runs, so there is at most one. An idle cell shows its original glyph. A whitespace cell shows nothing else. The glyph shown is the original or a letter or digit. |
| `ScrambleModel.RunKeepsInv` | script.js:34-79 | Any sequence of events keeps that invariant. |
| `ScrambleModel.BlankCellNeverChanges` | script.js:53-55 | A whitespace cell shows its own glyph after any sequence of events. |
| `ScrambleModel.PunctuationScrambles` | script.js:53-58 | For every draw, a '.' cell within its window shows the drawn symbol, which is never '.'. So punctuation is not kept stable. |
| `ScrambleModel.RunningUntilDeadline` | script.js:39-58 | While no tick reaches `startTime + durationMs`, a running cell stays running with the same start time and the same timer, whatever mouseenter or mouseleave events arrive. |
| `ScrambleModel.SessionEndsAtFirstLateTick` | script.js:59-65 | The first tick at or after `startTime + durationMs` leaves the cell idle, with no timer and its original glyph. |
| `ScrambleModel.IdleStaysIdle` | script.js:73-78 | Without a mouseenter, an idle cell is unchanged by any mix of mouseleave events and ticks. |
| `ScrambleModel.TriggeredOnceSettles` | script.js:38-78 | A cell triggered once at t is idle, with no timer and its original glyph, from its first tick at or after t + `durationMs`. It stays that way until the next mouseenter. |
| `ScrambleModel.Train` | script.js:66 | A train has one event per draw, and every event is a tick. |
| `ScrambleModel.TrainTimes` | script.js:66 | The firings of an interval of period `tickMs` started at t: the k-th firing (from 1) is a tick at t + k·`tickMs`, drawing the k-th pick. |
| `ScrambleModel.TrainRunsIff` | script.js:48-66 | After n ≥ 1 regular ticks, a session is still running exactly when n·`tickMs` < `durationMs` (both directions). Once stopped, it shows its original glyph. |
| `ScrambleModel.TrainKeepsStartTime` | script.js:43-49 | No train of ticks, running or not, changes the start time that `start` recorded. |
| `ScrambleModel.DefaultTimingSettlesOnFifteenthTick` | script.js:10-11 | With 420 and 28, a cell is still scrambling after 14 ticks and is restored by the 15th, at exactly 420 ms: elapsed = duration already restores. |
| `ScrambleModel.RetriggerKeepsFirstWindow` | script.js:39 | Cell 'A' entered at 0 and again at 100 is still running at 392, with start time 0 and timer 1. After the tick at 420 it is idle, with no timer, and shows 'A'. |
| `ScrambleModel.SpaceCellStaysBlank` | script.js:54-55 | The space cell entered at 0 shows ' ' after every tick of a 28 ms train, before and after 420. |
| `HoverScramble.CellScrambler.constructor` | script.js:35-36 | A new controller is idle with no timer, and valid exactly when its cell shows its original glyph. |
| `HoverScramble.CellScrambler.Start` | script.js:38-48 | The new state is `StartStep` of the old one. A call while running changes nothing, and the invariant is kept. |
| `HoverScramble.CellScrambler.Tick` | script.js:48-66 | The new state, glyph included, is `TickStep` of the old one, using the literal `trim() === ""` test. The invariant is kept. |
| `HoverScramble.CellScrambler.Leave` | script.js:73-78 | mouseleave leaves the state and the glyph unchanged. |
| `HoverScramble.AttachHoverScramble` | script.js:30-36 | There is one fresh controller per cell, in order, with the defaulted options, idle and without a timer. Each is valid when the cells show their originals, as right after `SplitIntoSpans`. |

## Left out

- The DOM is not modelled. `document.createElement`, `className`, `appendChild`,
  `querySelectorAll(".char")` and `addEventListener` become the `cells` sequence of a
  container and method calls on a controller. The `.char` spans are taken to be exactly
  the container's cells.
- Real timers and event-loop scheduling are not modelled. `setInterval` and
  `clearInterval` become a timer handle field, and time is an explicit integer `now`.
  `performance.now()` returns fractional milliseconds; the model uses integers. Beyond
  `Train` (regular firings), neither the timing of firings nor the interleaving of
  different cells is modelled.
- The floating-point `Math.floor(Math.random() * 36)` is not modelled. It is replaced by
  a caller-chosen index in [0, 36).
- The boot block (lines 82-90), a lookup by id and a call with literal options, is not
  modelled. Neither is the commented-out eager restore in the mouseleave handler
  (lines 74-77).
- The fallback `span.dataset.original ?? span.textContent` (line 42) is not modelled.
  Every cell made by `SplitIntoSpans` carries its original glyph, so the fallback never
  applies.
- Strings are sequences of Unicode scalar values, so a lone UTF-16 surrogate in the name
  cannot be represented. The whitespace set of `trim` is written out from ECMAScript's
  WhiteSpace and LineTerminator definitions, with category Zs as listed in
  `Glyphs.IsTrimmable`.
- `durationMs` and `tickMs` are integers. JavaScript numbers such as NaN, fractions or
  non-numeric option values are not modelled.
- An idle cell's start time is not modelled faithfully. `ScrambleModel.Idle` gives an
  unstarted cell a start time of 0, and a finished session keeps its old start time. The
  script has no start time outside a session. The lemmas about idle cells therefore state
  only `running`, the timer and the glyph, except `IdleStaysIdle`, which says events
  leave the whole state unchanged.
