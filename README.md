# GEoSINT text scrambler and image-analysis endpoint, in Dafny

This project models two small pieces of the GEoSINT application and proves properties of them.

**The character-scramble component of the front end (`TextAnimator`).** At mount, the component splits its text into characters. It records each character's markup and computed colour. A run (`animate`) has three steps:
- it is refused before the split and while another run is in progress;
- otherwise it sets the running flag and puts every character back to what was recorded at mount;
- it then schedules, per character, a staggered series of four random frames followed by a delayed restore.

Only the completion of the last character clears the flag and fires the completion callback. Runs are started by mouse-enter in hover mode, by click in click mode, and by a single timeout in auto mode.

The component is the class `TextAnimator.Animator`:
- Per-character state lives in arrays: current markup, current colour, and the timeline work pending for the character.
- The animation library's timers become methods the caller invokes when their time has come: `Frame`, `Complete` and `Restore`.
- The separate function `EventTime` says when that time is, in integer milliseconds.
- Random draws are index arguments.

The class invariant `Valid()` says four things:
- every character shows its original or an alphabet symbol, in its original colour or a palette colour;
- with nothing pending, a character shows its original;
- with at least one character, the running flag is set exactly while the last character's tween is pending;
- every accepted run has fired its callback exactly once, or is the run in progress.

**The image-analysis endpoint of the back end (`analyze_image`).** The endpoint works in four steps:
- It answers 400 when no image is attached.
- Otherwise it asks the model about the image.
- It cleans the reply: `strip()`, then every "```json" removed, then every "```" removed.
- It answers with one of three things:
  - the parsed JSON;
  - a fixed fallback record that carries the raw reply, when parsing fails;
  - a 500 error whose message is prefixed "Error en el análisis: ", when reading the image or asking the model raised, or when the parser raised anything other than a JSON decode error.

The endpoint is the pure function `BackendApp.AnalyzeImage`:
- The model call and the JSON parser are function parameters (oracles). The parser returns a value, a decode error, or the message of another exception it raised.
- Python's `str.strip` and `str.replace(pat, "")` are written out as recursive functions.
- `strip()` uses the whitespace set of `str.isspace`.

Files:
- `wrappers.dfy`: `Option`.
- `text_animator.dfy`: module `TextAnimator`.
- `backend_app.dfy`: module `BackendApp`.

## Model

| member | source | states |
|---|---|---|
| TextAnimator.AlphabetHas53Symbols | frontend/src/components/TextAnimator.tsx:14-17 | the scramble alphabet has 53 symbols |
| TextAnimator.StartDelay | frontend/src/components/TextAnimator.tsx:103 | a character's start delay, (position + 1) * 80 ms, is at least one stagger unit and so positive |
| TextAnimator.StartDelayIncreasing | frontend/src/components/TextAnimator.tsx:103 | the first character starts after 80 ms and a later position always starts strictly later |
| TextAnimator.ThreeCharacterDelays | frontend/src/components/TextAnimator.tsx:103 | three characters start at 80, 160 and 240 ms |
| TextAnimator.FramesOfOneCharacter | frontend/src/components/TextAnimator.tsx:87-103 | a character plays repeat + 1 = 4 frames of 30 ms each, 100 ms apart, starting at its start delay; the last frame ends at its completion, and its restore follows 30 ms later |
| TextAnimator.EventTime | frontend/src/components/TextAnimator.tsx:87-103 | every event of a character happens no earlier than its start delay and, for its four frames, its completion and its restore, no later than its start delay plus one unit span (450 ms); the restore, and only the restore, comes at the end of that span |
| TextAnimator.TimeoutMs | frontend/src/components/TextAnimator.tsx:57-59 | the wait setTimeout makes is below 2^31 ms; a delay in 0 .. 2^31 - 1 is waited as given and a negative one down to -2^31 counts as 0 |
| TextAnimator.TimeoutWraps | frontend/src/components/TextAnimator.tsx:57-59 | the wait depends only on the delay modulo 2^32: a delay of 2^31 ms fires at once and one of 2^32 + 5 ms after 5 ms |
| TextAnimator.NothingBeforeFirstStagger | frontend/src/components/TextAnimator.tsx:87-103 | no frame, completion or restore of a run happens before 80 ms |
| TextAnimator.RunEndsAtLastCompletion | frontend/src/components/TextAnimator.tsx:89-103 | in a run over n > 0 characters, an event happens before the last character's completion if and only if it is neither that completion nor the last character's restore, and that restore comes after the completion |
| TextAnimator.Materialize | frontend/src/components/TextAnimator.tsx:44-46 | the split yields fresh per-character arrays of markup, colour and pending work, index-aligned with the characters, with nothing pending |
| TextAnimator.Animator.constructor | frontend/src/components/TextAnimator.tsx:21-33 | before its effects run the component is valid, not split, not animating, with no timer; the trigger is the `trigger` prop when given and hover otherwise, the delay is the `delay` prop when given and 0 otherwise, and the palette is the `colors` prop when given (even an empty one) and the five default colours otherwise |
| TextAnimator.Animator.Split | frontend/src/components/TextAnimator.tsx:35-47 | the mount effect leaves a valid, split component whose originals have one entry per character (same markup, same colour, same index), whose characters show those originals, and with nothing pending |
| TextAnimator.Animator.Animate | frontend/src/components/TextAnimator.tsx:64-113 | refused, changing nothing, if and only if not split or already animating; when accepted it sets the flag, counts one more run, shows every character's original markup and colour, and schedules every character's scramble with those originals as restore target; the completion count is unchanged and the invariant is kept |
| TextAnimator.Animator.Frame | frontend/src/components/TextAnimator.tsx:104-109 | one frame sets that character to the drawn alphabet symbol and, when the palette is non-empty, to the drawn palette colour; it counts the frame and changes no other character; the invariant is kept |
| TextAnimator.Animator.Complete | frontend/src/components/TextAnimator.tsx:89-98 | the tween's completion schedules the restore of the recorded values; the callback fires if and only if this is the last position, and then the flag is cleared and one more completion is counted; nothing else changes and the invariant is kept |
| TextAnimator.Animator.Restore | frontend/src/components/TextAnimator.tsx:90-94 | the delayed restore puts the character back to its original markup and colour and leaves nothing pending for it; no other character changes |
| TextAnimator.Animator.MouseEnter | frontend/src/components/TextAnimator.tsx:115-119 | in hover mode it has exactly the effect of `animate`; in any other mode it is refused and changes nothing |
| TextAnimator.Animator.Click | frontend/src/components/TextAnimator.tsx:121-125 | in click mode it has exactly the effect of `animate`; in any other mode it is refused and changes nothing |
| TextAnimator.Animator.ScheduleAuto | frontend/src/components/TextAnimator.tsx:55-59 | in auto mode one timeout is pending, waiting `TimeoutMs(delay)` (the delay as a signed 32-bit integer, a negative one counting as 0); in any other mode nothing is scheduled |
| TextAnimator.Animator.CancelAuto | frontend/src/components/TextAnimator.tsx:60 | the cleanup leaves no timeout pending |
| TextAnimator.Animator.AutoFire | frontend/src/components/TextAnimator.tsx:57-59 | a pending timeout exists only in auto mode; when it fires it is used up and has exactly the effect of one `animate` |
| BackendApp.LStrip | backend/app.py:55 | removing leading whitespace never makes a text longer |
| BackendApp.LStripIsSuffix | backend/app.py:55 | what is kept after removing leading whitespace is a suffix of the input |
| BackendApp.LStripDropsSpace | backend/app.py:55 | everything removed from the front is whitespace |
| BackendApp.LStripFirst | backend/app.py:55 | what is kept is empty or starts with a non-space |
| BackendApp.RStrip | backend/app.py:55 | removing trailing whitespace never makes a text longer |
| BackendApp.RStripIsPrefix | backend/app.py:55 | what is kept after removing trailing whitespace is a prefix of the input |
| BackendApp.RStripDropsSpace | backend/app.py:55 | everything removed from the end is whitespace |
| BackendApp.RStripLast | backend/app.py:55 | what is kept is empty or ends with a non-space |
| BackendApp.Strip | backend/app.py:55 | `strip()` never makes a text longer |
| BackendApp.StripIsSlice | backend/app.py:55 | `strip()` yields the contiguous slice of the reply that starts right after its leading whitespace |
| BackendApp.StripDropsSpace | backend/app.py:55 | what `strip()` cuts on either side of that slice is whitespace |
| BackendApp.StripEnds | backend/app.py:55 | the stripped text is empty or neither starts nor ends with whitespace |
| BackendApp.StripIdempotent | backend/app.py:55 | stripping twice is stripping once |
| BackendApp.LStripSkipsSpace | backend/app.py:55 | removing leading whitespace passes over any all-whitespace prefix |
| BackendApp.RStripSkipsSpace | backend/app.py:55 | removing trailing whitespace passes over any all-whitespace suffix |
| BackendApp.StripRemovesPadding | backend/app.py:55 | whitespace around a text that starts and ends with a non-space is exactly what `strip()` removes |
| BackendApp.RemoveAll | backend/app.py:55 | `replace(pat, "")` never makes a text longer |
| BackendApp.RemoveAllNothingToRemove | backend/app.py:55 | a text in which the pattern's first character never occurs is left unchanged |
| BackendApp.RemoveAllAfterPrefix | backend/app.py:55 | a prefix without the pattern's first character passes through unchanged, and the rest is processed as on its own |
| BackendApp.FenceRemovalLeadingRun | backend/app.py:55 | after every "```" is removed, a text's leading run of backticks has its original length mod 3 |
| BackendApp.NoFenceAfterRemoval | backend/app.py:55 | after every "```" is removed, no "```" is left anywhere |
| BackendApp.Clean | backend/app.py:55 | the cleaned reply is no longer than the reply and contains neither "```" nor "```json" anywhere |
| BackendApp.CleanWithoutBackticks | backend/app.py:55 | a reply without backticks is only stripped |
| BackendApp.JsonFenceRemovedFromBlock | backend/app.py:55 | removing "```json" from a JSON code block leaves its body followed by the closing fence |
| BackendApp.ClosingFenceRemoved | backend/app.py:55 | removing "```" from a body and its closing fence leaves the body |
| BackendApp.CleanUnwrapsCodeBlock | backend/app.py:55 | a reply that is a JSON code block with whitespace around it is cleaned to exactly the block's body |
| BackendApp.AnalyzeImage | backend/app.py:34-71 | the status is 200, 400 or 500; it is 400 if and only if no image is attached; it is 500 if and only if an image is attached and reading it or asking the model raised, or the parser raised something other than a decode error; every non-200 answer is an object with the single key "error" |
| BackendApp.MissingImageSkipsAnalysis | backend/app.py:35-36 | without an image the answer is the 400 error "No se adjuntó archivo de imagen", whatever the model and the parser would do |
| BackendApp.FailureReported | backend/app.py:40-71 | a failure while reading the image or asking the model is a 500 whose error is "Error en el análisis: " followed by the message |
| BackendApp.ParserFailureReported | backend/app.py:57-71 | an exception from the parser other than a decode error escapes the inner handler and is a 500 whose error is "Error en el análisis: " followed by its message |
| BackendApp.ErrorBody | backend/app.py:36-71 | an error answer is an object whose only key is "error", holding the message |
| BackendApp.Fallback | backend/app.py:62-68 | the fallback record has exactly the keys country, region_or_city, coordinates, confidence and reasoning, and no "error"; reasoning is the reply as received, the other four are the fixed "No determinado" (twice), "No disponibles" and "Baja" |
| BackendApp.ParsedReplyReturned | backend/app.py:55-59 | a cleaned reply that parses is answered 200 with the parsed value, unchanged |
| BackendApp.UnparsedReplyFallsBack | backend/app.py:60-68 | a cleaned reply that does not parse is answered 200 with the fixed record ("No determinado" twice, "No disponibles", "Baja"), whose reasoning is the raw reply |
| BackendApp.FallbackKeepsFences | backend/app.py:55-68 | the reasoning is the uncleaned reply: for "```x```" the cleaned text is "x" but the reasoning keeps the fences |
| BackendApp.CodeBlockReplyAnswered | backend/app.py:55-59 | a reply fenced as a JSON code block whose body parses is answered 200 with the parsed body |

Notes on the model:
- The invariant `Valid()` carries two ghost counters, `runs` and `completions`. They express "the callback fires once per accepted run".
- With characters, `runs` is `completions` plus one while a run is in progress, and equal to `completions` otherwise.
- With zero characters, the flag is never cleared: `runs` is 1 while it is set, and `completions` stays 0. No `Complete` step exists, so no later `animate` is ever accepted.
- `Complete` is called for the last position only when every other character is already idle. `RunEndsAtLastCompletion` proves this ordering for the timeline: every other character's frames, completion and restore are over before the last character completes.

## Left out

- The animation library's real-time engine is not modelled: easing, `transformOrigin`, opacity and the interleaving of tweens in wall-clock time. The schedule is integer milliseconds (`EventTime`), and its steps are explicit method calls.
- `repeatRefresh` re-running the `innerHTML` function for each repeat is modelled as one `Frame` call per repeat.
- The text splitter's DOM work and `revert()` on unmount are not modelled. The split characters come in as `CharElement` values.
- TextAnimator.Animator.Split: it requires a component that has not been split yet. Re-running the mount effect when `children` change (a revert followed by a new split) is not modelled.
- `getComputedStyle` is not modelled. The colour recorded at mount is an input. The computed colour read back right after a reset is taken to be the colour that was just assigned.
- TextAnimator.Animator.Frame: with an empty `colors` list the source assigns an undefined colour. The model leaves the colour unchanged, assuming the style engine ignores an undefined value.
- `Math.random` is not modelled. Each draw is a caller-supplied index, bounded by the alphabet or palette length.
- The completion callback's own behaviour and any exception it throws are not modelled. The source has no try/catch around it; the model clears the flag first, as the source does.
- TextAnimator.Animator.Complete: the last position may complete only when every other character is idle. The source does not check this; it relies on the timeline's order, which `RunEndsAtLastCompletion` proves.
- Timer identities are not modelled. `autoTimer` records only whether one timeout is pending, and its delay.
- TextAnimator.TimeoutMs: the delay is an integer. A fractional `delay` prop, which setTimeout truncates toward zero, and a non-finite one, which it treats as 0, are not modelled.
- TextAnimator.Animator.constructor: the props are fixed at mount. A later change of `trigger` or `delay`, which re-runs the auto-trigger effect (its cleanup, then a new timeout), and a later change of `colors` are not modelled.
- TextAnimator.Animator.Animate: the model takes each character's first random frame to happen at its start delay. The animation library renders a `fromTo` tween at creation by default, so the `innerHTML` function may first run, and set a palette colour, inside `animate` itself at 0 ms. The model does not capture that: after `Animate` every character still shows its original markup and colour.
- TextAnimator.NothingBeforeFirstStagger: it holds for the events of the model's schedule. A first draw made when the tweens are created, at 0 ms, is outside that schedule.
- JSON numbers are modelled as integers, so floating point never arises inside the model.
- BackendApp.AnalyzeImage: `json.loads` is an oracle. Which texts make it raise, and what it raises, is not modelled: a decode error versus another exception (a `RecursionError` on deep nesting, a `ValueError` on an integer with too many digits) is the oracle's answer.
- Reading the image (PIL), the model call and any exception they raise are one oracle returning the reply text or the exception's message.
- Flask routing, CORS, the `.env` loading, the API-key startup check and its printing, and the `GET /` handler are not modelled.
- `jsonify`'s serialisation is not modelled. The response is a status and a `Json` value.
- frontend/src/App.tsx (the page that uploads an image) and backend/test_api.py (a manual HTTP client) are not part of this model.
- Three behaviours of the code a reader might not expect are modelled as written:
  - with zero characters the flag stays set forever;
  - an empty `colors` list gets no fallback to the defaults;
  - the flag is cleared before the callback, with no exception handling.
