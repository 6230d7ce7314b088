# byts image-to-C-array converter: encoders and dispatcher, in Dafny

This project models the two stateful cores of byts. byts is a browser tool that turns
images into C array declarations for microcontroller displays.

- **The processing worker** (`src/workers/processing.js`). It has four encoders:
  - `grayscale`: 1 bit per pixel, 8 pixels per byte, most significant bit first.
  - `rgb565`: 16-bit words.
  - `rgb888`: 32-bit words whose top byte is zero.
  - `rgba8888`: 32-bit words.

  Each encoder turns a row-major RGBA buffer into the text
  `const uintN_t NAME[] = {\n  0x.., 0x.., ...\n};`, with a line break after every
  16, 12, 10 or 12 elements respectively. The model also covers the in-place colour
  inversion, the output-size rule, the `pixelEncoding` default, the lookup in the
  `encoding` table, and the reply the worker posts.
- **The page's dispatcher** (`src/App.jsx`). A FIFO `taskQueue` feeds a pool of at
  most `MAX_WORKERS` = 4 workers. Each worker has an `idle` flag, and an
  `activeWorkers` counter tracks the busy ones. `results` and `code` accumulate
  completions. `processing` and `ready` flag the batch.

The modules are:

- `JsInt`: the JavaScript 32-bit operators `<<`, `>>`, `>>>`, `|` and `&`, written out
  on unbounded integers.
- `Hex`: `toString(16)` and `padStart`, and the hex-digit round trip.
- `Layout`: the layout shared by the four encoders, and a reader for it.
- `Processing`: the worker.
- `Scheduler`: the dispatcher as a state machine on values.
- `App`: the dispatcher as the class `Dispatcher`. Its fields are updated in place,
  and each handler is proved to perform the corresponding `Scheduler` transition.

Each encoder is a method with the original loops. It is proved to return a `Listing`
whose elements are given by a per-group or per-pixel function. Lemmas then give:

- the bit formula of each element;
- that the text reads back to exactly those values, with a line ending after every
  wrap-th element.

The source's nested loop bodies are split across several methods so that each
method's proof stays small. The splits are:

- `GrayscaleRows`: the row loop of `grayscale`.
- `GrayscaleRowLoop`: one row of `grayscale`.
- `PackByte`: the bit loop.
- The `*Element` methods: one pixel of a word format.
- `AppendElement`: appending an element and its separator.

Together they perform the statements of the original loops, in the original order.

The dispatcher behaves as follows:

- An `error` message from a worker frees nothing (src/App.jsx:145-147). The worker
  stays busy, `activeWorkers` stays above zero, and `ready` is never set again
  (`BusySlotBlocksReady`).
- Errors are not recorded in `results`. Only a `complete` message appends a result
  (src/App.jsx:122-131).
- The queue is not cleared between batches. A new batch is appended to what is
  still queued (src/App.jsx:105-107).
- A new batch resets `results` and `code` (src/App.jsx:98-101). Workers of the
  previous batch may still reply afterwards, and their results and code are appended
  to the new batch's (src/App.jsx:129-131).

## Model

| member | source | states |
|---|---|---|
| `JsInt.ShiftLeftSmall` | src/workers/processing.js:22 | `x << n` is x * 2^n while the product stays below 2^31 |
| `JsInt.ShiftLeftUnsigned` | src/workers/processing.js:131 | read unsigned, `x << n` is x * 2^n while the product fits in 32 bits, so `R << 24` is positive again after `>>> 0` |
| `JsInt.ShiftRightSmall` | src/workers/processing.js:56-58 | `x >> n` on a non-negative 31-bit value is floor division by 2^n |
| `JsInt.BitOrAdds` | src/workers/processing.js:60 | OR-ing a field below 2^k into a multiple of 2^k adds it |
| `JsInt.BitOrSmall` | src/workers/processing.js:22 | the JavaScript OR of two values below 2^k (k <= 31) is their bitwise OR and stays below 2^k |
| `JsInt.TestBitOr` | src/workers/processing.js:22 | a bit of the bitwise OR of a and b is set iff it is set in a or in b |
| `JsInt.TestBitPow2` | src/workers/processing.js:22 | `1 << k` has exactly bit k set |
| `JsInt.AndBitsLowMask` | src/workers/processing.js:62 | `v & 0xFFFF` leaves a 16-bit value unchanged |
| `JsInt.OrBitsDisjoint` | src/workers/processing.js:131 | OR of a multiple of 2^k with a value below 2^k is their sum |
| `Hex.ToHexStringIsFixedHex` | src/workers/processing.js:27 | `toString(16)` of v is exactly NumDigits(v) digits, and v is below 16^NumDigits(v) |
| `Hex.PaddedHex` | src/workers/processing.js:27 | `v.toString(16).padStart(w, '0')` is exactly w digits of v whenever v < 16^w |
| `Hex.HexValueOfFixedHex` | src/workers/processing.js:27 | reading back w digits of v gives v when v < 16^w |
| `Hex.FixedHexOfHexValue` | src/workers/processing.js:27 | every digit string is the fixed-width form of its value, so the digit text determines the value and back |
| `Layout.AppendElement` | src/workers/processing.js:27-36 | after element k of n: the literal, then `",\n  "` when k is a multiple of the wrap and k < n, `", "` when k < n, nothing after the last; the per-line counter is k mod wrap; the text so far followed by the remaining elements is the whole listing |
| `Layout.ListingComplete` | src/workers/processing.js:40 | once every element is appended, adding `"\n};"` gives exactly the listing |
| `Layout.ListingRoundTrip` | src/workers/processing.js:27-40 | reading a listing back (header, literals of the stated width, separators, footer) yields exactly its values in order, with a line ending after every wrap-th but the last |
| `Layout.LineHoldsAtMostWrap` | src/workers/processing.js:29-33 | any wrap + 1 consecutive elements contain a line ending, so no line holds more than wrap elements |
| `Layout.LineEndsAfterFullLine` | src/workers/processing.js:31-33 | a line ends only after a full wrap elements, and never after the last element |
| `Processing.RoundDiv` | src/workers/processing.js:19 | `Math.round(n / d)` in exact arithmetic: the integer r with r - 1/2 <= n/d < r + 1/2 |
| `Processing.NearestRatioUnique` | src/workers/processing.js:192 | at most one integer is nearest to n/d with halves up, so RoundDiv and the sizes are determined by their contracts |
| `Processing.Luma` | src/workers/processing.js:19 | the rounded luma of a pixel lies in 0..255 |
| `Processing.IsDark` | src/workers/processing.js:19-21 | `round(0.299 R + 0.587 G + 0.114 B) < 69` holds exactly when 299 R + 587 G + 114 B < 68500 |
| `Processing.BytesPerRow` | src/workers/processing.js:6 | `Math.ceil(width / 8)`: the least n with 8n >= width |
| `Processing.PixelIndex` | src/workers/processing.js:18 | the red channel of pixel (y, x) and its two successors lie inside a w*h*4 buffer |
| `Processing.PartialByteBits` | src/workers/processing.js:16-25 | after `bits` rounds of the bit loop, bit 7-b is set exactly for the columns b < bits that are inside the row and dark, and the value is a byte |
| `Processing.PartialByteBitsStep` | src/workers/processing.js:16-24 | one more round of the bit loop sets bit 7 - bit exactly when that column is inside the row and dark, and keeps every earlier bit |
| `Processing.SetBit` | src/workers/processing.js:22 | OR-ing `1 << k` into a byte sets bit k and keeps every other bit |
| `Processing.GrayscaleByte` | src/workers/processing.js:14-25 | each grayscale element is a byte |
| `Processing.GrayscaleByteBits` | src/workers/processing.js:16-25 | bit p of a grayscale byte is set iff column 8*group + 7 - p is inside the row and dark; columns past the width stay 0 |
| `Processing.GrayscaleRow` | src/workers/processing.js:13 | a row yields ceil(width / 8) bytes |
| `Processing.GrayscaleBytes` | src/workers/processing.js:6-7 | the rows yield rows * ceil(width / 8) bytes, each below 256 |
| `Processing.GrayscaleBytesAt` | src/workers/processing.js:12-13 | element y * ceil(width / 8) + group is the byte of that group in row y |
| `Processing.GrayscaleBytesRowMajor` | src/workers/processing.js:12-13 | byte y * ceil(width / 8) + group of the grayscale bytes is byte `group` of row y, for every row and group |
| `Processing.GrayscaleRoundTrip` | src/workers/processing.js:4-45 | the grayscale text reads back as exactly ceil(width / 8) * height two-digit bytes, row after row, with a line ending after every 16th |
| `Processing.PartialByteNext` | src/workers/processing.js:16-24 | one round of the bit loop sets bit 7 - bit iff the column is inside the row and its luma is below 69, reading in-range channels only |
| `Processing.PackByte` | src/workers/processing.js:14-25 | the bit loop computes the grayscale byte of its group |
| `Processing.GrayscaleRows` | src/workers/processing.js:12-38 | the row loop appends every row's elements with their separators, so that only the footer remains |
| `Processing.GrayscaleRowLoop` | src/workers/processing.js:13-37 | one row appends its ceil(width / 8) elements with their separators and keeps the listing invariant |
| `Processing.Grayscale` | src/workers/processing.js:4-45 | `grayscale` returns the listing of the grayscale bytes with the `PROGMEM` header and wrap 16; `threshold` is not read |
| `Processing.Rgb565ValuePacks` | src/workers/processing.js:56-60 | the RGB565 value is (R div 8) * 2^11 + (G div 4) * 2^5 + B div 8; alpha is not read |
| `Processing.Rgb888ValuePacks` | src/workers/processing.js:91-95 | the RGB888 value is R * 2^16 + G * 2^8 + B |
| `Processing.Rgba8888ValuePacks` | src/workers/processing.js:126-131 | the RGBA8888 value is the unsigned word R * 2^24 + G * 2^16 + B * 2^8 + A |
| `Processing.Rgb565LiteralIsHex` | src/workers/processing.js:62 | a 16-bit value is written as `0x` and exactly 4 hex digits |
| `Processing.Rgb888LiteralIsHex` | src/workers/processing.js:98 | a 24-bit value is written as `0x` and exactly 8 hex digits, the first two `00` |
| `Processing.Rgba8888LiteralIsHex` | src/workers/processing.js:133 | a 32-bit value is written as `0x` and exactly 8 hex digits |
| `Processing.Rgb565Text` | src/workers/processing.js:56-62 | an RGB565 element is 4 hex digits of the packed value |
| `Processing.Rgb888Text` | src/workers/processing.js:91-98 | an RGB888 element is 8 hex digits of the packed value |
| `Processing.Rgba8888Text` | src/workers/processing.js:126-133 | an RGBA8888 element is 8 hex digits of the packed value |
| `Processing.Rgb565RedExample` | src/workers/processing.js:55-62 | pure red is written `0xf800` |
| `Processing.Rgb565GreenBlueExample` | src/workers/processing.js:56-62 | pure green is written `0x07e0` and pure blue `0x001f` |
| `Processing.Rgb888Example` | src/workers/processing.js:90-98 | (1, 2, 3) is written `0x00010203` |
| `Processing.Rgba8888Example` | src/workers/processing.js:125-133 | (10, 20, 30, 40) is written `0x0a141e28` |
| `Processing.Rgb888TopByteZero` | src/workers/processing.js:95-98 | the top byte of every RGB888 element is `00` |
| `Processing.PackedPixelFits` | src/workers/processing.js:62 | each packed value fits in the digits its format writes |
| `Processing.PixelLiteralIsPacked` | src/workers/processing.js:55-62 | with the JavaScript operators, every word format writes a pixel as `0x` and 4 or 8 digits of its packed value |
| `Processing.PackedPixels` | src/workers/processing.js:55 | one element per pixel (4 buffer entries) |
| `Processing.WordRoundTrip` | src/workers/processing.js:48-79 | a per-pixel text reads back as exactly the packed value of each pixel in buffer order, with a line ending after every 12th, 10th or 12th |
| `Processing.Rgb565Element` | src/workers/processing.js:56-62 | the loop body's text for one pixel is 4 hex digits of its RGB565 value |
| `Processing.Rgb888Element` | src/workers/processing.js:91-98 | the loop body's text for one pixel is 8 hex digits of its RGB888 value |
| `Processing.Rgba8888Element` | src/workers/processing.js:126-133 | the loop body's text for one pixel is 8 hex digits of its RGBA8888 value |
| `Processing.Rgb565` | src/workers/processing.js:48-79 | `rgb565` returns the `uint16_t` listing of the pixels' RGB565 values, 12 per line |
| `Processing.Rgb888` | src/workers/processing.js:83-115 | `rgb888` returns the `uint32_t` listing of the pixels' RGB888 values, 10 per line |
| `Processing.Rgba8888` | src/workers/processing.js:118-150 | `rgba8888` returns the `uint32_t` listing of the pixels' RGBA8888 values, 12 per line |
| `Processing.InvertedTwice` | src/workers/processing.js:266-274 | inverting twice restores the buffer |
| `Processing.InvertedChannels` | src/workers/processing.js:268-270 | every colour channel v becomes 255 - v and every alpha channel is kept |
| `Processing.InvertImage` | src/workers/processing.js:266-274 | `invertImage` changes the buffer in place to its inversion, with the same length, including a trailing partial pixel |
| `Processing.OutputSize` | src/workers/processing.js:183-197 | both canvas sizes when both are positive; else a positive canvas width with height nearest cw * oh / ow; else a positive canvas height with width nearest ch * ow / oh; else the original size |
| `Processing.OutputSizeExamples` | src/workers/processing.js:186-197 | 50x25 drawn 100 wide is 100x50; 2x3 drawn 3 wide is 3x5 (4.5 rounds up); no canvas size keeps the original |
| `Processing.PixelFormat` | src/workers/processing.js:235 | a missing `pixelEncoding` selects `rgb565`; any other is used as given |
| `Processing.LookupEncoding` | src/workers/processing.js:153-158 | a name found in the `encoding` table is that encoder's key |
| `Processing.LookupEncodingName` | src/workers/processing.js:153-158 | every encoder is found under its own key |
| `Processing.DefaultFormatIsKnown` | src/workers/processing.js:235 | the default format has an encoder (RGB565) |
| `Processing.Encode` | src/workers/processing.js:236 | `encoding[pixelFormat](...)` returns the listing of the chosen encoder |
| `Processing.FinishImage` | src/workers/processing.js:228-247 | the buffer is inverted in place if asked; an unknown encoder name gives an error reply; otherwise the reply is `complete` with the name, the format, the output size and the encoder's text |
| `Scheduler.BusyCount` | src/App.jsx:30 | the number of busy workers is at most the pool size, 0 iff all are idle, the pool size iff none is |
| `Scheduler.BusyCountUpdate` | src/App.jsx:136-137 | changing one idle flag changes the busy count by exactly that worker's change |
| `Scheduler.FirstIdle` | src/App.jsx:73 | `find(worker => worker.idle)`: none iff no worker is idle, else the least index of an idle worker |
| `Scheduler.InitialInvariant` | src/App.jsx:39-52 | a freshly created pool of at most 4 workers has every worker idle and satisfies the invariant |
| `Scheduler.NextTaskAssigns` | src/App.jsx:73-84 | with tasks queued, the head leaves the queue (FIFO) and is posted to the first idle worker, which becomes busy; `activeWorkers` grows by one; nothing else changes |
| `Scheduler.NextTaskWaits` | src/App.jsx:73-77 | with no idle worker, nothing changes |
| `Scheduler.NextTaskDrained` | src/App.jsx:64-71 | with an empty queue, only `processing := false, ready := true`, and only when no worker is active |
| `Scheduler.NextTaskCounts` | src/App.jsx:79-81 | one `processNextTask` keeps `activeWorkers` equal to the number of busy workers and moves one task from the queue to a worker exactly when one is idle |
| `Scheduler.NextTaskOnlyOccupies` | src/App.jsx:80 | `processNextTask` never frees a worker |
| `Scheduler.NextTimesStarts` | src/App.jsx:111-116 | k calls on a queue of at least k tasks start min(k, idle workers) tasks from its front and change nothing else |
| `Scheduler.NextTaskConserves` | src/App.jsx:79-84 | the posted tasks followed by the queue are unchanged by `processNextTask` |
| `Scheduler.NextTimesConserves` | src/App.jsx:114-116 | the same for any number of calls |
| `Scheduler.StepConserves` | src/App.jsx:105-107 | every event only appends its submitted images to posted + queue, so no task is posted twice, skipped or reordered |
| `Scheduler.RunConserves` | src/App.jsx:79 | over any run, posted + queue is the initial tasks followed by every submitted image, in order |
| `Scheduler.SubmitStarts` | src/App.jsx:93-117 | an empty list changes nothing; otherwise the batch is reset, the images are appended after the old queue, and the first min(4, queue length, idle workers) tasks are posted |
| `Scheduler.ErrorChangesNothing` | src/App.jsx:145-147 | an error message changes no state |
| `Scheduler.CompletionCounts` | src/App.jsx:122-141 | a completion from a busy worker appends one result and keeps the invariant and results + active + queued |
| `Scheduler.CompletionTakesNext` | src/App.jsx:134-141 | with tasks queued, the worker that finished is posted the queue's head at once |
| `Scheduler.CompletionDrains` | src/App.jsx:134-141 | with nothing queued, that worker becomes idle and the batch is ready iff it was the last busy worker |
| `Scheduler.LastCompletionFinishes` | src/App.jsx:64-69 | the last completion with nothing queued sets `ready`, clears `processing` and leaves every worker idle |
| `Scheduler.StepKeepsInvariant` | src/App.jsx:80-81 | every event in which a pool worker reports `complete` only while busy (`Sound`) keeps: at most 4 workers, `activeWorkers` = busy workers, `ready` only with nothing active or queued, no idle worker while tasks wait |
| `Scheduler.UnsoundCompletionSetsReady` | src/App.jsx:134-141 | a `complete` from an idle pool worker, with another worker busy and nothing queued, sets `ready` while that worker still holds a task, so the invariant lemmas need `Sound` |
| `Scheduler.RunKeepsInvariant` | src/App.jsx:136-137 | from a state that satisfies the invariant, the invariant holds after any run in which pool workers report `complete` only while busy (`SoundRun`) |
| `Scheduler.NextTimesOccupies` | src/App.jsx:114-116 | any number of `processNextTask` calls keep the pool's size and never free a busy worker |
| `Scheduler.StepKeepsBusy` | src/App.jsx:145-147 | from any state, a busy worker stays busy through every event except its own completion |
| `Scheduler.BusySlotBlocksReady` | src/App.jsx:145-147 | from a state that satisfies the invariant, over any run in which pool workers report `complete` only while busy (`SoundRun`), a worker whose image failed stays busy, so `activeWorkers` stays positive and `ready` stays false |
| `Scheduler.StepRecords` | src/App.jsx:125-131 | a completion appends `{name, encoding, width, height}` to results and its text to code; an error appends nothing |
| `Scheduler.RunRecordsCompletions` | src/App.jsx:125-131 | between batches, results and code grow by the completions in arrival order, including those from a worker the page does not find |
| `Scheduler.JoinLinesSnoc` | src/App.jsx:131 | `prev + (prev ? '\n' : '') + data` appends one text to the line-joined texts |
| `Scheduler.JoinFromLines` | src/App.jsx:131 | repeated appends give the texts joined by single line breaks |
| `Scheduler.CodeJoinsCompletions` | src/App.jsx:129-131 | within a batch, code is the completed texts joined by line breaks, and results are the completions in order |
| `App.Dispatcher.constructor` | src/App.jsx:39-52 | the created workers all start idle, with an empty queue and nothing active |
| `App.Dispatcher.FindIdleWorker` | src/App.jsx:73 | the loop finds the first idle worker, if any |
| `App.Dispatcher.ProcessNextTask` | src/App.jsx:61-85 | updates the fields exactly as `processNextTask` does |
| `App.Dispatcher.HandleImagesInput` | src/App.jsx:93-117 | updates the fields exactly as `handleImagesInput` does, calling `processNextTask` min(4, queue length) times |
| `App.Dispatcher.HandleWorkerMessage` | src/App.jsx:119-148 | updates the fields exactly as `handleWorkerMessage` does |

## Left out

- The image-loading and drawing path is not modelled: `fetch`, `createImageBitmap`,
  and the `OffscreenCanvas` fill, flip, rotate, `drawImage` and `getImageData`
  (src/workers/processing.js:175-228). These are browser graphics calls. The drawn
  RGBA buffer is an input of `FinishImage`.
- The missing-image guard and the outer `try`/`catch` of the worker are not modelled
  (src/workers/processing.js:165-166 and 256-263). Neither is the `.catch` for
  failures of the drawing path (249-255), except for the one error the model can
  name: a `pixelEncoding` that is not in the table. Its message follows the V8 wording
  of the `TypeError`.
- `Processing.LookupEncoding`: the model treats inherited property names such as
  `toString` as unknown. In JavaScript, `encoding["toString"]` finds
  `Object.prototype.toString`.
- `Processing.Luma`: the luma and the aspect ratio use exact rational arithmetic
  with halves rounded up, as `Math.round` does. Floating-point rounding of
  `0.299 * R + ...` and of `width * aspectRatio` could differ only when the exact
  value is a tie.
- `Processing.OutputSize`: it requires a positive original side whenever that side is
  divided by. With 0, the source computes `Infinity` or `NaN`, and the canvas
  constructor fails with a browser error.
- `Processing.FinishImage`: it requires a positive output size and a buffer of
  4 * width * height entries, which is what `getImageData` returns. With a zero or
  negative size the browser throws, and that message is not modelled.
- `Processing.Grayscale`: it requires `data.Length == 4 * width * height`, as the
  worker always passes. With other lengths, JavaScript reads `undefined` out of
  range; this is not modelled. The same holds for `Processing.Rgb565`,
  `Processing.Rgb888` and `Processing.Rgba8888`.
- Canvas sizes are modelled as integers (`Config.canvasWidth`, `Config.canvasHeight`
  and the encoders' `width` and `height`). The number inputs store `Number(value)`
  (src/components/Config.jsx:114-115), so a fractional size such as 10.5 can reach
  the size rule and the encoders. The truncated canvas, the fractional
  `bufferLength` and the fractional column reads that follow are not modelled.
- The `threshold` argument of `grayscale` is accepted and ignored, as in the source.
- Some of the dispatcher's I/O is modelled only as data:
  - Worker construction, `postMessage` and `terminate` (src/App.jsx:32-58, 87-91) are
    not modelled.
  - A posted task is recorded as a `Dispatch` in the `posted` field.
  - A worker's message is an input naming its sender by pool index. An index outside
    the pool is a message whose target the page does not find.
  - A worker that fails to be created is absent from the pool, so the pool has 0 to
    4 workers.
- React's `useState` updates (`setResults`, `setCode`, `setProcessing`, `setReady`)
  are applied immediately and in order. The handlers only use the functional update
  form or plain assignments, so the order of the updates is all that matters.
  Rendering and logging are not modelled.
- `handleImagesInput(null)` is modelled as an empty list. Both return at once.
- `Scheduler.StepKeepsInvariant`: it assumes a worker of the pool reports `complete`
  only while it holds a task (`Sound`). The page does not check this. A second
  completion from an idle worker would push `activeWorkers` below the number of busy
  workers.
- `Scheduler.RunKeepsInvariant` and `Scheduler.BusySlotBlocksReady`: both assume
  the same of every event of the run (`SoundRun`). Without it, a `complete` from an
  idle worker while another is busy and nothing is queued sets `ready` early
  (`UnsoundCompletionSetsReady`).
