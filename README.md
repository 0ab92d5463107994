# randword-rs core, modelled in Dafny

randword-rs is a small Windows tool. It keeps a list of words in `words.txt`, one per line. Each time the user presses Ctrl+Alt+X, it types out the next word, or copies it to the clipboard when started with `clip`. A counter of the words already used is stored in `skipline.dat`, so the next run resumes where the last one stopped.

The model covers the parts of `src/main.rs` that hold logic, as opposed to Win32 plumbing. It has five modules:

- `Base` (base.dfy) holds the machine types `Byte`, `U16` and `U64`, powers of ten, NUL runs, and a few division facts.
- `CursorRecord` (cursor_record.dfy) is the 8-byte counter record:
  - `u64_to_array`, both of its loops: the right-to-left digit loop with its early `break`, and the compaction loop;
  - `parse_lines_to_skip`;
  - the record read at startup and written at shutdown.

  Every top-level method is proved against a specification function: `Render`, `ParseValue`, `ReadRecord` or `Overwrite`. The loop helpers `WriteDigits`, `PutDigit` and `Compact` are proved against `Zeros`, `LowDigits` and `NonNul`. The lemmas state the round trip and the shape of the record.
- `LineSource` (line_source.dfy) is the `BufReader` over `words.txt`:
  - `LineReader` is a class. Its byte position is updated in place.
  - A ghost line index ties that position to `Lines(data)`, the lines `read_line` returns.
- `Activation` (activation.dfy) is the startup skip loop and the hotkey branch of `poll_event`:
  - `Session` is a class whose `linesToSkip` field and reader are mutated in place. Each activation is proved equal to the abstract step function `Step`.
  - `Run` iterates `Step`. The lemmas about it state the ordering, the wraparound and the cycle behaviour.
- `WideString` (wide_string.dfy) is the surrogate-pair loop of `wider_string`:
  - it runs over a sequence of code points and writes into a zeroed `U16` array;
  - it is proved equal to the UTF-16 encoding of section 2.1 of RFC 2781, followed by one 0 unit;
  - a decoder is defined as its inverse.

Three facts about the code shape the model:

- **Record layout.** The compaction loop of `u64_to_array` (src/main.rs:347-354) moves the digits to the front. The record is therefore the digits, most significant first, followed by NUL bytes.
- **No truncation.** Shutdown (src/main.rs:330-331) seeks to the start and writes all 8 bytes, and never truncates. Any bytes beyond the eighth stay as they were, so `Overwrite` keeps them.
- **Cursor bound.** After a startup that skips more lines than the file holds, the counter is larger than the line count until the next activation resets it. `InSync` states this.

## Model

| member | source | states |
|---|---|---|
| CursorRecord.U64ToArray | src/main.rs:334-357 | The record is `Render(size, num)`: the lowest `min(NumDigits(num), size)` decimal digits of `num`, most significant first from index 0, followed by NUL bytes. |
| CursorRecord.WriteDigits | src/main.rs:336-345 | The first loop writes exactly `min(NumDigits(num), N)` digits. It stops after the digit that leaves the number at 0, so at least one digit is written whenever `N >= 1`. The buffer ends up as NULs followed by those low digits. |
| CursorRecord.PutDigit | src/main.rs:338-340 | One turn of the digit loop writes `b'0' + num % 10` just before the digits already there. The buffer becomes NULs followed by one more low digit. |
| CursorRecord.Compact | src/main.rs:347-354 | The second buffer holds the non-NUL bytes of the first, in order, followed by NULs up to the same length. |
| CursorRecord.NonNulPadded | src/main.rs:347-354 | Compacting NUL padding followed by digits gives back exactly the digits: the compaction drops no digit. |
| CursorRecord.NumDigitsDiv | src/main.rs:339-343 | Dividing by `10^w` leaves 0 exactly when the number has at most `w` digits. This is when the `num == 0` break fires. |
| CursorRecord.RenderShape | src/main.rs:338-354 | Every record byte is an ASCII digit or NUL, all digits come before all NULs, and a non-empty record starts with a digit. |
| CursorRecord.RenderFits | src/main.rs:334-357 | A number below `10^size` renders as its decimal spelling followed by NULs. 0 renders as `'0'` followed by `size - 1` NULs. |
| CursorRecord.RenderTooWide | src/main.rs:338-345 | A number of `10^size` or more keeps only its `size` low digits, leading `'0'`s included. |
| CursorRecord.DecimalSpellsNumber | src/main.rs:338-345 | The spelling used for a fitting number is all digits, parses back to the number, and has no leading `'0'` unless the number is 0. |
| CursorRecord.ParseLinesToSkip | src/main.rs:465-473 | The loop result is `ParseValue(buf)`: the fold `result * 10 + digit` over the digit bytes, left to right. |
| CursorRecord.ParseNoDigits | src/main.rs:465-473 | A buffer with no byte in `'0'..'9'` parses to 0. |
| CursorRecord.ParseSkipsFiller | src/main.rs:467-469 | Removing a non-digit byte anywhere does not change the parse. |
| CursorRecord.ParseAppend | src/main.rs:465-473 | `parse(a ++ b) == parse(a) * 10^(digits in b) + parse(b)`, and the digit counts add up. |
| CursorRecord.ParseBound | src/main.rs:465-473 | The parse is below `10^(digit count)` and below `10^|buf|`. An 8-byte record therefore loads below `10^8`. |
| CursorRecord.ParseLowDigits | src/main.rs:465-473 | Parsing the `w` low digits of `n` gives `n mod 10^w`, using `w` digit bytes. |
| CursorRecord.ParseZeroPadded | src/main.rs:465-473 | NUL bytes after the digits leave the parse unchanged. |
| CursorRecord.RenderParseRoundTrip | src/main.rs:334-357 | Parsing a rendered record of `size` bytes gives the counter modulo `10^size`. |
| CursorRecord.LoadCursor | src/main.rs:271-286 | Startup loads `ParseValue` of the 8-byte buffer: the file's first bytes, then the initial `'0'`s. The result is below `10^8`. |
| CursorRecord.SaveCursor | src/main.rs:329-331 | Shutdown writes `Render(8, counter)` over the first 8 bytes of the file, and later bytes are kept. |
| CursorRecord.SaveLoadRoundTrip | src/main.rs:329-331 | A counter saved at shutdown loads back unchanged at the next startup when it is below `10^8`, and modulo `10^8` otherwise. |
| CursorRecord.ShortFileScales | src/main.rs:271-273 | A file shorter than the record keeps the `'0'` fill: it loads as its own parse times `10^(8 - length)`. |
| CursorRecord.ShortFileLoad | src/main.rs:271-273 | An instance of `ShortFileScales`: a file holding `"5"` loads as 50000000. |
| LineSource.LineReader.constructor | src/main.rs:288-289 | A fresh reader stands before line 0 of the file's bytes. |
| LineSource.LineReader.ReadLine | src/main.rs:377 | Returns line `next` of `Lines(data)` with its terminator and moves on one line. At the end of the file it returns an empty line and nothing moves. |
| LineSource.LineReader.Rewind | src/main.rs:380 | Afterwards the reader stands before line 0 again. |
| LineSource.LinesConcat | src/main.rs:377 | The lines `read_line` returns, put back together, are the whole file. |
| LineSource.LinesShape | src/main.rs:377 | Each line holds `'\n'` only as its last byte. Every line but the last ends in `'\n'`, and so does the last one when the file ends in `'\n'`. |
| LineSource.LinesCount | src/main.rs:377 | The number of lines is the number of `'\n'` bytes, plus one when the file does not end in `'\n'`. |
| Activation.Session.constructor | src/main.rs:304-310 | Startup reads past `min(k, L)` lines of an `L`-line file and keeps the counter at `k`. Reading past the end is not an error. |
| Activation.StartupInSync | src/main.rs:304-310 | After startup the counter is `k` and is in step with the reader. The reader stands at line `k` when `k <= L`. |
| Activation.Session.Activate | src/main.rs:375-391 | One hotkey activation changes the state and emits exactly as `Step` does, keeps the session valid, and leaves the counter at most `L`. |
| Activation.StepCases | src/main.rs:377-391 | When a line is read, the counter goes up by 1, the reader moves one line on, and the line minus its last byte is emitted to the chosen output. At the end of the file, the counter and the reader go back to 0 and nothing is emitted. |
| Activation.StepInSync | src/main.rs:377-391 | An activation keeps the counter in step with the reader, and the counter is at most `L` afterwards. |
| Activation.ResumeAfterStartup | src/main.rs:377-385 | After startup with counter `k`, the first activation emits line `k + 1` when the file has it, and otherwise emits nothing and wraps to the start. |
| Activation.RunToWrap | src/main.rs:377-391 | From line `i` in step, the next `L - i + 1` activations emit lines `i + 1..L` in order, then nothing, ending at line 0 with the counter at 0. |
| Activation.FullCycle | src/main.rs:377-391 | From the start, `L + 1` activations emit lines 1..L in order, then nothing, and leave the engine back at the start. |
| Activation.RunSplit | src/main.rs:322-325 | `a + b` activations have the same effect as `a` activations followed by `b`, with their outputs concatenated. |
| Activation.CyclesRepeat | src/main.rs:377-391 | After any number of full cycles of `L + 1` activations, the engine is back at the start. |
| Activation.EmittedText | src/main.rs:383 | The emitted text never holds `'\n'`. It is the line without its `'\n'`, except for the last line of a file not ending in `'\n'`, which loses its final character instead. |
| WideString.Units | src/main.rs:483-494 | A code point up to U+FFFF is one unit equal to itself. Any other code point is a high surrogate in `0xD800..0xDBFF` followed by a low surrogate in `0xDC00..0xDFFF`. |
| WideString.Utf16Len | src/main.rs:477 | The buffer length before the terminator is the length of the encoding: between one and two units per code point. |
| WideString.PutUnits | src/main.rs:483-494 | One turn of the loop writes the units of one code point at `output_pos`, and `output_pos` advances by their number. |
| WideString.WiderString | src/main.rs:475-498 | The buffer is the UTF-16 encoding of the code points followed by a single 0 unit. |
| WideString.EncodeAppend | src/main.rs:482-495 | The encoding of a concatenation is the concatenation of the encodings: each code point is encoded on its own, in order. |
| WideString.DecodeEncode | src/main.rs:483-494 | Decoding the buffer's encoding gives back the code points. |
| WideString.EncodeInjective | src/main.rs:483-494 | Different code point sequences never produce the same buffer. |
| WideString.EncodePairsSurrogates | src/main.rs:483-494 | The encoding has no lone surrogate. Every high surrogate is followed by a low one, and every low surrogate follows a high one. |

## Left out

- The Win32 window, its class and `wndproc`, hotkey registration, error message boxes and `format_win32_error` (src/main.rs:72-214). These are foreign calls with no logic of their own.
- The message pump (`PeekMessageW`, `DispatchMessageW`, the `WM_QUIT` and `WM_HOTKEY` dispatch), the 38 ms and 400 ms `Sleep` calls and the `IS_RUNNING` flag. These are timing and OS event delivery. `Activation.Session.Activate` is the activation the pump triggers, and `Activation.Run` is any number of them in a row.
- `type_out_characters` and `set_clipboard_string`. These are keystroke injection and clipboard calls into the OS, and the model reduces them to the `Effect` value they receive.
- File I/O itself: opening the files, `read_exact`, `seek`, `write_all`, `read_line`, `read_until` and `rewind`. `skipline.dat` is a byte sequence, and `words.txt` is a byte sequence read by `LineReader`.
  - Open errors and the `.expect` panics on read and rewind are not modelled.
  - After a short file, the model takes the buffer as the bytes that were read followed by the initial `'0'`s. The standard library does not specify this content.
- UTF-8 handling of `words.txt`. `read_line` appends to a `String`, and `&buffer[..size - 1]` panics when the last byte is not a character boundary. The model reads bytes and slices bytes.
- `decode_utf8_char` and the UTF-8 input of `wider_string`, which are library code. The model takes the decoded code points as input. It also covers every code point sequence rather than only the constant window name.
- Argument parsing. The `clip` argument becomes the `useClipboard` parameter. `lobyte` is not part of this model.
- `debug_assert!(N <= 8)` in `u64_to_array`. `CursorRecord.U64ToArray` accepts any size, and the source only uses 8.
- CursorRecord.ParseLinesToSkip: `result` is a `nat`, so the `u64` overflow of `result * 10` on more than 19 digits is not modelled. An 8-byte record cannot reach it (`ParseBound`).
- Activation.Session.Activate: the counter is a `nat`, so the `u64` overflow of `+= 1` is not modelled. The counter is only incremented while it is below the line count, so it cannot reach it.
- Activation.Session.constructor: the startup counter is any `nat`, where the source's `u64` comes from an 8-byte record and stays below `10^8`.
