# UART command-word tester, modelled in Dafny

`uartapp.py` is a small desktop tool that keeps a list of 32-bit command words and sends them to a device over a serial port, round after round. For each word it writes the word as 4 big-endian bytes, then waits for a 14-byte response and reads it:

- bytes 0-3: the echo of the request;
- bytes 4-7 and 8-11: two data fields;
- bytes 12 and 13: two status bytes.

The tool logs one line per exchange. That line is SHORT when fewer than 14 bytes arrived before the receive deadline. Otherwise it carries PASS or FAIL per status byte, and a status passes exactly when it is the ASCII letter `K`.

This project models the logic of that tool:

- `Hex32` (`hex32.dfy`):
  - `parse_hex32`, the parser that turns a line of text into a command word;
  - the list's display form `0x%08X`.
- `WordList` (`wordlist.dfy`): the line filter and the all-or-nothing batch rule shared by manual entry and file import.
- `Frame` (`frame.dfy`): the request encoding and the classification of a response.
- `Reader` (`reader.dfy`): `read_exact`, the bounded reader, as a loop over a modelled port.
- `Uart` (`uart.dfy`):
  - the `App` class with the word list and its edits (`add_codes`, `import_from_file`, `delete_selected`, `clear_all`);
  - the start guard and the stop flag;
  - the worker's round loop `run_uart_loop`, as the method `RunRounds` with the per-round method `Round`.
- `Results` (`results.dfy`): the `Result` and `Option` types.

How the model stands in for the environment:

- The serial port is replaced by what arrives in its input buffer.
  - `read_exact` sees a schedule of chunks, one per pass of its loop.
  - Its wall-clock deadline becomes a budget of loop passes.
- The worker thread and its `threading.Event` are replaced by a number: `stopAt`, the count of stop-flag readings that find the flag still clear.
  - The flag is cleared only by `start`, and `start` refuses while a worker is alive. So during a run, once a reading finds the flag set, every later reading does too.
- Each exchange of a run receives its own reply from a `device` sequence. A reply is either the chunks that arrive or a port exception.

The code sleeps `gap_word` after every word, the last word of a round included (`uartapp.py:274`); `Round` counts one pause per exchange. It sleeps `gap_frame` after every round that the flag ends or that runs to its end (`uartapp.py:276`), but not after a round that a port failure cuts short; `RunRounds` counts those pauses the same way.

## Model

| member | source | states |
|---|---|---|
| Hex32.ParseCleanedMeaning | uartapp.py:26-35 | After cleaning, the outcome has four cases: empty text is `Empty`; a leading `#` is `Comment`; otherwise the digits after one optional `0x`/`0X` must be a non-empty hex string (`NotHex`) whose value is at most 0xFFFFFFFF (`OutOfRange`). Each case holds exactly when its condition holds, and the word returned is the base-16 value of the digits. |
| Hex32.ParseHex32Meaning | uartapp.py:24-35 | A line is parsed after stripping whitespace and deleting every `_` and space. It is `Empty` exactly when nothing is left and `Comment` exactly when what is left starts with `#`. A word is returned only as the base-16 value of the remaining digits; being a `Word32`, it lies in 0..0xFFFFFFFF. |
| Hex32.StripMeaning | uartapp.py:25 | `strip()` returns the slice of the input between its leading and trailing whitespace. The whitespace is Python's `isspace` set. The slice is empty or starts and ends with non-whitespace. |
| Hex32.RemoveSeparatorsMeaning | uartapp.py:25 | Deleting separators never lengthens the text and leaves no `_` or space in it. A text without separators is left as it is. |
| Hex32.RemoveSeparatorsKeeps | uartapp.py:25 | Every character other than `_` and space is kept, in its place between what remains of the text before it and what remains of the text after it. |
| Hex32.ParseDigits | uartapp.py:30-35 | A plain hex-digit string parses to its own value, and is refused as `OutOfRange` exactly when that value exceeds 0xFFFFFFFF. |
| Hex32.PrefixOptional | uartapp.py:30-31 | A `0x` or `0X` prefix in front of a digit string does not change the parse. |
| Hex32.HexDigitsValue | uartapp.py:134 | The `k`-digit zero-padded hex rendering of `v < 16^k` reads back as `v`, in either digit case. |
| Hex32.FormatRoundTrip | uartapp.py:30-32 | `"0x"` followed by the 8-digit rendering of a word, upper or lower case, parses back to the word. |
| Hex32.DisplayRoundTrip | uartapp.py:131-134 | Parsing the list's display form `0x{w:08X}` of a word gives the word back. |
| Hex32.RemoveSeparatorsAppend | uartapp.py:25 | Separator removal distributes over concatenation. |
| Hex32.StripSpaces | uartapp.py:25 | When the only whitespace in a text is the space character, stripping it first changes nothing after separator removal. |
| Hex32.RemoveSeparatorsInsert | uartapp.py:25 | Inserting one `_` or space anywhere does not change the text after separator removal. |
| Hex32.CleanedInsert | uartapp.py:25 | Inserting one `_` or space anywhere does not change the cleaned text, when the only whitespace is spaces. |
| Hex32.SeparatorInsensitive | uartapp.py:24-35 | Inserting one `_` or space anywhere in a line does not change the parse, when the line's only whitespace is spaces. |
| WordList.Kept | uartapp.py:148-151 | The lines that are parsed, stripped: never more than the input lines, and none of them empty or starting with `#`. |
| WordList.ParseLinesKept | uartapp.py:148-156 | The line loop parses exactly the kept lines, in order: skipped lines contribute nothing. |
| WordList.ParseAllWords | uartapp.py:152-153 | When all kept lines parse, the words are their values, one per line, in order. |
| WordList.ParseAllFailure | uartapp.py:152-156 | When some kept line fails, the reported line and reason are those of the first failing line. |
| WordList.FirstFailureCons | uartapp.py:148-156 | A line that parses, placed before the others, moves the first failure back by one place. |
| WordList.ParseLinesWords | uartapp.py:148-153 | When every kept line parses, the words are those lines' values, one per kept line, in line order. |
| WordList.ParseLinesFailure | uartapp.py:152-156 | When parsing fails, the reported line is the first kept line that does not parse, and it is reported with that line's reason. |
| WordList.ParseLinesOkIff | uartapp.py:148-156 | Parsing succeeds exactly when every kept line parses. |
| WordList.BatchMeaning | uartapp.py:145-162 | A batch is accepted exactly when some line is kept and every kept line parses. An accepted batch yields the kept lines' words in order. |
| WordList.SkippedLinesIgnored | uartapp.py:149-151 | A blank or `#` line inserted anywhere does not change the outcome. |
| WordList.PrependNothing | uartapp.py:147 | Starting from no collected words leaves a parse result as it is. |
| WordList.PrependPrepend | uartapp.py:153 | Collecting one more word in front of the rest of a parse is the same as prepending it to the collected words. |
| Frame.Encode | uartapp.py:232 | The request is exactly 4 bytes, and their big-endian value is the word. |
| Frame.EncodeOnto | uartapp.py:232 | Every 4 bytes are the request of exactly one word: their big-endian value is a word that encodes back to them. |
| Frame.EncodeInjective | uartapp.py:232 | Distinct words give distinct requests. |
| Frame.Classify | uartapp.py:241-258 | The record keeps the round, index and request. It is SHORT exactly when the response is not 14 bytes, and then carries the response and its length. Otherwise echo, rx1, rx2 and the two statuses are 4, 4, 4, 1 and 1 bytes that concatenate to the response. Each status passes exactly when it is `K` (0x4B). |
| Frame.ClassifyFields | uartapp.py:244-248 | The fields of a 14-byte response are exactly its slices [0:4], [4:8], [8:12], [12] and [13]. |
| Frame.FullPassIff | uartapp.py:257-258 | Both statuses pass exactly when bytes 12 and 13 are both `K`. |
| Frame.EchoRoundTrip | uartapp.py:232-248 | When the device echoes the request, the echo field equals the request and decodes to the word. |
| Frame.EchoWithTwoK | uartapp.py:232-258 | An echoing device that sends rx1, rx2 and two `K` statuses yields a full record with those fields, passing on both counts. |
| Reader.Take | uartapp.py:42-44 | At most `n` bytes are taken, and they are a prefix of what is waiting. |
| Reader.ArrivedGrows | uartapp.py:41-44 | What has arrived only grows: an earlier view is a prefix of a later one. |
| Reader.ReadExact | uartapp.py:38-47 | The reader returns the first `n` bytes, or fewer, of everything that arrived before the deadline, in arrival order. It returns fewer than `n` bytes only when the deadline has passed. It stops at the first pass where `n` bytes are available, and the bytes it leaves unread are exactly the rest of what arrived. |
| Reader.DelayedReply | uartapp.py:38-47 | Suppose a device stays silent for `d` passes and then sends its reply at once. The reader returns the reply, cut to `n` bytes, if `d` is within the deadline, and nothing otherwise. |
| Uart.RunRounds | uartapp.py:217-281 | Record `j` of a run is the classification of the response to word `j % len` in round `j / len + 1`. Records come in strictly increasing (round, index) order, with rounds counted from 1. A run that stops has made exactly as many exchanges as there were clear flag readings after the per-round ones. A failure while opening the port ends the run at once with no record and the opening error. A port failure in exchange `j` ends the run with that error after `j` records, in the middle of the last round begun and before the flag reads set. No exchange begins after the flag reads set. There is one `gap_word` pause per record, and one `gap_frame` pause per round begun, except a round that a port failure cuts short. |
| Uart.Exchange | uartapp.py:232-258 | One exchange logs the classification of the request of the word, against the first 14 bytes, or fewer, that arrived before the deadline. |
| Uart.RoundStep | uartapp.py:228-272 | Logging the exchange of word `i` of round `r` keeps the records complete and in order up to position `i + 1`. |
| Uart.Round | uartapp.py:228-274 | Each exchange checks the flag first, sends the request of the next word of the snapshot and logs its classified record. The round extends the earlier records, in order, and after a round not cut short by the flag or a port failure it has handled every word once. A port failure ends the round before its last word is logged, with that failure as the error. There is one `gap_word` pause per exchange. |
| Uart.RecordPosition | uartapp.py:227-232 | Within a run, record `j` has round `j / len + 1`, index `j % len` and the request of that word, so a completed round has no gaps. |
| Uart.TwoWordScenario | uartapp.py:224-258 | With words 1 and 2 and a device that echoes each word followed by 0xAAAAAAAA, 0xBBBBBBBB, `K`, `K`, both exchanges of round 1 pass on both counts, in list order. |
| Frame.DivModOf | uartapp.py:228-232 | Dividing `q * m + i` by `m`, for `i < m`, gives `q` with remainder `i`. It places exchange `q * len + i` at position `i` of round `q + 1`, and it splits a word into its bytes. |
| Uart.RemoveAt | uartapp.py:193 | `del words[idx]` keeps the elements before `idx` in place and shifts the later ones down by one. |
| Uart.RemoveAtMultiset | uartapp.py:193 | Deleting an entry removes exactly one occurrence of that word and nothing else. |
| Uart.App.constructor | uartapp.py:65-74 | The application starts with an empty list, no worker and a clear stop flag. |
| Uart.App.AddCodes | uartapp.py:145-162 | The outcome is the batch rule applied to the entered lines. The list is extended by exactly the new words when the batch is accepted, and is unchanged otherwise. |
| Uart.App.ImportFromFile | uartapp.py:166-186 | When no file is chosen or it cannot be read, nothing changes. Otherwise the file's lines follow the same batch rule, with the same all-or-nothing effect on the list. |
| Uart.App.DeleteSelected | uartapp.py:188-194 | An entry is deleted exactly when a valid index is selected, and the list is then that index removed. Otherwise the list is unchanged. |
| Uart.App.ClearAll | uartapp.py:196-198 | The list becomes empty. |
| Uart.App.Start | uartapp.py:200-211 | Start is refused while a worker is alive, and otherwise refused when the list is empty. Only a start that goes ahead clears the stop flag and starts a worker; a refused start changes nothing. |
| Uart.App.Stop | uartapp.py:213-215 | The stop flag is set. |
| Uart.App.RunUartLoop | uartapp.py:217-281 | The worker's run over the current list ends with the worker no longer alive. It makes the same promises as `RunRounds`, with no clear flag reading when the flag is already set as the worker begins. Its records match their exchanges in (round, index) order; a stopped run has made as many exchanges as there were clear readings after the per-round ones; a port failure ends it mid-round with that error; the `gap_word` and `gap_frame` pauses are counted. A flag set before the worker begins gives no exchange at all and a `STOPPED` end, unless the port fails to open. |
| Uart.StartTwice | uartapp.py:200-211 | A second `start` before the worker ends is refused and leaves the list and the flag as the first one set them. |

## Left out

- The Tk user interface is not modelled. This covers windows, message boxes, file dialogs, list rendering and `after` marshalling. Only the word list itself is modelled.
- Log-line text is not modelled: timestamps, hex rendering, `decode(errors="replace")`, and the log file and its writes, including its truncation by `clear_log`. A run produces `Record` values, and the `START`, `STOPPED` and `ERROR:` lines appear as the outcomes of `Start` and `RunRounds`.
- The serial port is not modelled as a device. Opening it, `reset_input_buffer` and `write` are not modelled; a port exception is an input. Each exchange reads only its own reply, because the input buffer is reset before every write.
- Real time is not modelled. `perf_counter`, the sleeps and the 0.2 s receive timeout become a budget of reader passes. `gap_word` and `gap_frame` appear only as counted pauses. The 200 ms setting is not bound to a number of passes.
- Threads are not modelled. A run is sequential, and the stop flag's timing is the `stopAt` input.
- Concurrent edits of the list during a run are not modelled. The round loop takes a snapshot of the list, and the model runs all rounds over the list as it was when the run began.
- `int(self.baud_var.get())` at `uartapp.py:219` is outside the `try`. A bad baud rate ends the worker without an `ERROR` line. This is not modelled.
- Hex32.ParseHex32 accepts less than Python's `int(s, 16)`. Python also accepts a leading sign, a second `0x` after the prefix, whitespace other than spaces left at either end of the digits (a tab after `0x`, for instance), and non-ASCII decimal digits. The model rejects these as `NotHex`.
- Hex32.SeparatorInsensitive is proved for lines whose only whitespace is the space character. Other whitespace at the ends of a line is stripped and stays a separate case.
- Uart.App.ImportFromFile: "no file chosen" and "the file could not be read" are one input case, because both leave the list unchanged. The error text differs between `add_codes` and `import_from_file`; the model carries the failing line and the reason instead.
- Uart.App.DeleteSelected: an index outside the list raises `IndexError` inside a Tk callback, which leaves the list unchanged. The model returns `false` for it.
