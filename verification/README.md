# Pico MQTT module: the bounded-buffer logic, in Dafny

This project models the buffer-handling logic of the Pico W MQTT module
and its example program, and proves properties of that model:

- `mqtt_parse_topic` (module `TopicParser`) cuts the `Topic` or `Payload`
  string of the session record at every '/'. The pieces go into the fixed
  `SubTopic[10][40]` / `SubPayload[10][40]` grids: one leading '/' is
  dropped, segments are cut to 39 characters, and segments after the tenth
  are dropped. `Tokenize` states the outcome functionally. `ParseInto`
  follows the C index loop (leading slash, separator, character write and
  the skip over a truncated field), and its postcondition says it computes
  exactly `Tokenize`.
- `input_string` (module `LineReader`) is a fold over a sequence of console
  events (a time-out or a byte). The reader keeps the stored bytes, the
  echoed bytes and whether the loop has exited. The byte lives in an `INT8`,
  so 0xFF reads as the time-out code.
- `log_info` (module `Logger`) is modelled as the bytes sent to the console
  for an already formatted message. It covers the terminal gate, the
  "home"/"cls" control words, the bare print of a message that starts with
  '\r', the `[%5u %u] ` location, and the `[name]` tag with its cut and
  padding.
- `util_to_lower`, the `%2.2X` hexadecimal digits and the `%u`/`%5u`
  decimal digits and padding of `log_info` are in module `Ascii`.
- The id text built by `get_pico_unique_id` is in module `UniqueId`: eight
  bytes become "HHHH-HHHH-HHHH-HHHH".
- The device-name table of `get_pico_identifier` is in module `Identifier`.

Module `CStrings` holds the conventions shared by all modules. A C string
is a `string` without '\0'. A fixed C buffer row is a `seq<char>` of its
declared width, padded with '\0'.

The model follows the code as written. In particular, <Esc> as the first
key of `input_string` stores {ESC, '\0'} and moves the index to 2, but it
does not end the read: only <Enter> or a full line does
(Pico-MQTT-Example.c:541-550, :572). The terminal menu expects otherwise:
right after the call it tests `String[0] == 0x1B` to go back to the menu
(Pico-MQTT-Example.c:963-964), and with the code as written that test is
reached only once the read ends, on <Enter> or on a full line of 128
bytes after the <Esc>.

## Model

| member | source | states |
|---|---|---|
| TopicParser.Tokenize | Pico-MQTT-Module.c:290-368 | The grid the call leaves: it has the declared `[count][length]` shape. Its rows are stated by `TokenizeContents`, `RoundTrip` and `SurplusFieldsDropped`, and `ParseInto` proves the C loop computes it. |
| TopicParser.MqttParseTopic | Pico-MQTT-Module.c:270-317 | Selector 1 re-tokenizes the topic into `SubTopic` and selector 2 the payload into `SubPayload`. In either case the rest of the record is unchanged. Any other selector leaves the whole record as it was. |
| TopicParser.ParseInto | Pico-MQTT-Module.c:290-368 | The wipe (Pico-MQTT-Module.c:290-293 for topics, :304-306 for payloads) followed by the scanning loop at :320-368 leaves exactly the grid `Tokenize` describes: split at '/', one leading '/' absorbed, each segment cut to `length - 1`, at most `count` segments. |
| TopicParser.Advance | Pico-MQTT-Module.c:326-354 | One pass of the loop body keeps the loop invariant: the grid is the layout of the fields read so far, the item index is below `count`, and the character count is below `length - 1` unless the field is being skipped. It always moves forward, and when the `count`-th separator stops the loop the grid is already final. |
| TopicParser.SkipField | Pico-MQTT-Module.c:351-354 | The truncation loop stops at the next '/' or the end of the source. It does not change the field count or the grid. |
| TopicParser.TokenizeContents | Pico-MQTT-Module.c:337-354 | Row k holds the k-th '/'-field cut to `length - 1` characters. Rows past the last field are empty. Every row is '\0'-terminated within its width. |
| TopicParser.RoundTrip | Pico-MQTT-Module.c:323-368 | With no more than `count` fields and none longer than `length - 1`, joining the stored segments with '/' gives back the source minus its leading '/'. |
| TopicParser.SurplusFieldsDropped | Pico-MQTT-Module.c:337-339 | Fields after the `count`-th leave no trace: the grid equals the one for the first `count` fields alone. |
| TopicParser.BlankSources | Pico-MQTT-Module.c:290-332 | The empty source leaves every row empty, and a lone '/' gives the same grid as the empty source. |
| TopicParser.DoubleLeadingSeparator | Pico-MQTT-Module.c:326-341 | Only the '/' at index 0 is absorbed: "//a" stores "", then "a", then empty rows. |
| TopicParser.InnerDoubleSeparator | Pico-MQTT-Module.c:326-341 | "a//b" stores "a", "", "b", then empty rows. |
| TopicParser.ThreeSegments | Pico-MQTT-Module.c:323-368 | "a/b/c" stores one field per row, then empty rows. |
| TopicParser.LongFieldTruncated | Pico-MQTT-Module.c:347-354 | A source without '/' lands in row 0 cut to 39 characters, and every other row is empty. |
| TopicParser.JoinFields | Pico-MQTT-Module.c:326-341 | Joining the '/'-fields of a string with '/' gives the string back. |
| TopicParser.FieldsJoin | Pico-MQTT-Module.c:326-341 | Splitting a '/'-join of '/'-free fields gives the fields back. |
| LineReader.InputString | Pico-MQTT-Example.c:495-587 | `input_string` as written. A read keeps at most 128 bytes, and the terminated buffer needs at most 129. When the events run out first, the line is below 128. The per-key lemmas below describe each branch, and `OverflowWitness` shows 129 is reached. |
| LineReader.AsInt8 | Pico-MQTT-Example.c:497-513 | The polled value read as a signed byte: its value modulo 256 is the byte received. |
| LineReader.Step | Pico-MQTT-Example.c:509-572 | After one loop pass the index is at most the limit. The loop exits exactly when the index reaches the limit or the value read is <Enter>. |
| LineReader.Run | Pico-MQTT-Example.c:509-572 | A read never stores more than the limit, and it stops at the limit. |
| LineReader.IgnoredEvents | Pico-MQTT-Example.c:515-528 | A time-out, a 0 byte and 0xFF change nothing, and the read goes on. |
| LineReader.IgnoredEventsInvisible | Pico-MQTT-Example.c:515-528 | Ignored events may be removed from anywhere in the input without changing the outcome. |
| LineReader.BackspaceKey | Pico-MQTT-Example.c:530-539 | <Backspace> drops the last stored byte and echoes BS, ' ', BS. On an empty line it does nothing. |
| LineReader.EscapeKey | Pico-MQTT-Example.c:541-550 | <Esc> as the first key stores {ESC, '\0'}. Elsewhere it keeps the line. At any index it echoes '\r'. It never ends the read. |
| LineReader.EnterKey | Pico-MQTT-Example.c:552-561 | <Enter> always ends the read and echoes '\r'. It is stored, with a '\0' after it, only as the first key. |
| LineReader.OrdinaryKey | Pico-MQTT-Example.c:563-569 | Any other byte is appended and echoed. The read ends exactly when that fills the line. |
| LineReader.PlainTyping | Pico-MQTT-Example.c:563-572 | Without editing keys the line and the echo are both the typed bytes, in order, up to the limit. The read is over exactly when the limit was reached. |
| LineReader.TerminatorIndex | Pico-MQTT-Example.c:572-574 | The terminator goes right after the stored bytes, so the caller's buffer needs the limit plus one byte. |
| LineReader.EditedLine | Pico-MQTT-Example.c:530-574 | 'a', 'b', <Backspace>, 'c', <Enter> stores "ac" with the echo 'a', 'b', BS, ' ', BS, 'c', '\r'. |
| LineReader.EnterAlone | Pico-MQTT-Example.c:552-561 | <Enter> as the first key ends the read with {CR, '\0', '\0'} in the buffer. |
| LineReader.EscapeThenEnter | Pico-MQTT-Example.c:541-561 | <Esc> alone keeps the loop waiting. A following <Enter> ends it with {ESC, '\0', '\0'}. |
| LineReader.Terminated | Pico-MQTT-Example.c:574 | The caller's buffer after the call: the stored bytes, then '\0' at the final index, one past the line. |
| LineReader.OverflowWitness | Pico-MQTT-Example.c:572-574 | 128 ordinary keys fill the line, and the terminator lands at index 128, one past `main`'s 128-byte `String`. |
| LineReader.InputStringFitting | Pico-MQTT-Example.c:572-574 | With the loop bound one lower, the line and its terminator always fit 128 bytes. |
| Ascii.ToLower | Pico-MQTT-Example.c:1230-1236 | The reference lowering, also used for `strlwr` at :627 and :641. It has the same length, and each character is lowered on its own. `UtilToLower` is proved equal to it, and `ToLowerIdempotent` holds. |
| Ascii.UtilToLower | Pico-MQTT-Example.c:1224-1239 | Only 'A'..'Z' change, each to its code plus 0x20. The length is kept, and the result is the lower-cased string. |
| Ascii.LowerChar | Pico-MQTT-Example.c:1232-1233 | An upper-case letter gets bit 5 set and becomes 'a'..'z'. Any other character is kept. |
| Ascii.ToLowerIdempotent | Pico-MQTT-Example.c:1230-1236 | Lowering twice is lowering once. |
| Ascii.Hex2 | Pico-MQTT-Example.c:479 | `%2.2X` prints two characters. Both are upper-case hexadecimal digits, and their value is the byte. |
| Ascii.Hex2OfDigits | Pico-MQTT-Example.c:479 | Any two upper-case hexadecimal digits are exactly what `%2.2X` prints for the byte they denote. |
| Ascii.Decimal | Pico-MQTT-Example.c:662 | `%u` prints at least one digit, only decimal digits, and no leading zero. `DecimalRoundTrip` gives its value back. |
| Ascii.DecimalRoundTrip | Pico-MQTT-Example.c:662 | The digits `%u` prints denote the number printed. |
| Ascii.PadLeft | Pico-MQTT-Example.c:662 | `%5u` right-aligns in five columns and keeps wider numbers whole. |
| UniqueId.RenderPrefix | Pico-MQTT-Example.c:476-481 | The text after the loop has handled the first n bytes. `PrefixLength`, `PrefixDigits` and `PrefixDashes` give its length, where each byte's digits sit, and where the dashes sit. |
| UniqueId.Render | Pico-MQTT-Example.c:476-481 | The whole id text is 19 characters. `RenderShape` gives its layout. |
| UniqueId.Parse | Pico-MQTT-Example.c:476-481 | Reading an id text back. A successful read comes from a 19-character text and gives eight bytes. `ParseRender` and `RenderParse` make it the exact inverse of `Render`. |
| UniqueId.RenderShape | Pico-MQTT-Example.c:476-481 | The id text is 19 characters, so it fits the 40-byte buffers. It has a '-' at 4, 9 and 14, and the two digits of byte k at `2k + k/2`. |
| UniqueId.ParseRender | Pico-MQTT-Example.c:476-481 | Reading the id text back gives the eight bytes. |
| UniqueId.RenderParse | Pico-MQTT-Example.c:476-481 | Any text the reader accepts is the rendering of the bytes it returns. |
| UniqueId.RenderInjective | Pico-MQTT-Example.c:476-481 | Different ids never render alike. |
| Identifier.StrNEqual | get_pico_identifier.c:13 | `strncmp(a, b, n) == 0` on C strings. `StrNEqualIsPrefix` characterizes it with n = `strlen(a)`. |
| Identifier.LookupFrom | get_pico_identifier.c:13-44 | The chain of tests from entry k on. The result is the name it started with, or the name of an entry from k on that matches. |
| Identifier.Lookup | get_pico_identifier.c:8-50 | `get_pico_identifier`. The name is "UFO-Pico" or the name of a matching entry. `LookupIsLastPrefixMatch` pins down which one. |
| Identifier.StrNEqualIsPrefix | get_pico_identifier.c:13-44 | `strncmp(id, entry, strlen(id)) == 0` holds exactly when `id` is a prefix of the entry. |
| Identifier.LookupIsLastPrefixMatch | get_pico_identifier.c:11-44 | The name is that of the last entry the id is a prefix of, or "UFO-Pico" when there is none. |
| Identifier.UnknownIffNoMatch | get_pico_identifier.c:11-44 | "UFO-Pico" comes out exactly when no entry has the id as a prefix. |
| Identifier.FullIdMatchesAtMostOne | get_pico_identifier.c:13-44 | An id of 19 characters or more matches at most one entry. A longer one matches none. |
| Identifier.LaterEntryWins | get_pico_identifier.c:13-29 | "E661-6408-4329" matches the Atelier and Lounge entries and gets "Lounge". |
| Identifier.EmptyIdGetsLastName | get_pico_identifier.c:43-44 | The empty id matches every entry and gets "Raymonde". |
| Identifier.RetiredEntryUnknown | get_pico_identifier.c:46-47 | The commented-out entry's id gets "UFO-Pico". |
| Identifier.RenderedIdNamesAtMostOne | get_pico_identifier.c:13-44 | A rendered unique id names at most one entry. |
| Logger.LogInfo | Pico-MQTT-Example.c:598-713 | `log_info` as written, from the formatted message. It is described by `SilentWithoutTerminal`, `ControlWords`, `LeadingReturnPrintedTwice`, `PlainMessage` and `LongMessageCut`. |
| Logger.Emit | Pico-MQTT-Example.c:612-710 | The terminal gate, the 511-byte cut, the substitution and the bare '\r' print around a given header. It is described by the same lemmas. |
| Logger.Message | Pico-MQTT-Example.c:627-648 | The message is replaced only when it lowers to "home" or "cls", and then by an escape sequence. `ControlWords` gives which one. |
| Logger.Location | Pico-MQTT-Example.c:662 | `[%5u %u] ` opens with '[' and ends with "] ". `LocationLayout` gives the rest. |
| Logger.NameTag | Pico-MQTT-Example.c:683-694 | The printed tag is bracketed and at most 25 characters long. `TagWidth` gives it exactly. |
| Logger.Padding | Pico-MQTT-Example.c:703-704 | The padding is blanks only. Name plus padding is 22 characters, or the name alone when it is longer. |
| Logger.Header | Pico-MQTT-Example.c:662-706 | The header is 26 characters longer than the location field, and 27 for a 23-character name. |
| Logger.SilentWithoutTerminal | Pico-MQTT-Example.c:612 | With no terminal attached nothing is printed. |
| Logger.LowerMatches | Pico-MQTT-Example.c:627-641 | A message lowers to a lower-case word exactly when each of its characters is that letter in either case. |
| Logger.ControlWords | Pico-MQTT-Example.c:627-648 | "home" and "cls", in any letter case, print the header and then the VT100 cursor-home or clear-screen sequence. |
| Logger.LeadingReturnPrintedTwice | Pico-MQTT-Example.c:659-710 | A message starting with '\r' is printed bare, then the header, then the message again. |
| Logger.PlainMessage | Pico-MQTT-Example.c:659-710 | Any other message that fits the buffer is printed once, after the header, unchanged. |
| Logger.LongMessageCut | Pico-MQTT-Example.c:600-710 | A longer message is cut to the 511 bytes the 512-byte buffer keeps. A cut message that starts with '\r' is still printed twice. |
| Logger.LocationLayout | Pico-MQTT-Example.c:662 | The location field is '[', then the line number right-aligned in five columns (blank-padded, wider numbers kept whole), then a blank, the core number's digits and "] ". |
| Logger.TagWidth | Pico-MQTT-Example.c:683-704 | A name of up to 23 characters is bracketed whole. A longer one is cut to 21 characters plus "~]". Tag plus padding is 24 wide, except 25 for a 23-character name. |
| Logger.TagMisaligned | Pico-MQTT-Example.c:683-704 | Any 23-character name makes tag plus padding 25 wide, one more than for any name of another length. |
| Logger.AlignedNameTag | Pico-MQTT-Example.c:683-692 | With the cut at a bracketed length over 24, tag plus padding is always 24 wide. The name is kept whole up to 22 characters, else cut to 21 plus "~]". |
| Logger.LogInfoAligned | Pico-MQTT-Example.c:598-713 | `log_info` with the corrected tag. `AlignedHeader` states its header width. |
| Logger.AlignedHeader | Pico-MQTT-Example.c:662-706 | With that tag, every message starts 26 columns after the location field, whatever the caller's name. |

## Left out

- Wi-Fi bring-up, the lwIP MQTT client calls (connect, subscribe, publish, unsubscribe, disconnect) and the address conversions are left out. They are library code outside the repository.
- `main`, the terminal menu, the MQTT callbacks and the display and initialisation helpers are left out: they are interactive glue around the modelled functions.
- Hardware and SDK calls become inputs:
  - `stdio_usb_connected` is a boolean.
  - `getchar_timeout_us` is the event sequence.
  - `get_core_num` is a number.
  - `pico_get_unique_board_id` gives the eight id bytes.
- `sleep_ms`, `time_us_32`, the watchdog and the USB boot reset have no effect on the modelled data.
- The `#if 0` blocks are left out: they are compiled out. These are the idle time-out of `input_string`, the time stamp of `log_info` and the component dump of `mqtt_parse_topic`.
- The diagnostic `log_info` calls inside `mqtt_parse_topic` are left out: they only print.
- The `vsnprintf` formatting of the caller's arguments in `log_info` is left out. The model starts from the formatted message. That message is also passed to `printf` as a format, so the model requires it to hold no '%'.
- The `strcpy` of topic and payload text into the session record (in the callbacks and the menu) is left out. Only its outcome is required: a topic shorter than the 100-byte `Topic` buffer.
- `MQTT_OUTPUT_RINGBUF_SIZE` comes from lwIP and is not part of this model. The payload is therefore any C string.
- TopicParser.MqttParseTopic: the `UINT16` scan index is not modelled as wrapping. A payload of 65536 bytes or more would need a ring buffer far larger than the lwIP default.
- Ascii.UtilToLower requires a string shorter than 256 bytes. Its `UINT8` index wraps to 0 on a longer string, and the loop then never reaches the terminator.
- Logger.LogInfo requires a name shorter than 510 characters: `sprintf` writes the bracketed name into a 512-byte buffer. It also requires a line number below 2^32, because the line number is an unsigned 32-bit `UINT`.
- `strlwr` (used by `log_info`) is taken to lower only 'A'..'Z', like `util_to_lower`.
- Menu option 9, the byte layout of integers, is left out: it depends on the platform's endianness and holds no logic.

## Findings

| source | as written | input that shows it | evidently intended | confidence | as-written member | corrected member |
|---|---|---|---|---|---|---|
| Pico-MQTT-Example.c:572-574 | the loop runs while the index is below 128 and then writes '\0' at the index, while `main` passes `String[128]` (Pico-MQTT-Example.c:123) | 128 ordinary keys: the terminator is written at `String[128]` | stop one byte earlier so the line and its terminator fit 128 bytes | not executed | LineReader.OverflowWitness | LineReader.InputStringFitting |
| Pico-MQTT-Example.c:686-704 | the tag is cut only when the bracketed name is longer than 25, but padding stops at 22 name characters | any 23-character function name: the tag plus padding is 25 wide instead of 24 (latent here: the longest function that calls `log_info`, `mqtt_incoming_data_cb`, has 21 characters) | cut once the bracketed name is longer than 24, so every message starts in the same column | not executed | Logger.TagWidth | Logger.AlignedHeader |
