# cardgetter: the read, decode and dispatch loop

cardgetter is a Windows tray program that bridges a serial RFID card reader to
the desktop. Its one piece of logic is the body of the read loop in `main`.
Each iteration reads into a reused 30-byte buffer and decodes the whole buffer
as text. It skips frames that report "No card". Otherwise it splits the text on
`[` and `]` and matches the first segment, the card type tag:

- `Mifare`: the second segment is parsed as a base-16 `u32`. The decimal
  rendering goes to the clipboard and Ctrl-V, Enter is typed.
- `Em-Marine`: the clipboard gets `-Em-Marine-` and a toast is shown.
- anything else: the clipboard gets `--------` and a "not recognised" toast is
  shown.

This project models that loop body in Dafny and proves properties about it.

Modules, one file each:

- `RadixText` (`radix.dfy`): Rust's `u32::from_str_radix` and `u32::to_string`.
  It relates both to the positional value of a digit string and proves the
  decimal round trip.
- `FrameParser` (`frame_parser.dfy`): the "No card" containment test and the
  split on `[`/`]`. The split is proved lossless, and its first segment is
  proved to be the longest prefix without a delimiter.
- `CardDecoder` (`card_decoder.dfy`): the `Card` record and the pure decision
  `Decode(text)`. The outcomes are `NoCard`, `Identified`, `HexError`,
  `Malformed`, `Marked` and `Unrecognized`. `Malformed` makes explicit the
  `card_info[1]` index that the code takes without a bounds check.
- `Dispatcher` (`dispatcher.dfy`): the ordered host effects of each outcome,
  as values: clipboard write, key down/click/up, toast. It also models the
  clipboard as a single slot that every write overwrites.
- `ReaderLoop` (`reader_loop.dfy`): the imperative part. The class `Reader`
  holds the 30-byte `array<byte>` and the log of performed effects. `Step` is
  one iteration, `Handle` is its part after a successful read, and `Run` is the
  loop over a finite sequence of reads. They are proved against the pure
  functions `NextBuffer`, `StepEffects`, `RunBuffer`, `RunEffects` and
  `Dispatch(Decode(...))`.

Main results:

- `BufferFrameNeverMalformed`: the unchecked index is safe for text decoded
  from the full 30-byte buffer. When the first segment is exactly `Mifare`,
  the text is longer than the tag, so a delimiter follows and a second segment
  exists. `Handle` indexes `segments[1]` exactly as the code does, after
  `MifareHasPayload` shows that the index is in range.
- `FromStrRadixSpec`: the hexadecimal parse succeeds exactly for an optional
  `+` followed by hex digits whose value is below 2^32. `DecimalRoundTrip`: the
  clipboard text parses back to the same `u32`.
- `DispatchShape` and `DispatchOverwritesClipboard`: the fixed effect order,
  the toast counts, and that the clipboard is overwritten.
- `Step` and `Run`: only `buffer[0..n]` changes on a read of `n` bytes. The
  whole buffer feeds the decoder. Timeouts and other read errors change
  nothing and the loop goes on.

Behaviour of the code worth noting:

- `from_str_radix` accepts one leading `+` before the hex digits.
- The "not recognised" toast has the Russian title `Карта не распознана` and a
  second text line.
- A read error other than a timeout is printed and the loop continues. It is
  never fatal.

## Model

| member | source | states |
|---|---|---|
| RadixText.CharValue | src/main.rs:69 | a character is a decimal digit exactly when its value is below 10, and an ASCII letter or digit exactly when its value is below 36; every other character gets 36, which no radix accepts |
| RadixText.FromStrRadix | src/main.rs:69 | the parse reports `Empty` exactly when the payload is empty |
| RadixText.Accumulate | src/main.rs:69 | the digit scan never reports `Empty`, and a successful scan never returns less than the value it started from |
| RadixText.AccumulateDigits | src/main.rs:69 | on an all-digit string, the scan ends with the string's positional value when that is below 2^32, and with `PosOverflow` otherwise |
| RadixText.AccumulateRejects | src/main.rs:69 | a string with a non-digit character never scans to a value |
| RadixText.FromStrRadixSpec | src/main.rs:69 | base-16 parse is `Ok(v)` iff the payload is an optional `+` then one or more hex digits (either case) with value < 2^32, and then `v` is that value; an in-form numeral ≥ 2^32 gives `PosOverflow`; any other non-empty payload gives an error that is not `Empty` |
| RadixText.HexExample | src/main.rs:69 | `"1A2B"` parses to 6699 |
| RadixText.ToDecimal | src/main.rs:80 | the `u32` rendering is non-empty, all decimal digits, has no leading zero (except `"0"`), and its decimal value is the number |
| RadixText.DecimalRoundTrip | src/main.rs:80 | parsing the decimal rendering of any `u32` back gives the same `u32` |
| RadixText.DecimalExample | src/main.rs:80 | 6699 renders as `"6699"` |
| FrameParser.Contains | src/main.rs:60 | a pattern that occurs is no longer than the text, and a pattern the text starts with occurs |
| FrameParser.Split | src/main.rs:63-64 | the split yields exactly one more segment than the text has delimiters (so at least one), and no segment contains `[` or `]` |
| FrameParser.SplitReconstructs | src/main.rs:63-64 | putting the removed delimiters back between the segments, in order, gives the original text |
| FrameParser.FirstSegment | src/main.rs:63-66 | the tag is a prefix of the text, followed by a delimiter or by the end of the text |
| FrameParser.SplitAfterHead | src/main.rs:63-64 | a delimiter-free head followed by a delimiter is the first segment, and the remainder's segments follow it |
| FrameParser.SplitWithoutDelimiter | src/main.rs:63-64 | text without a delimiter splits into itself alone |
| FrameParser.SecondSegmentExists | src/main.rs:69 | when the first segment is shorter than the text, a second segment exists |
| CardDecoder.Tag | src/main.rs:63-66 | the tag `card_info[0]` is a prefix of the text and holds no `[` or `]` |
| CardDecoder.Decode | src/main.rs:59-69 | `NoCard` iff the text contains "No card"; otherwise exactly one branch is taken by exact tag comparison (Mifare: identified, hex error or malformed; Em-Marine: marked; any other tag: unrecognized); an identified card has `rfid` "Mifare" and the payload's hex value as id; a hex error carries the error kind `from_str_radix` reports on the payload, which is not an in-range hex numeral; `Malformed` iff the text has no sentinel, the tag is "Mifare" and there is no second segment |
| CardDecoder.MifareHasPayload | src/main.rs:66-69 | a text longer than "Mifare" whose tag is "Mifare" has a payload segment, so it never decodes to `Malformed` |
| CardDecoder.NoSentinelWithoutN | src/main.rs:60 | a text with no 'N' does not contain the sentinel |
| CardDecoder.DecodeMifareFrame | src/main.rs:67-74 | `Mifare[p]rest` is identified iff `p` is an in-range hex numeral, with id equal to its value; otherwise it is a hex error; an empty `p` is the `Empty` error |
| CardDecoder.DecodeEmMarineFrame | src/main.rs:93 | `Em-Marine[` followed by anything decodes to `Marked`: the payload is ignored |
| CardDecoder.DecodeEmptyTag | src/main.rs:106 | a frame whose tag is empty is unrecognized |
| CardDecoder.DecodeUnbracketed | src/main.rs:66-69 | a frame without delimiters is one tag; trailing characters make it unrecognized, and a bare "Mifare" is `Malformed` |
| CardDecoder.TagIsCaseSensitive | src/main.rs:66-67 | "mifare[1A2B]" is unrecognized: tags match case-sensitively |
| CardDecoder.MifareExample | src/main.rs:67-74 | "Mifare[1A2B]" identifies card 6699 |
| Dispatcher.Dispatch | src/main.rs:78-118 | an outcome does something iff it is an identified, Em-Marine or unrecognized card; what it does starts with a clipboard write and has at most five effects |
| Dispatcher.DispatchShape | src/main.rs:78-118 | no card, a hex error and a malformed frame do nothing; every other outcome writes the clipboard first; an identified card is then followed by Ctrl down, key 86, Ctrl up, key 13 and no toast; Em-Marine and unrecognized frames show exactly one toast and type no key |
| Dispatcher.ClipboardAfter | src/main.rs:78-111 | the clipboard afterwards holds either its initial content or the content of one of the clipboard writes performed |
| Dispatcher.ClipboardHoldsIdentifier | src/main.rs:78-81 | the clipboard text for an identified card parses back, in decimal, to its id |
| Dispatcher.ClipboardAfterAppend | src/main.rs:78-81 | after effects whose only clipboard write comes first, the clipboard holds that write, whatever came before |
| Dispatcher.DispatchOverwritesClipboard | src/main.rs:78-111 | after dispatching, the clipboard holds the outcome's text, whatever its history; dispatching the same outcome again leaves the same content |
| ReaderLoop.DecodeLossy | src/main.rs:59 | the decoded text has one character per buffer byte |
| ReaderLoop.Fill | src/main.rs:51-57 | a read of n bytes puts them at `buf[0..n]` and keeps `buf[n..]`; the length stays 30 |
| ReaderLoop.NextBuffer | src/main.rs:57 | the buffer keeps its length; a timeout or an error leaves it as it was; a read of n bytes puts them at the front and keeps the rest |
| ReaderLoop.StepEffects | src/main.rs:57-127 | a timeout or an error performs nothing; an iteration that does something starts with a clipboard write and performs at most five effects |
| ReaderLoop.RunBuffer | src/main.rs:56-57 | the buffer keeps its length across any sequence of reads |
| ReaderLoop.RunEffects | src/main.rs:56-128 | a run of n reads performs at most 5n effects |
| ReaderLoop.BufferFrameNeverMalformed | src/main.rs:51-69 | text decoded from the 30-byte buffer never reaches the missing-payload case |
| ReaderLoop.NoCardIsSilent | src/main.rs:59-60 | a buffer whose text contains "No card" produces no effect at all |
| ReaderLoop.EmptyReadRepeatsFrame | src/main.rs:57-59 | a read of zero bytes dispatches the previous buffer again |
| ReaderLoop.FailedReadsAreSilent | src/main.rs:123-126 | any run of timeouts and read errors leaves the buffer unchanged and performs nothing |
| ReaderLoop.ZerosDecode | src/main.rs:51-59 | zero bytes decode to NUL characters |
| ReaderLoop.AsciiRoundTrip | src/main.rs:59 | the bytes of an ASCII string decode back to the string |
| ReaderLoop.MifareScenario | src/main.rs:57-88 | reading "Mifare[1A2B]" into the zeroed buffer puts "6699" on the clipboard, then Ctrl-V and Enter |
| ReaderLoop.BareTagScenario | src/main.rs:57-66 | reading a bare "Mifare" into the zeroed buffer gives a NUL-padded tag, so the clipboard gets "--------" and the not-recognised toast |
| ReaderLoop.NoCardScenario | src/main.rs:57-60 | reading "No card detected" performs nothing, whatever stale bytes follow |
| ReaderLoop.Reader.constructor | src/main.rs:51 | the buffer is 30 zero bytes and no effect has been performed |
| ReaderLoop.Reader.Perform | src/main.rs:78-118 | one backend call: the effect is appended to the log, the buffer is unchanged |
| ReaderLoop.Reader.Step | src/main.rs:57-127 | the array becomes `NextBuffer` of its old contents; the log grows by exactly `StepEffects`, in order |
| ReaderLoop.Reader.Handle | src/main.rs:60-121 | the log grows by exactly the effects of the decoded outcome, in order, and the buffer is unchanged |
| ReaderLoop.Reader.Run | src/main.rs:56-128 | after a sequence of reads, the array is `RunBuffer` and the log grew by `RunEffects`: every read is handled in order and none stops the loop |

## Left out

- Tray icon, its label and the Quit menu item (src/main.rs:29-42). This is UI,
  and Quit calls `process::exit` from another thread.
- Reading `data/config.toml` and TOML deserialisation (src/main.rs:31-33). The
  `Config` struct is not part of this model.
- Serial-port settings, `open_with_settings`, and the open-failure branch with
  its toast and exit code 1 (src/main.rs:44-49, 130-150). The port is
  represented only by the `ReadResult` of each read.
- The loop is unbounded. `Run` covers any finite prefix of the reads.
- The clipboard, `enigo` and toast backends appear only as entries in the
  effect log. Their `unwrap`/`expect` panics, which would end the process, are
  not modelled.
- Toast sound (SMS) and duration (short) are the same for every toast and are
  not recorded in the effect.
- `println!`/`eprintln!` output, including the printed parse error and read
  error, is not modelled.
- DecodeLossy: maps each byte to one character: ASCII bytes to themselves, any
  other byte to U+FFFD. `from_utf8_lossy` would decode a valid multi-byte UTF-8
  sequence to a single character. The card tags and hex payloads are ASCII, so
  decoding does not change them. The `Malformed` safety argument still holds:
  30 bytes always decode to more than 6 characters.
- Step: a read that fails (timeout or other error) is taken to leave the
  buffer untouched.
- Decode: returns `Malformed` for a "Mifare" tag without a payload segment. The
  code would panic there. `BufferFrameNeverMalformed` proves that this case
  cannot arise from the 30-byte buffer.
- FromStrRadix: a lone `+` or `-` is reported as `InvalidDigit`, as in current
  Rust. Older Rust versions report `Empty` for a lone `+`. Either way, the
  frame is skipped.
