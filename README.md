# Rigol DS1000Z screen and waveform capture, modelled in Dafny

The scripts talk to a Rigol DS1000Z oscilloscope over its LAN (telnet)
port. They save either a PNG screenshot or a CSV file of the displayed
channels' waveforms. This project models the part of them that works on the
instrument's replies:

- `block_header.dfy` models the definite-length block of IEEE 488.2
  (section 8.7.9): `#`, a digit D, D length digits, the payload and a
  closing `\n`. It covers the three decoders `tmc_header_bytes`,
  `expected_data_bytes` and `expected_buff_bytes`.
- `bytes.dfy` holds bytes, ASCII digits, Python's `int()` on a digit
  string, and the zero-padded length field an instrument writes.
- `sequences.dfy` holds Python's clamped slicing and `str.split` /
  `str.join` on one separator, with their round trips.
- `transport.dfy` models the telnet session. The follow-up reads
  (`telnet.read_until(b"\n", timeout)`) are a queue of replies; once the
  queue is empty every read times out and returns nothing. It also gives a
  single specification (`ReadsTaken`, `Gathered`) of the "read more until
  satisfied or until a read comes back empty" loops.
- `screen_capture.dfy` models `capture_screenshot`: the class
  `ScreenTransfer` holds `buff`, grows it in a loop and cuts the image out
  of it.
- `waveform_csv.dfy` models `capture_csv_data`. It covers the display
  scan, the data reply loop, the sample split and the channel-by-channel
  merge.
- `csv_table.dfy` models the CSV merge itself: `MergeChannel` is the
  `current_row` loop, specified by the table of lines it produces.
- `instrument_id.dfy` models the `*IDN?` check in `main`.
- `save_filename.dfy` models the note-based file-name search of
  `build_save_filename`.

Replies to commands are parameters of the model. The follow-up reads come
from a `Transport.Session`. Which paths already exist is a set of strings.

## Model

| member | source | states |
|---|---|---|
| BlockHeader.TmcHeaderBytes | Rigol_functions.py:41-42 | defined exactly when byte 1 exists and is an ASCII digit; then the header length is 2 plus that digit, so it lies in 2..11; byte 0 is not read |
| BlockHeader.ExpectedDataBytes | Rigol_functions.py:45-46 | defined exactly when the header length is defined and the clamped field `buff[2:h]` is non-empty and all digits; the value is that field's decimal value, below 10^(h-2) |
| BlockHeader.ExpectedBuffBytes | Rigol_functions.py:49-50 | defined exactly when the payload length is |
| BlockHeader.DeclaredTotalEndsAtNewline | Rigol_functions.py:49-50 | for an encoded block followed by anything, the declared reply size is the block's own size, and the byte just before that size is the closing `\n` |
| BlockHeader.DecodeEncodedBlock | Rigol_functions.py:36-50 | decoding `#`, D, the D-digit zero-padded length, the payload and `\n`, whatever follows, gives header length D+2, the payload's length, the block's own size as total, and the payload at the declared place |
| BlockHeader.HeaderReencodes | Rigol_functions.py:41-46 | conversely, a complete decodable header is exactly the digit count and the zero-padded length field EncodeBlock writes for it |
| BlockHeader.AppendKeepsHeader | Rigol_functions.py:41-50 | once the header is complete, appending bytes changes none of the three results |
| BlockHeader.PrefixWithHeader | Rigol_functions.py:41-50 | a buffer that agrees with another on that other's complete header decodes to the same three results |
| BlockHeader.MarkerNotInspected | Rigol_functions.py:41-46 | replacing byte 0 changes none of the three results |
| Bytes.ParseInt | Rigol_functions.py:42 | `int()` on a byte string succeeds exactly when it is non-empty and all ASCII digits; the value is below 10 to the power of its length |
| Bytes.ZeroPaddedValue | Rigol_functions.py:36-40 | a length written as a zero-padded D-digit field reads back as that length |
| Transport.Session.ReadUntilNewline | OscScreenGrabLAN.py:215 | a read returns the next queued reply and drops it, or returns nothing once the queue is empty |
| Transport.ReadsTakenStops | OscScreenGrabLAN.py:207-218 | the modelled loop stops after reads that were each made while unsatisfied, each but the last brought bytes, and after them it is satisfied, the session is used up, or the last read was empty |
| Transport.StopsAfterUnique | OscScreenGrabLAN.py:207-218 | that is the only place such a loop can stop, so no chunk is read once the target is reached |
| Transport.GatheredPrefix | OscScreenGrabLAN.py:207-218 | the final buffer is the first reply followed by the consumed chunks in order, and it is the start of everything delivered |
| Transport.GatheredWithoutTimeouts | OscScreenGrabLAN.py:207-218 | when no read comes back empty, the loop either reaches its target or consumes everything the session delivers |
| Transport.GatheredAtEmptyRead | OscScreenGrabLAN.py:215-217 | an unsatisfied loop whose next read comes back empty takes that read and ends, with its buffer unchanged, whatever is still queued |
| Transport.RulesAgree | OscScreenGrabLAN.py:207-218 | two stopping rules that agree on every extension of the buffer stop the loop after the same read |
| Transport.GatheredLineShaped | OscScreenGrabLAN.py:295-306 | when it starts from `read_until` replies, the loop waiting for `\n` ends with a buffer whose only newline, if any, is its last byte |
| ScreenCapture.SavedPayload | OscScreenGrabLAN.py:231-234 | the slice succeeds exactly when the grown buffer's payload length decodes; it never holds more than the declared number of bytes, and when the buffer holds the whole declared payload it is exactly those bytes after the header |
| ScreenCapture.ScreenTransfer.ReadRemaining | OscScreenGrabLAN.py:207-218 | the loop leaves `buff` equal to the gathered buffer of the specification and the session with exactly the unread replies |
| ScreenCapture.ScreenTransfer.Capture | OscScreenGrabLAN.py:200-238 | the method's result is CaptureOutcome of the first reply and the queued reads; on success `buff` holds what is written; the session keeps exactly the reads the loop did not take, or all of them when the first header does not decode |
| ScreenCapture.SavesEncodedPayload | OscScreenGrabLAN.py:231-238 | a buffer that starts with an encoded block declares that block's size and yields its payload; trailing bytes are discarded |
| ScreenCapture.CaptureDelivered | OscScreenGrabLAN.py:200-238 | when the instrument sends a well-formed block, the first reply holds its whole header and no read times out, the capture writes exactly the payload, however the block is split |
| ScreenCapture.CaptureShort | OscScreenGrabLAN.py:221-229 | when everything delivered is shorter than the declared total, the capture aborts with that total and writes nothing |
| ScreenCapture.SavedLength | OscScreenGrabLAN.py:231-238 | with a complete header in the first reply, a successful capture writes exactly `expected_data_bytes` bytes, the ones after the header in the delivery |
| ScreenCapture.TruncatedHeaderSavesShortImage | OscScreenGrabLAN.py:204-234 | as written: a first reply that ends inside the length field makes the capture write 2 of the block's 5 payload bytes; the corrected capture writes all 5 |
| ScreenCapture.ScreenTransfer.CaptureWholeBlock | OscScreenGrabLAN.py:204-234 | the corrected capture's result is WholeBlockOutcome: the reading target is re-derived from the grown buffer's own header; the session keeps exactly the reads the loop did not take |
| ScreenCapture.WholeBlockDelivered | OscScreenGrabLAN.py:204-234 | the corrected capture writes the payload of any well-formed block split into non-empty reads, even when the first reply ends inside the header |
| ScreenCapture.WholeBlockAgrees | OscScreenGrabLAN.py:204-234 | when the first reply holds the whole header, the corrected and the as-written capture give the same outcome |
| WaveformCsv.ActiveChannels | OscScreenGrabLAN.py:250-256 | the loop builds DisplayedChannels of the five display replies |
| WaveformCsv.DisplayedChannelsSelected | OscScreenGrabLAN.py:250-256 | a channel is listed exactly when its reply is `"1\n"`, each listed name is one of CHAN1..CHAN4, MATH, and the list keeps that order with no repeats |
| WaveformCsv.ReadDataReply | OscScreenGrabLAN.py:292-306 | an empty data reply fails at `buffChunk[-1]`; otherwise the loop ends with the gathered buffer of the "until `\n`" rule and consumes exactly its reads |
| WaveformCsv.Samples | OscScreenGrabLAN.py:308-316 | the samples exist exactly when the header length decodes; joined with commas they give back the reply between the header and the last byte, and none holds a comma |
| WaveformCsv.SamplesNoLineBreaks | OscScreenGrabLAN.py:295-316 | the samples of a reply gathered from `read_until` replies hold no line break |
| WaveformCsv.CaptureCsvData | OscScreenGrabLAN.py:242-343 | the method's result is CsvOutcome of the display replies, the data replies and the queued reads, and the session keeps UnreadAfter of them |
| WaveformCsv.UnreadAfter | OscScreenGrabLAN.py:292-306 | the reads left after the channel loop, stopping at the first failing channel, are a suffix of the queued reads: they are only ever taken from the front |
| WaveformCsv.MergeFromTable | OscScreenGrabLAN.py:269-338 | merging the channels one by one into the rendered text of a table gives the rendered table with their columns added, or the first channel's error |
| WaveformCsv.CsvIsTable | OscScreenGrabLAN.py:242-343 | with replies as `read_until` delivers them, the file written is the rendered table of the displayed channels' traces, or the first error |
| WaveformCsv.NothingDisplayedWritesEmpty | OscScreenGrabLAN.py:267-343 | with no channel displayed the file is still written, and it is empty |
| CsvTable.MergeChannel | OscScreenGrabLAN.py:319-338 | the `current_row` loop produces the rendered MergedRows of the text so far, the channel and its samples |
| CsvTable.MergeOnTable | OscScreenGrabLAN.py:319-338 | merging into the rendered text of a table with no line breaks in its cells is adding one column to that table |
| CsvTable.AddColumnRow | OscScreenGrabLAN.py:330-338 | data line k is the old line k, a comma and sample k when line k existed, and otherwise `","` and the sample: one empty cell, whatever the column count |
| CsvTable.BuildTableShape | OscScreenGrabLAN.py:319-338 | the table has 1 + (samples of the last channel merged) lines, so lines only longer, earlier channels filled are dropped; the header line joins the channel names with commas |
| CsvTable.BuildTableRectangular | OscScreenGrabLAN.py:319-338 | when all channels have n samples, line k + 1 joins the k-th sample of every channel with commas |
| CsvTable.BuildTableNoLineBreaks | OscScreenGrabLAN.py:319-338 | names and samples without line breaks give lines without line breaks |
| CsvTable.RaggedExample | OscScreenGrabLAN.py:330-338 | A=[1,2] then B=[3,4,5] gives "A,B", "1,3", "2,4", ",5"; adding C=[6] gives "A,B,C", "1,3,6" |
| CsvTable.SplitRender | OscScreenGrabLAN.py:319 | splitting rendered lines at the line separator gives them back plus the empty part after the last separator |
| CsvTable.RenderJoin | OscScreenGrabLAN.py:325-338 | rendered lines are the lines joined with the separator, plus a closing separator |
| InstrumentId.CheckInstrumentId | OscScreenGrabLAN.py:159-172 | exactly "command error" means LAN control is off; a reply without a comma has no model field and raises; any other reply is either accepted or warned about |
| InstrumentId.RecognizedFields | OscScreenGrabLAN.py:166-172 | a reply made of comma-free fields is accepted exactly when the first is "RIGOL TECHNOLOGIES" and the second starts with "DS1" and ends with 'Z'; otherwise it is warned about |
| InstrumentId.AcceptsDs1054z | OscScreenGrabLAN.py:166-172 | a DS1054Z's reply is accepted |
| InstrumentId.WarnsOnDs1102e | OscScreenGrabLAN.py:166-172 | a DS1102E's reply is warned about |
| InstrumentId.BareCompanyFails | OscScreenGrabLAN.py:166-172 | a reply holding only the company name has no model field |
| SaveFilename.Underscored | OscScreenGrabLAN.py:356 | the note keeps its length and every non-space character, each space becomes `_`, and no space is left |
| SaveFilename.UnderscoredIdempotent | OscScreenGrabLAN.py:356 | underscoring twice is underscoring once; a note without spaces is unchanged |
| SaveFilename.DecimalTextValue | OscScreenGrabLAN.py:358 | the digits written for a try number read back as that number |
| SaveFilename.CandidatesDistinct | OscScreenGrabLAN.py:357-359 | no two tries produce the same file name |
| SaveFilename.BuildSaveFilename | OscScreenGrabLAN.py:348-363 | without a note, the timestamped name; with one, the first try's name whose path does not exist (all earlier ones exist), else the timestamped name after all 100 exist |
| SaveFilename.FreshNameFound | OscScreenGrabLAN.py:357-363 | with fewer than 100 existing paths some try's name is free, so the note branch never falls back |
| Sequences.Slice | OscScreenGrabLAN.py:234 | Python's clamped `s[lo:hi]`: its length and its elements |
| Sequences.JoinSplit | OscScreenGrabLAN.py:316 | joining the parts of a split with the separator gives the text back |
| Sequences.SplitJoin | OscScreenGrabLAN.py:316 | splitting a join of separator-free parts gives the parts back |
| Sequences.SplitParts | OscScreenGrabLAN.py:316 | a split has one part more than the separator's occurrences, no part holds the separator, and every part's elements come from the text |

## Left out

- `annotate`: image editing through PIL (fonts, rotation, cropping) is a foreign library and pixel work.
- `test_ping`: a subprocess call to the system `ping`.
- `main`'s plumbing is not modelled: argument parsing, `config.json`, logging setup and the `raw_input` confirmation prompt. The check of the ID reply is modelled.
- `command`'s `*OPC?` handshake and its socket reads. Each command's reply is a parameter of the model.
- The `:WAV:MODE`, `:WAV:STAR`, `:WAV:STOP`, `:WAV:SOUR` and `:WAV:FORM` commands of `capture_csv_data`: their replies are discarded, so they do not affect what is written.
- `get_memory_depth`: floating-point arithmetic on sample rate and time base.
- `log_running_python_versions`: pip introspection and logging.
- The timestamp in `build_save_filename` arrives already formatted: `time.strftime` and the clock are not modelled.
- The telnet class `telnetlib_receive_all.Telnet` is not part of this model. Its `read_until` is the queue in `Transport.Session`.
- Timeouts are not modelled as time. A read that times out with nothing is an empty reply. A read that times out part-way is a reply without its `\n`.
- Writing the files, the printed messages and `sys.exit` are not modelled. An abort is the `Err` outcome of the capture.
- Under Python 3 the code compares and concatenates `bytes` with `str` (lines 255, 295, 310, 342). There, no display reply would equal `'1\n'`, and the loop test on `buffChunk[-1]` would never see `"\n"`. The model follows the text semantics the code was written for and does not reproduce those failures.
- `.decode()` of the ID reply and the byte-to-text step of the CSV data map each byte to the character with the same code. UTF-8 decoding of non-ASCII bytes is not modelled.
- `os.linesep` is modelled as `"\n"`. The Windows `"\r\n"` is not modelled.
- Bytes.ParseInt: Python's `int()` also accepts surrounding whitespace, a sign, underscores between digits and non-ASCII Unicode digits. The model accepts only a non-empty run of ASCII digits, so it is weaker than the source on such replies.
- BlockHeader.ExpectedDataBytes: inherits the same narrowing of `int()` for the length field.
- The follow-up read loops stop at the first empty read, as the code's `break` does; fragments that arrive after an empty read are not gathered (Transport.GatheredAtEmptyRead).
- With no channel displayed, `capture_csv_data` still writes a file, which is empty (WaveformCsv.NothingDisplayedWritesEmpty).
- Note-based names do not include the save path, which the timestamped name does. The model keeps this as written.

## Findings

| source | as written | input that shows it | evidently intended | confidence | as-written member | corrected member |
|---|---|---|---|---|---|---|
| OscScreenGrabLAN.py:204-234 | the reading target `expected_buff_bytes(buff)` is computed once, from the first reply, and the header is decoded again only after the loop | first reply `#9000` (it ends inside a 9-digit length field), next read `000005AB`, then `CDE\n`: the delivery is the block for `ABCDE`; the target is 11 + 0 + 1 = 12, the loop stops at 13 bytes, and the 2 bytes `AB` are written | keep reading until the buffer holds the whole block its own header declares, then cut out the payload | medium, not executed | ScreenCapture.TruncatedHeaderSavesShortImage | ScreenCapture.ScreenTransfer.CaptureWholeBlock, ScreenCapture.WholeBlockDelivered |
