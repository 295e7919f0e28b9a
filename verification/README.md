# MDSS DSI panel driver generator — Dafny model

The generator reads a Qualcomm MDSS panel description from a device tree and
writes a Linux DRM panel driver, plus a table for the LK bootloader. This
project models the deterministic core of that pipeline as pure Dafny
functions and proves properties about them:

- **Command-stream decoding** (`Panel`). The vendor command blob is a
  sequence of records: a data-type byte; the last, vc, ack and wait bytes; a
  16-bit big-endian length; then the payload. Each record is classified by
  the MIPI DSI transaction table. Short-packet payloads that are
  over-declared are clipped. The module also covers the lane-map
  permutation, the traffic-mode fallback chain, the command-state property,
  the `on` stream chaining, and the panel id / short id derivation.
- **Classification and code synthesis** (`Mipi`). This covers:
  - the MIPI DSI data-type table (with `max_args` and the generator of each
    type) and the MIPI DCS command table (with arity, helper name and
    argument codec);
  - `DCSCommand.find`, including the "dumb" allow-list;
  - the hexadecimal and integer parameter codecs;
  - the per-type C statement generators.
- **Line wrapping** (`Wrap`): tab-aware width, `simple` and `join`.
- **Driver text** (`Driver`). This covers:
  - `msleep`;
  - the command-sequence body, with blank-line grouping and wait
    suppression;
  - the reset function, the include list and the compatible string;
  - the reset polarity derived from the reset sequence.
- **LK re-encoding** (`Lk`). Each command becomes the DMA packet LK sends:
  - a word count or short data;
  - a data identifier holding the virtual channel in bits 7:6 and the
    data type in bits 5:0;
  - a flags byte;
  - the payload padded with 0xff to a multiple of 4.

  The module also covers the per-command arrays and table, and the lane and
  command-state fields.
- **Device-tree property helpers** (`Fdt`). A property lookup is a map from
  name to bytes. The module covers `is_str`, `as_uint32_array`,
  `getprop_uint32` and `getprop_or_none`.
- **Image header parsers** (`BootImg`, `Qcdt`). These cover the Android boot
  image header, the page-aligned section offsets and the command line. They
  also cover the QCDT header, the versioned device-tree entry table, and
  per-record blob slicing.

Bytes are `int`s in 0..255 (`Bytes.byte`), and strings are `seq<char>`.
Every Python exception becomes one `Wrappers.Result` failure. `Options` holds
the two options the command generators read: `ignore_wait` and `dumb_dcs`.
The reset polarity `options.gpios["reset"]` (driver.py:101) is passed to
`Driver.GenerateReset` as its `GpioFlag` parameter, and the options that pick
headers (`options.regulator`, `options.backlight_fallback_dcs`,
driver.py:30-32) are combined
as the fields of `Driver.IncludeFlags`, which also carry the panel's
reset, backlight and compression facts.

Three details of the record decoder:

- An over-declared payload is cut to `max_args + 1` bytes (panel.py:180-182).
- A data-type byte missing from the transaction table raises
  (panel.py:176).
- A short DCS write record whose payload is `[0x29, 0x01]` is clipped to
  `[0x29]` while decoding, so it becomes the `set_display_on` call
  (`Panel.DisplayOnRecordClipped`). A raw write of those two bytes arises
  only for a type whose `max_args` keeps the second byte
  (`Mipi.DisplayOnWithArgumentIsRaw`).

## Model

| member | source | states |
|---|---|---|
| Text.HexFill | mipi.py:29-30 | `_hex_fill` is "0x" followed by the hex digits of the value, zero-padded to at least 2·size digits |
| Text.HexFillValue | mipi.py:29-30 | every character after "0x" is a hex digit, and those digits denote exactly the input value |
| Text.HexFillWidth | mipi.py:29-30 | for a value below 256^size the literal is exactly 2 + 2·size characters long |
| Text.Digits | mipi.py:30 | the digit string is non-empty, uses only base digits, denotes the number, and has no leading zero |
| Text.DigitsLength | mipi.py:30 | a number fits in k digits iff it is below base^k |
| Text.Lower | panel.py:224 | `lower()` keeps the length and lower-cases each character (ASCII) |
| Text.Find | panel.py:200 | `str.find` is -1 iff the pattern never occurs; otherwise it is the first occurrence |
| Text.FindCharIndex | panel.py:200 | finding a single character is -1 iff it is absent; otherwise the index holds it and no earlier index does |
| Text.Split | panel.py:195 | splitting at a non-empty separator gives pieces that join back to the input |
| Text.SplitLeftmost | panel.py:195 | the split is at leftmost, non-overlapping occurrences: no piece before a separator contains it, and the last piece has none |
| Text.ReplaceAbsent | panel.py:195 | `replace` leaves a string without the pattern unchanged |
| Text.ReplaceChar | driver.py:514 | replacing one character by another is a character-by-character map |
| Text.MapChar | driver.py:514 | the mapped string has the same length; the target character is replaced and every other character is kept |
| Text.SplitOnceJoins | driver.py:515 | `split('-', 1)` gives one or two parts that rejoin to the input; the first part has no separator; one part iff the separator is absent |
| Text.RStrip | tools/unpackbootimg.py:52 | `rstrip` removes exactly a trailing run of the character and leaves a result that does not end with it |
| Wrap.Width | wrap.py:7-8 | `_width` is never below the length |
| Wrap.WidthCountsTabs | wrap.py:7-8 | `_width` is the length plus seven per tab character, counted as a multiset |
| Wrap.WidthAppend | wrap.py:7-8 | `_width` is additive over concatenation and never below the length, since a tab counts 8 columns |
| Wrap.Indent | wrap.py:34 | the continuation indent of align div 8 tabs and align mod 8 spaces is exactly `align` columns wide |
| Wrap.IndentMatchesPrefix | wrap.py:32-34 | the indent of a wrapped `join` is as wide as the prefix |
| Wrap.Simple | wrap.py:12-20 | the output holds every item plus at most one separating character per item, and ends with the last item |
| Wrap.SimplePrefix | wrap.py:12-20 | the text `simple` produces for the first k items is a prefix of its text for all items |
| Wrap.SimpleBreakWidens | wrap.py:15-16 | once `simple` breaks before an item, the text so far is wider than the limit |
| Wrap.WidthPrefix | wrap.py:7-8 | a string is at least as wide as any prefix of it |
| Wrap.SimpleBreaksPersist | wrap.py:14-16 | `simple` measures the whole accumulated text, so after its first line break every later item also starts a new line |
| Wrap.SimpleFits | wrap.py:12-20 | when the items joined by spaces are narrower than the limit, `simple` is exactly that join |
| Wrap.Pieces | wrap.py:39-51 | each item is followed by the separator, and the last item by the end string, in order |
| Wrap.JoinWrap | wrap.py:27-54 | `join` is the flat prefix + items + end when that fits; otherwise it is the wrapped layout |
| Wrap.JoinLoopRenders | wrap.py:36-54 | the imperative loop of `join` produces exactly the declarative layout |
| Wrap.LayoutStep | wrap.py:44-51 | each item is appended after a line break plus indent, after one space, or (at the very start) directly |
| Wrap.GapShape | wrap.py:44-51 | the text between consecutive items is nothing, one space, or a newline plus the indent, and the last exactly at a break |
| Wrap.RenderKeepsPieces | wrap.py:39-53 | the output starts with the prefix and is the concatenation of the pieces with their gaps, in item order |
| Wrap.LineEndsWithPiece | wrap.py:51 | the current line always ends with the last piece appended |
| Wrap.JoinStartsWithPrefix | wrap.py:27-54 | `join` output always starts with the prefix |
| Wrap.ForcedBreak | wrap.py:45 | item `force` starts a new line whenever the line before it is non-empty |
| Wrap.WidePieceAlone | wrap.py:44-51 | a piece wider than the room left after the indent is never split; it sits alone on its own line |
| Wrap.JoinNoItemsTooWide | wrap.py:36-53 | with no items and a too-wide prefix plus end, `join` yields just the prefix |
| Mipi.TransactionOf | mipi.py:228-285 | only six-bit data-type values name a transaction; `Mipi.TransactionOfEntry` and `Mipi.EntryOfTransaction` show it inverts the table |
| Mipi.IsLong | mipi.py:291-311 | the long packet types are exactly those whose data-type value has low nibble 9 to 14 |
| Mipi.TransactionOfEntry | mipi.py:228-285 | looking up a transaction's own data-type value yields that transaction |
| Mipi.EntryOfTransaction | mipi.py:228-285 | a successful lookup returns the transaction whose value is the looked-up byte |
| Mipi.TableDefaults | mipi.py:280-285 | types with the fallback generator and all long types have max_args -1; no type allows more than 2 |
| Mipi.DcsCommandOfEntry | mipi.py:64-133 | looking up a DCS command's own value yields that command |
| Mipi.DcsEntryOfCommand | mipi.py:64-133 | a successful DCS lookup returns the command with that value |
| Mipi.HexParams | mipi.py:33-34 | one four-character hex literal per byte, in payload order |
| Mipi.Chunks | mipi.py:42-43 | `zip(*[itr]*size)` yields ⌊len/size⌋ whole groups and drops fewer than `size` trailing bytes |
| Mipi.ChunksAt | mipi.py:42-43 | group k is exactly bytes k·size to k·size + size of the payload |
| Mipi.IntGroups | mipi.py:42-43 | one literal per group: the group's value in the given byte order, padded to 2·size digits |
| Mipi.IntGroupsAt | mipi.py:42-43 | literal k encodes bytes k·size to k·size + size in the given byte order |
| Mipi.TearParams | mipi.py:50-59 | the first byte 0 or 1 names VBLANK or VHBLANK; any other byte fails with a ValueError and an empty payload with an IndexError |
| Mipi.Params | mipi.py:139-142 | the command's own codec on the bytes after it: one hex literal per byte, the integer codec with the entry's size and byte order, or the tear mode, which alone can fail (the caller puts `&dsi_ctx` in front) |
| Mipi.IntParams | mipi.py:37-45 | fewer than `size` bytes give one literal from all of them; otherwise one literal per whole group |
| Mipi.Find | mipi.py:144-170 | only an empty payload fails; a returned command matches (known value, allowed, arity, decodable arguments); any matching command is returned |
| Mipi.FindUnknown | mipi.py:146-150 | a first byte that names no DCS command gives no match |
| Mipi.FindDumb | mipi.py:152-153 | in dumb mode a command outside the four allowed ones gives no match |
| Mipi.FindWrongArity | mipi.py:155-160 | a non-empty arity list not containing len-1 gives no match, not a failure |
| Mipi.FindTearOnBadMode | mipi.py:57-59 | SET_TEAR_ON with a mode other than 0 or 1 gives no match |
| Mipi.RenderCallStart | mipi.py:177-178 | a generated call starts with a tab, the function name and "(" |
| Mipi.HexParamsRenamed | mipi.py:195-198 | replacing the first hex literal by the command identifier and prepending the context gives the context, the identifier and the argument bytes |
| Mipi.DcsWriteStmt | mipi.py:188-200 | a DCS write is the helper call with the decoded arguments, a raw write led by the DCS identifier, or a raw write of all bytes; `&dsi_ctx` first; an empty payload fails |
| Mipi.Generate | mipi.py:181-224 | fallback types fail "<NAME> is not supported"; ignored types emit the warning comment; turn-on and shutdown peripheral map to their `mipi_dsi_*_peripheral_multi` calls on `&dsi_ctx` alone; generic writes are all bytes in hex |
| Mipi.DisplayOnCall | mipi.py:188-193 | a short DCS write of 0x29 generates `mipi_dsi_dcs_set_display_on_multi(&dsi_ctx)` |
| Mipi.DisplayOnWrite | mipi.py:191-193 | the DCS write generator turns [0x29] into the display-on helper call in both modes |
| Mipi.DisplayOnFound | mipi.py:144-170 | [0x29] is found as SET_DISPLAY_ON in both modes |
| Mipi.RawDisplayOn | mipi.py:195-200 | [0x29, 0x01] fails the zero-argument arity check and is written raw with both bytes |
| Mipi.DisplayOnWithArgumentIsRaw | mipi.py:155-160 | a one-parameter short DCS write of [0x29, 0x01] is generated as the raw write with both bytes |
| Panel.Clip | panel.py:178-182 | the payload is cut to its first max_args+1 bytes exactly when that bound is positive and smaller; otherwise it is kept |
| Panel.Next | panel.py:171-176 | one record consumes at least 7 bytes, leaves a suffix of the stream and yields a command within its limit |
| Panel.Decode | panel.py:171-184 | every decoded command is within its type's limit, and each consumed at least 7 bytes |
| Panel.NextConcat | panel.py:171-174 | a record decodes the same whatever follows it in the stream |
| Panel.Encode | panel.py:171-174 | a record is 7 header bytes plus the payload |
| Panel.DecodeConcat | panel.py:171-184 | decoding a concatenation gives the commands of the first stream followed by those of the second |
| Panel.DecodeOne | panel.py:171-184 | an encoded record decodes to that one command, clipped |
| Panel.DecodeEncode | panel.py:171-184 | encoding records back-to-back and decoding gives the same commands in stream order, clipped |
| Panel.CutRecordFails | panel.py:172-174 | a stream ending inside a record fails; no partial command is produced |
| Panel.UnknownTypeFails | panel.py:176 | an unknown data-type byte fails with a value error |
| Panel.DisplayOnRecordClipped | panel.py:178-182 | a short DCS write record declaring [0x29, 0x01] is stored as [0x29] |
| Panel.DecodeFlatten | panel.py:151-171 | decoding chained streams gives each stream's commands in chain order |
| Panel.Extra | panel.py:155-169 | an absent optional property contributes no bytes |
| Panel.CommandStream | panel.py:147-169 | no stream without the command property; for `on` the init, on, post-panel-on, post-on-backlight and display-on bytes are chained in order |
| Panel.OnCommandsInOrder | panel.py:153-184 | the `on` sequence is the five parts' commands concatenated in that order |
| Panel.StateOf | panel.py:138-141 | a state string parses iff it is a state's value |
| Panel.ParseSequence | panel.py:143-184 | a missing state property fails; the state is the property's string; no command property gives no commands; otherwise the commands are the decoded stream |
| Panel.LaneMapIndex | lk.py:173 | the lane map's position in the member list |
| Panel.Log2Phys | panel.py:61-68 | each map lists four physical lanes below 4 |
| Panel.LaneMapValue | panel.py:72 | the value is "lane_map_" followed by the four log2phys digits |
| Panel.Invert | panel.py:76-78 | the inversion loop gives a four-entry list |
| Panel.InvertLeft | panel.py:76-78 | for an injective list the loop maps each entry back to its index |
| Panel.LaneMapIsPermutation | panel.py:61-68 | every log2phys list is a permutation of 0..3 |
| Panel.Phys2LogInverse | panel.py:73-78 | phys2log and log2phys are inverse permutations, in both directions |
| Panel.LaneMapOf | panel.py:86 | a string selects the map with that value, or none when no map has it |
| Panel.LaneMapValuesDistinct | panel.py:59-72 | distinct maps have distinct values |
| Panel.ParseLaneMap | panel.py:81-89 | a missing or non-string property gives MAP_0123; a string that is no map's value fails |
| Panel.ParseLaneMapValue | panel.py:81-89 | parsing a map's own NUL-terminated value gives that map |
| Panel.TrafficModeOf | panel.py:42 | a string selects the traffic mode with that value, or none |
| Panel.ParseTrafficMode | panel.py:39-56 | a string selects by value; a 4-byte non-string index below 3 selects by position; anything else is SYNC_PULSE; an empty property fails |
| Panel.ParseTrafficModeIndex | panel.py:47-52 | the big-endian index i < 3 selects the i-th traffic mode |
| Panel.ParseTrafficModeValue | panel.py:41-42 | parsing a mode's own NUL-terminated value gives that mode |
| Panel.RemovePrefixes | panel.py:187-190 | stripping prefixes leaves a suffix of the input |
| Panel.RemovePrefixesNone | panel.py:187-190 | text starting with none of the prefixes is unchanged |
| Panel.RemovePrefixOnce | panel.py:188-189 | each prefix is stripped at most once: p+p+t loses only one p |
| Panel.RemoveBefore | panel.py:199-201 | the result is a suffix of the input, and the input itself when the pattern is absent |
| Panel.RemoveBeforeChar | panel.py:199-201 | for a present character, everything up to and including its first occurrence is dropped |
| Panel.RemoveAll | panel.py:193-196 | removing patterns never lengthens the text |
| Panel.RemoveAllAbsent | panel.py:193-196 | text containing none of the patterns is unchanged |
| Panel.PanelId | panel.py:224 | the id is a suffix of the lower-cased node name after prefix stripping |
| Panel.ShortId | panel.py:226-228 | the short id is never longer than the id |
| Panel.ShortIdOfPlainId | panel.py:226-228 | an id containing none of the suffixes is its own short id |
| Fdt.IsStr | fdt2.py:60-61 | `is_str` raises exactly on an empty property |
| Fdt.IsStrIff | fdt2.py:60-61 | a property is a string iff its last byte is 0 and no earlier byte is |
| Fdt.TerminatedIsStr | fdt2.py:60-61 | NUL-free bytes followed by one NUL form a string property |
| Fdt.AsStr | fdt2.py:60-61 | a string property reads as its bytes before the terminating NUL |
| Fdt.Words | fdt2.py:64-66 | len/4 words, each below 2^32 |
| Fdt.WordsAt | fdt2.py:64-66 | word i is the big-endian value of bytes 4i..4i+4 |
| Fdt.AsUint32Array | fdt2.py:64-66 | succeeds iff the length is a multiple of 4, giving len/4 big-endian words in order |
| Fdt.WordsOfCells | fdt2.py:64-66 | encoding 32-bit words big-endian and reading them back gives the words |
| Fdt.WordsCells | fdt2.py:64-66 | decoding the big-endian encoding of words gives the words |
| Fdt.CellsOfWords | fdt2.py:64-66 | re-encoding the decoded words gives the property bytes back |
| Fdt.AsUint32 | fdt2.py:57 | a property reads as a uint32 iff it is 4 bytes, which are its big-endian encoding |
| Fdt.GetpropOrNone | fdt2.py:45-49 | None exactly when the property is missing; otherwise the property |
| Fdt.GetpropUint32 | fdt2.py:51-57 | the default when missing, or when empty with `ignore_empty`; otherwise the property's uint32 |
| Fdt.GetpropUint32Present | fdt2.py:51-57 | a present non-empty property reads iff it is 4 bytes, and the value re-encodes to it |
| Driver.Msleep | driver.py:83-91 | a delay of at least 20 ms is an `msleep(...)` call, a shorter one a `usleep_range(...)` call |
| Driver.SleepFor | driver.py:83-91 | `msleep` is chosen iff the delay is at least 20 ms |
| Driver.SleepCoversWait | driver.py:86-91 | the sleep lasts at least the wait; a range sleep spans u to u+1000 µs |
| Driver.MsleepParses | driver.py:83-91 | for m ≥ 20 the text is "msleep(" + decimal m + ")"; below 20 it is a `usleep_range` |
| Driver.MsleepExamples | driver.py:83-91 | 120 gives msleep(120); 19 gives usleep_range(19000, 20000) |
| Driver.Pairs | panel.py:276 | `zip(itr, itr)` pairs consecutive words and drops an odd last word |
| Driver.UnpairPairs | panel.py:275-276 | flattening the pairs gives the words without an odd last one |
| Driver.ResetSequence | panel.py:273-278 | no reset sequence without the property; a length not a multiple of 4 fails; the pairs are its words in order |
| Driver.WrittenState | driver.py:100-103 | active-high writes the state; active-low writes 1 exactly for state 0 |
| Driver.ResetFlag | driver.py:505-510 | reset is active low iff the last step drives the line to 1, so a 0/1 sequence always ends by writing 0 (deasserted) |
| Driver.ResetLine | driver.py:99-105 | one pair gives `gpiod_set_value_cansleep(ctx->reset_gpio, <state as the polarity writes it>);`, followed by a `msleep` statement exactly when the sleep is non-zero |
| Driver.ResetLines | driver.py:99-105 | one statement group per reset pair, in sequence order, each the `ResetLine` of its pair |
| Driver.GenerateReset | driver.py:94-108 | no text without a reset sequence; otherwise the `<short_id>_reset` function |
| Driver.ResetLinesListed | driver.py:98-106 | every pair's statements occur in the reset function, each directly followed by the next pair's, and the last by the closing `}` |
| Driver.GenerateSequence | driver.py:489-493 | fails iff some command fails to generate; otherwise one rendered statement per command, in order |
| Driver.WaitExamples | driver.py:140-141 | wait 120 emits no delay at ignore_wait 150 and msleep(120) at 50 |
| Driver.Delay | driver.py:140-141 | a delay statement appears iff the wait is non-zero and strictly above ignore_wait, and it is then the tab-indented `msleep` of the wait |
| Driver.DelayExamples | driver.py:140-141 | a wait of 120 gives no delay at ignore_wait 150 and `msleep(120);` at ignore_wait 50 |
| Driver.Variables | driver.py:118-122 | `dsi` always; `dev` iff the text contains "(dev, "; `ret` iff it contains "ret = " |
| Driver.LpmLine | driver.py:127-131 | an LPM toggle line appears iff the on and off states differ |
| Driver.GenerateCommands | driver.py:111-147 | the function is the header, the command pieces in order, and the return tail |
| Driver.CommandsBody | driver.py:133-141 | the loop's text is the pieces of every command, in sequence order |
| Driver.EmitCommand | driver.py:135-141 | a blank line precedes a command when the previous or this one contains '{'; the text; the delay when the wait exceeds ignore_wait |
| Driver.Sort | driver.py:49 | headers come out sorted and as a permutation of the input |
| Driver.GenerateIncludes | driver.py:13-52 | the includes always open with a blank line and a `<linux/...>` header, the `linux` group never being empty; which headers appear is stated by `Driver.IncludeLinesMember` and `Driver.MipiDisplayIncludedIff` |
| Driver.IncludesOpen | driver.py:13-52 | the `linux` group always has headers, so the joined lines start with a blank line and a `linux/` include |
| Driver.IncludeGroups | driver.py:13-41 | the groups are linux, video, drm in that order; video holds mipi_display.h iff some text contains "MIPI_DCS_" |
| Driver.GroupLines | driver.py:44-50 | an empty group contributes nothing; otherwise a blank line and one include per header, sorted |
| Driver.GroupLinesMember | driver.py:48-50 | a group's include line is emitted iff the header is in the group |
| Driver.IncludeLinesMember | driver.py:43-52 | an include line appears iff a group of that name holds the header |
| Driver.MipiDisplayIncludedIff | driver.py:38-41 | `<video/mipi_display.h>` is included iff some generated text contains "MIPI_DCS_" |
| Driver.Compatible | driver.py:514-522 | an id without a leading alphabetic vendor word is filed under "mdss,"; the full shape is `Driver.CompatibleForm` |
| Driver.CompatibleForm | driver.py:514-522 | dashed id split at the first '-'; an alphabetic vendor joins with ','; otherwise "mdss," + dashed id |
| Driver.CompatibleVendor | driver.py:518-519 | with an alphabetic part before the first '-', that '-' becomes ',' |
| Driver.CompatibleUnknownVendor | driver.py:520-522 | a non-alphabetic first part gives "mdss," + the dashed id |
| Driver.CompatibleNoUnderscore | driver.py:514-522 | the compatible string never contains '_' |
| Driver.FormNoUnderscore | driver.py:514-522 | each of the three compatible shapes keeps an id without '_' free of '_' |
| Lk.OrShift | lk.py:29-30 | OR of a value below 2^k with a multiple of 2^k is their sum |
| Lk.ValueBelow64 | mipi.py:228-278 | every data type fits in the low six bits |
| Lk.ShortData | lk.py:25-27 | a short payload is zero-padded to exactly two bytes |
| Lk.PadLength | lk.py:35-38 | fewer than 4 pad bytes bring the length to a multiple of 4 |
| Lk.ToByte | lk.py:29-30 | appending to a bytearray succeeds iff the value is below 256 |
| Lk.Head | lk.py:20-27 | long: the payload length in little-endian 16 bits; short: a payload over 2 bytes fails the assertion, otherwise it is padded |
| Lk.Body | lk.py:32-38 | a long packet carries the payload verbatim after the header, then fewer than 4 bytes of 0xff up to a multiple of 4 |
| Lk.Packet | lk.py:19-38 | an over-long short payload fails; the packet has the data-type and flags bytes at 2 and 3; a short packet is 4 bytes; a long one has WC, payload and 0xff padding |
| Lk.PacketChannel | lk.py:29 | a packet encodes only when the virtual channel is below 4 |
| Lk.DataTypeFields | lk.py:29 | the data identifier keeps the data type in bits 5:0 and the channel in bits 7:6 |
| Lk.FlagsFields | lk.py:30 | the flags byte holds ack in bit 5, long in bit 6 and last in bit 7 |
| Lk.PacketHeader | lk.py:19-30 | the header read back from an encoded packet gives type, channel, ack, long and last |
| Lk.WideChannelFails | lk.py:29 | a channel of 4 or more makes the data identifier overflow a byte |
| Lk.ClippedShortWriteFails | lk.py:23-24 | a 2-parameter generic short write clipped to 3 bytes trips the payload assertion |
| Lk.Packets | lk.py:18-46 | all packets encode or the table fails; one packet per command, in order |
| Lk.HexBytes | lk.py:42 | one "0x"-prefixed two-digit literal per byte, denoting it |
| Lk.GenerateCommands | lk.py:10-50 | the tables are produced iff every command encodes |
| Lk.CommandsListed | lk.py:40-46 | each command has its array and its `{ sizeof, name, wait }` entry in the output |
| Lk.ArrayNamesDistinct | lk.py:40 | array names numbered from 0 are distinct |
| Lk.CommandState | lk.py:162-165 | the command state is 1 iff the sequence is sent in HS mode |
| Lk.LaneState | lk.py:174-177 | each lane state is 0 or 1 |
| Lk.LaneStatesCount | lk.py:174-177 | exactly min(lanes, 4) lane states are 1, and they are the lowest-numbered lanes |
| Lk.ForceClockLaneHs | lk.py:178 | the value is 0 or 1, and 1 (clock lane forced to HS) iff the non-continuous-clock flag is absent |
| Qcdt.EntryWords | tools/unpackqcdt.py:45-46 | versions 0 to 3 select an entry layout of at least 5 words; higher versions fail |
| Qcdt.VersionZeroAsThree | tools/unpackqcdt.py:45 | version 0 is not rejected: it selects the 10-word layout of version 3 |
| Qcdt.Words | tools/unpackqcdt.py:47 | k little-endian 32-bit words read from consecutive offsets |
| Qcdt.RecordOf | tools/unpackqcdt.py:50-55 | plat, variant and subtype are fields 0-2; offset and size are the last two; soc_rev only from version 2; pmic only from version 3 |
| Qcdt.Entries | tools/unpackqcdt.py:43-48 | `count` entries of `words` words each, succeeding iff the table fits in the input |
| Qcdt.EntriesAt | tools/unpackqcdt.py:43-48 | entry i is read contiguously at the header plus i entry sizes |
| Qcdt.Records | tools/unpackqcdt.py:44-58 | one record per entry, in order |
| Qcdt.Parse | tools/unpackqcdt.py:34-58 | a short header fails; a wrong magic fails; a success has the count from the header; a count of 0 gives no records |
| Qcdt.Blob | tools/unpackqcdt.py:60-62 | a record's blob is the bytes from its offset for its size, when in range |
| Qcdt.BlobNamePlat | tools/unpackqcdt.py:61 | the file name starts with "plat_" and the platform id in hex |
| Qcdt.EntryOf | tools/unpackqcdt.py:13-17 | a record is written in the version's entry size, with 32-bit fields |
| Qcdt.RecordOfEntry | tools/unpackqcdt.py:50-55 | reading back a written entry gives the record |
| Qcdt.RecordsOfRows | tools/unpackqcdt.py:50-55 | reading back a written table gives the records |
| Qcdt.BuildHeader | tools/unpackqcdt.py:9-10 | a built image starts with "QCDT", the version and the count in 12 bytes |
| Qcdt.EntriesBuild | tools/unpackqcdt.py:43-48 | the entry loop reads a written table back as its rows |
| Qcdt.ParseBuild | tools/unpackqcdt.py:34-58 | parsing a built QCDT image of versions 1-3 returns exactly its records |
| Qcdt.UnknownVersionFails | tools/unpackqcdt.py:45 | a version above 3 with entries fails on the format index |
| BootImg.Field | tools/unpackbootimg.py:8-9 | header words are little-endian 32-bit values |
| BootImg.AndNot | tools/unpackbootimg.py:34 | masking never increases the value |
| BootImg.AndNotLowBits | tools/unpackbootimg.py:27-34 | clearing the low k bits gives a multiple of 2^k within 2^k of the value |
| BootImg.Step | tools/unpackbootimg.py:34 | the advance is 0 for a page size of 0 and otherwise below the size plus one page |
| BootImg.StepRoundsUp | tools/unpackbootimg.py:34 | the advance for a section is its size rounded up to a page multiple |
| BootImg.Read | tools/unpackbootimg.py:12-15 | reading a section gives at most its size, exactly its bytes when in range |
| BootImg.Unpack | tools/unpackbootimg.py:18-52 | a short header fails; accepted iff the magic is "ANDROID!"; the sections are kernel, ramdisk, second and dtb, as extracted, and the command line is read from the header |
| BootImg.Offset | tools/unpackbootimg.py:29-49 | every section offset is at least the page size (the header page), and all are 0 for a page size of 0 |
| BootImg.OffsetsAligned | tools/unpackbootimg.py:29-49 | with a power-of-two page, offsets are page-aligned from the first page on, and an extracted section ends before the next offset |
| BootImg.OffsetsOrdered | tools/unpackbootimg.py:29-49 | section offsets never decrease |
| BootImg.SectionsLaidOut | tools/unpackbootimg.py:29-49 | each extracted section is page-aligned, holds the image bytes at its offset, and ends before any later section |
| BootImg.Cmdline | tools/unpackbootimg.py:52 | the command line is at most the 512 + 1024 bytes of its two fields; `BootImg.CmdlineRoundTrip` gives its content |
| BootImg.CmdlineRoundTrip | tools/unpackbootimg.py:52 | NUL-padded command-line fields give their text, concatenated |

## Left out

- File output, the C/DTS templates, the CLI, `print` diagnostics and `extract_file`. The boot image and QCDT parsers return the sections and blobs instead of writing files.
- libfdt traversal (finding nodes, subnodes, phandles) and pylibfdt itself. A node's properties are a map from name to bytes. `as_str` reads the bytes before the NUL as characters, and `decode()` is taken as bytes-as-characters rather than UTF-8.
- The other `Panel.__init__` property reads: dimensions, timings, backlight, DSC, bpp, mode and the mode flags. The flag list is only consumed, by `Lk.ForceClockLaneHs`.
- The `_generate_compression_mode` text. The model only states that its first argument is `&dsi_ctx`.
- dtsi.py, simple.py and generator.py beyond the two options and the GPIO flag.
- Panel.PanelId: states only that the id is a suffix of the stripped, lower-cased name. The exact cut is stated by Panel.RemoveBeforeChar.
- Panel.ShortId: states only length and the identity case. The removal itself is stated by Text.Split and Text.SplitLeftmost.
- Panel.RemoveAll: `str.replace` with an empty pattern is not modelled. Every pattern the source uses is non-empty.
- Text.Lower and Driver.CompatibleForm: lower-casing and `isalpha` are modelled for ASCII only.
- Fdt.GetpropUint32: the default is a natural number. The one `None` default, panel.py:243, belongs to the backlight maximum read, which is left out; the modelled reads pass 0 or 0x11 (panel.py:336).
- Lk.GenerateCommands: the `wrap.join` layout of each byte array is not restated. Its contract states which packets are listed.
- BootImg.OffsetsAligned: page alignment is proved for power-of-two page sizes only. A page size of 0 makes every advance 0, as the mask arithmetic does.
- Lk.LaneState: its own contract is only the 0/1 range. The count and order are in Lk.LaneStatesCount.
