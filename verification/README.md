# Groundstation telemetry ingestion — a Dafny model

This project models the three pieces of the drone groundstation's ingestion
threads that have statable behaviour, in both versions of the groundstation
script (`groundstation.py` and the older `groundstation/groundstation.py`):

1. **The radio GPS decoder.** Each chunk read from the long-range radio serial
   port is judged on its own. A chunk whose first byte is `0x28` carries the
   latitude in bytes 1..4 and the longitude in bytes 5..8, big-endian, in units
   of 1e-7 degree. The current script reads them as signed 32-bit values. The
   older one reads them unsigned.
2. **The RC-channel line parser** of the Taranis reader. A line such as
   `CH1:1500,CH2:1200` becomes a map from channel name to integer. It follows
   Python's `strip`, `split`, `in` and `int()` semantics.
3. **The telemetry step functions and link acquisition.** These are the
   per-datagram update rules of the UDP branch, the "first candidate port that
   opens wins" search, and the radio handle's life cycle. A handle is `None`
   until a port opens, and goes back to `None` on an I/O error, but only in the
   current script.

Byte chunks are `seq<Byte>` with `Byte` the integers 0..255. The shared
telemetry dictionary is the immutable `Telemetry.Snapshot`. Each thread step is
a pure function from snapshot to snapshot. Whether a serial port opens is a
predicate `opens: Port -> bool` that the caller supplies.

Modules: `Bytes` (big-endian integers), `Text` (the Python string operations),
`Telemetry` (snapshot and UDP step), `RadioGps` (decoders), `RcChannels`
(line parser), `Ports` (candidate list and acquisition), `Ingest` (one pass of
each reader), `Optional`.

Two behaviours of the code are easy to miss:

- Each radio chunk is decoded alone, with no buffer across reads. A tagged
  chunk shorter than nine bytes is not discarded. Python's clamped slices make
  `int.from_bytes` read the shorter fields, with an empty field read as 0. So a
  lone `0x28` byte resets the fix to (0, 0)
  (`RadioGps.TruncatedChunkStillDecodes`).
- A line with no `:` leaves the channels unchanged only when it also lacks
  `CH`. A line that contains `CH` but no `:` skips every part and replaces
  `rc` with the empty map (`RcChannels.NoColonGivesEmptyMap`).

## Model

| member | source | states |
|---|---|---|
| Bytes.FromBE | groundstation/groundstation.py:147-148 | an n-byte unsigned big-endian value lies in [0, 256^n) |
| Bytes.FromBESigned | groundstation.py:354-355 | an n-byte two's-complement value lies in [-128·256^(n-1), 128·256^(n-1)), is negative exactly when the first byte's top bit is set, and is 0 for no bytes |
| Bytes.TopBit | groundstation.py:354-355 | the first byte's top bit is set exactly when the unsigned value is in the upper half of its range |
| Bytes.FromToBE | groundstation/groundstation.py:147-148 | decoding the n-byte encoding of a value gives the value back |
| Bytes.ToFromBE | groundstation/groundstation.py:147-148 | encoding a decoded byte sequence gives the same bytes: the decode is injective at each length |
| Bytes.FromToBESigned | groundstation.py:354-355 | the signed decode inverts the two's-complement encoding |
| Bytes.ToFromBESigned | groundstation.py:354-355 | the two's-complement encoding inverts the signed decode |
| Bytes.UnsignedVersusSigned | groundstation/groundstation.py:147-148 | the unsigned reading equals the signed one when it is non-negative, and exceeds it by 256^n otherwise |
| RadioGps.Slice | groundstation.py:354-355 | a Python slice past the end of the chunk is clamped, so it is shorter but keeps the chunk's bytes in order |
| RadioGps.DecodeGps | groundstation.py:352-356 | a chunk yields a fix exactly when it is non-empty and starts with 0x28, and both coordinates then fit in 32-bit two's complement |
| RadioGps.DecodeGpsLegacy | groundstation/groundstation.py:146-149 | a chunk yields a fix exactly when it starts with 0x28 (an empty chunk raises IndexError, which is swallowed), with both coordinates in [0, 2^32) |
| RadioGps.ApplyGps | groundstation.py:352-358 | a chunk changes only `gps`; a non-empty chunk tagged 0x28 stores its decoded fix, and any other chunk changes nothing |
| RadioGps.ApplyGpsLegacy | groundstation/groundstation.py:141-151 | in the older script a chunk changes only `gps`; a tagged chunk stores its unsigned decode, and any other chunk changes nothing |
| RadioGps.SignedFieldIsInt32 | groundstation.py:354-355 | a field of at most four bytes read signed fits in 32-bit two's complement |
| RadioGps.UnsignedFieldIsUint32 | groundstation/groundstation.py:147-148 | a field of at most four bytes read unsigned lies in [0, 2^32) |
| RadioGps.EncodeGps | groundstation.py:352-356 | the sender's chunk for a fix is 0x28, then eight payload bytes, then the given trailing bytes |
| RadioGps.GpsRoundTrip | groundstation.py:354-356 | the chunk 0x28 ++ be32s(lat) ++ be32s(lon) ++ tail decodes to exactly (lat, lon), whatever the tail |
| RadioGps.GpsChunkIsEncoding | groundstation.py:354-356 | every complete tagged chunk is the encoding of its decoded fix followed by bytes 9 onwards, and decodes like its first nine bytes alone |
| RadioGps.TruncatedChunkStillDecodes | groundstation.py:352-356 | a tagged chunk shorter than nine bytes still overwrites the fix: the latitude is read from the bytes present, the longitude is 0 when at most five bytes arrived and is read from the bytes after byte 4 otherwise, and a lone tag gives (0, 0) |
| RadioGps.DecodeExample | groundstation.py:352-356 | payload 00 00 00 0A 00 00 00 05 decodes to (10, 5), which is (0.000001, 0.0000005) degrees |
| RadioGps.LegacyVersusSigned | groundstation/groundstation.py:147-148 | both decoders accept the same chunks; per field the unsigned value equals the signed one or exceeds it by 256^n, and by exactly 2^32 for a complete chunk |
| Telemetry.Degrees | groundstation.py:356 | the degree value times 10^7 is the raw integer |
| Telemetry.WrapReal | groundstation.py:325-326 | Python's `x % m` for positive m lies in [0, m), differs from x by a whole multiple of m (which fixes it uniquely), and leaves values already in range alone |
| Telemetry.FloorScale | groundstation.py:325-326 | floor(x/m)·m is the largest multiple of m at or below x, and is 0 for x in [0, m) |
| Telemetry.UdpStep | groundstation.py:316-334 | a datagram puts heading in [0, 360) with wrap from 359 to 0, sets satellites to 12, keeps altitude in [0, 100) and speed in [0, 120), and leaves battery non-negative and no larger; a timeout or socket error changes nothing; gps, mode and rc never change |
| Telemetry.UdpRunFromInitial | groundstation.py:325-329 | from start-up, after any receive sequence the heading is the datagram count mod 360, the battery stays 0, and satellites is 12 once a datagram has arrived |
| Telemetry.UdpRunCounts | groundstation.py:325-329 | from any valid heading with battery 0, the heading advances by the datagram count mod 360 |
| Telemetry.InitialValid | groundstation.py:76-84 | the start-up snapshot satisfies the snapshot invariant `Telemetry.Valid`: altitude in [0, 100), speed in [0, 120), battery non-negative, both coordinates in 32-bit two's complement, mode "MANUAL", heading in [0, 360), satellites 0 or 12 |
| Telemetry.UdpStepValid | groundstation.py:325-329 | a UDP receive preserves the snapshot invariant |
| Text.LeadingRun | groundstation.py:295 | counts exactly the leading whitespace that `strip()` removes |
| Text.TrailingRun | groundstation.py:295 | counts exactly the trailing whitespace that `strip()` removes |
| Text.TrimBy | groundstation.py:295 | the result is the text with its maximal leading and maximal trailing whitespace runs removed, and nothing else; it neither starts nor ends with whitespace, is empty only if the text was all whitespace, and is the text itself when no stripping is needed |
| Text.TrimByUnique | groundstation.py:295 | any removal of whitespace runs from both ends that leaves text neither starting nor ending with whitespace is exactly the trim |
| Text.Strip | groundstation.py:295 | `strip()` removes the maximal leading and trailing runs of Python whitespace, so its result neither starts nor ends with whitespace and is empty only for all-whitespace text |
| Text.StripIdempotent | groundstation.py:295 | stripping a stripped line changes nothing |
| Text.TrimKeeps | groundstation.py:295-299 | trimming keeps every character that is not whitespace and adds none |
| Text.IndexOf | groundstation.py:298 | the position of the first separator, or the length when there is none |
| Text.Count | groundstation.py:298 | the count of a character is zero exactly when the character is absent |
| Text.Split | groundstation.py:295 | `split(sep)` gives one more part than there are separators, no part contains the separator, and joining the parts restores the text |
| Text.CountSplit | groundstation.py:298 | the separators after the first one number one fewer than in the whole text |
| Text.SplitJoin | groundstation.py:295 | splitting parts joined by a separator none of them contains gives back the parts |
| Text.JoinLast | groundstation.py:295 | the last character of joined parts is the last character of the last part |
| Text.IsInfix | groundstation.py:292 | `w in s` holds exactly when w occurs at some index of s |
| Text.NatToString | groundstation.py:299 | the decimal rendering is a non-empty string of digits |
| Text.IntToString | groundstation.py:299 | the decimal rendering of any integer is non-empty |
| Text.NatToStringValue | groundstation.py:299 | the digits of a rendered natural number have that number as their value |
| Text.TrimDigits | groundstation.py:299 | a rendered number has no whitespace for `int()` to skip |
| Text.ParseIntToString | groundstation.py:299 | `int(str(n)) == n` for every integer n |
| Text.ParseInt | groundstation.py:299 | `int()` raises on a string with no digit, or with any character other than digits, '_', signs and whitespace, and a negative result needs a '-' |
| Text.ParseIntExamples | groundstation.py:299 | " 15 " and "1_5" read as 15; "1__5", "- 7", a leading U+001C and the empty string raise |
| RcChannels.ClassifyPart | groundstation.py:297-299 | a part without ':' is skipped; with exactly one ':' and an integer after it, it is the entry (text before ':', value); otherwise, with more than one ':' or a non-integer value, it raises |
| RcChannels.EntryAtPrefix | groundstation.py:296-299 | dropping the last part keeps every earlier entry |
| RcChannels.ParseParts | groundstation.py:296-302 | all or nothing: the loop fails, and `rc` is not assigned, exactly when some part raises |
| RcChannels.ParsePartsKeys | groundstation.py:294-299 | on success the channel names are exactly the names of the entries |
| RcChannels.ParsePartsLastWins | groundstation.py:296-299 | on success each channel holds the value of its last entry: a later duplicate overwrites an earlier one |
| RcChannels.ParseRcLine | groundstation.py:292-300 | a line without "CH" is not a channel line; a "CH" line is malformed exactly when one of its stripped, comma-split parts raises; otherwise its channels are exactly the names of its entries, each holding the value of its last entry |
| RcChannels.ApplyRcLine | groundstation.py:292-302 | a line changes only `rc`; a parsed channel line stores its channel map there, and any other line changes nothing |
| RcChannels.LegacyRcLine | groundstation/groundstation.py:101-111 | the older reader stores a parsed channel line's map in `rc` and changes nothing else; any other line leaves the snapshot untouched, and a malformed one ends the session on that port |
| RcChannels.LegacyAgrees | groundstation/groundstation.py:101-108 | both readers leave the same snapshot after any line and differ only in whether the session survives a malformed one |
| RcChannels.NoColonGivesEmptyMap | groundstation.py:292-300 | a line containing "CH" but no ':' sets `rc` to the empty map |
| RcChannels.IntToStringChars | groundstation.py:299 | a rendered integer contains neither ',' nor ':' and ends with a digit |
| RcChannels.ClassifyRendered | groundstation.py:297-299 | the part `name:str(v)`, for a name without ',' or ':', is the entry (name, v) |
| RcChannels.ParseEntries | groundstation.py:296-300 | parts that are all entries build the map of assigning them in order |
| RcChannels.PiecesClassified | groundstation.py:295-299 | no rendered piece contains ',' and each one is classified as its entry |
| RcChannels.FormattedIsStripped | groundstation.py:295 | `strip()` leaves a formatted line unchanged |
| RcChannels.FormatThenParse | groundstation.py:292-300 | a "CH" line formatted from entries parses back to the last-wins map of those entries |
| RcChannels.FormatThenApply | groundstation.py:292-300 | a formatted channel line, received by either reader, sets `rc` to the last-wins map of its entries, changes nothing else, and keeps the session |
| RcChannels.ExampleLine | groundstation/groundstation.py:100-108 | "CH1:1500,CH2:1200" parses to {CH1: 1500, CH2: 1200} |
| Ports.FirstOpenIndex | groundstation.py:339-345 | the search stops at the first candidate that opens: every earlier one fails |
| Ports.FirstOpen | groundstation.py:337-345 | the handle is None exactly when no candidate opens, and otherwise the candidate that opens with every earlier one failing |
| Ports.Tried | groundstation.py:339-345 | the candidates tried form a prefix of the list; all but the last failed; the search stops early only at a candidate that opened |
| Ports.Acquire | groundstation.py:338-345 | trying candidates in order, every one tried before the last failed, the handle is the last one tried and it opened, later candidates are untried, and with no success all were tried and the handle stays None |
| Ports.AcquireNonWindows | groundstation/groundstation.py:34 | off Windows the candidates are /dev/ttyACM0, /dev/ttyAMA0, /dev/ttyUSB0 and /dev/serial0 in that order, and the search stops at the first that opens |
| Ingest.RadioCycle | groundstation.py:337-361 | a radio pass changes only `gps`, and only from a chunk tagged 0x28 on an open port, where it applies that chunk; without a handle it acquires the first candidate that opens; an I/O error drops the handle and changes nothing else |
| Ingest.GroundCycle | groundstation.py:316-361 | a full pass of the telemetry thread: the UDP branch sets every field but `gps` as it would alone, and the radio branch sets `gps` and the handle as it would alone, so the two branches never interfere |
| Ingest.RadioCycleStoresFix | groundstation.py:337-358 | once a port is open, the chunk a sender writes for a fix stores exactly that fix and changes nothing else |
| Ingest.DropThenReacquire | groundstation.py:337-361 | after an I/O error drops the handle, the next pass searches the candidates again from the first |
| Ingest.GroundCycleValid | groundstation.py:316-361 | a full pass of the telemetry thread preserves the snapshot invariant |
| Ingest.RcLineValid | groundstation.py:292-302 | an RC line preserves the snapshot invariant |
| Ingest.LegacyRadioCycle | groundstation/groundstation.py:140-151 | the older radio pass never changes its handle, changes nothing without one, and otherwise applies the chunk with the unsigned decode, changing only `gps`; every error is swallowed |
| Ingest.LegacyCycleStoresFix | groundstation/groundstation.py:140-151 | on the older script's open port, the chunk a sender writes for a fix stores each coordinate modulo 2^32 |
| Ingest.LegacyConnect | groundstation/groundstation.py:120-126 | the one search before the loop finds a handle exactly when some candidate opens, and that handle is the first candidate in list order that opens |
| Ingest.LegacyHandleFixed | groundstation/groundstation.py:128-151 | over any number of passes the older reader keeps its first handle, and with none it never updates the snapshot; a pass here is one that received a datagram, since the socket has no timeout and `recvfrom` blocks before the radio branch runs |
| Ingest.LegacyVersusCurrentCycle | groundstation/groundstation.py:146-149 | on the same complete chunk, the older script stores each negative coordinate exactly 2^32 higher than the current one, and the same value otherwise |

## Left out

- Floating point: altitude, speed and battery are exact reals, so the rounding of `+ 0.1`, `+ 0.5` and `- 0.01` is not modelled. Likewise `lat/1e7` is the exact quotient `Telemetry.Degrees`, not its float rendering.
- Serial, socket and Bluetooth I/O. A port opening is the caller's predicate `opens`. A poll of the radio port is the value `Ingest.ReadOutcome`. A UDP receive is `Telemetry.UdpEvent`. The MAVLink branch `b'GPS' in data` does nothing in the source and has no counterpart.
- Thread start-up is not modelled. `sleep` is never imported in groundstation.py. So the end of the first telemetry pass raises NameError at `sleep(0.1)` and ends that thread. In the Taranis reader, any exception that reaches the per-port handler (a failed open, or an I/O error from `readline`) runs `sleep(1)` and ends that thread the same way. Single passes are modelled as written. The lemmas about several passes describe the loops as they would run if `sleep` were defined.
- Telemetry.UdpRunFromInitial: describes telemetry passes after the first, which groundstation.py never reaches because the first ends with the undefined `sleep(0.1)` (groundstation.py:362).
- Telemetry.UdpRunCounts: describes telemetry passes after the first, which groundstation.py never reaches because the first ends with the undefined `sleep(0.1)` (groundstation.py:362).
- Ingest.DropThenReacquire: describes the pass after a dropped handle, which groundstation.py never reaches because every pass, the one that drops the handle included, ends with the undefined `sleep(0.1)` (groundstation.py:362).
- Ingest.LegacyHandleFixed: the older script's UDP socket (groundstation/groundstation.py:116-117) has no timeout, so each pass blocks in `recvfrom` (line 131) until a datagram arrives; with no telemetry the radio branch never runs, and the passes counted are only those that received a datagram.
- The Windows branch of `get_serial_ports`, which probes COM1..COM19 by opening them: this is serial I/O.
- The per-port loop of the Taranis readers, including which port they reach. Only the line-level effect is modelled. For the older reader, that effect includes whether the session on the current port survives (`RcChannels.LegacyRcLine`).
- Integer parsing: UTF-8 decoding of the line (`data.decode()`) is not modelled, and lines are taken as text. Invalid UTF-8 raises there like a malformed part would. `int()` is modelled for ASCII digits only: Python also accepts other Unicode decimal digits, and CPython 3.11+ rejects numbers of more than 4300 digits.
- The older script's telemetry dictionary has no `heading` or `satellites` entry. The model uses one snapshot type for both scripts, and the older script's steps never touch those fields.
- Flask routes, login, sessions, flight history, video capture, the OSD overlay, recording and the pygame UI: these are UI plumbing around the snapshot.
- airside.py: three thread spawns per input line into I/O-only handlers. It has no logic of its own to state.
