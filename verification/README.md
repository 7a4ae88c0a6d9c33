# omviva in Dafny

A model of the core of omviva, a small program that reads body-composition
measurements from an Omron VIVA scale over Bluetooth Low Energy, stores them
in an SQLite database and serves the scale's users in turn, one user per
sync.

The model covers four parts of the program:

- **the record decoder** (`OmronMeasurementWS`): the 21-bit flag field, the
  table of optional fields and their widths, the fixed-point values
  (`Decimal.quantize` with half-up rounding), the seven-byte time stamp read
  as a UTC wall clock, and a record built from a first and a second buffer;
- **the client** (`OmronBLE`): the consent, registration and filter packets,
  the hex round trip and the 16-byte cut of `send`, the per-channel receive
  buffers filled by the notification callback, the notify flag, and
  `get_records`, which writes four requests in a fixed order and cuts the
  measurement buffer into 35-byte records;
- **the store** (`VivaPersistence`): persisting a record only when its
  (sequence number, user) key is new, the highest stored sequence number of
  a user, and the `syncs` table with its "last sync" query;
- **the sync** (`sync()`): the round-robin choice of the next user, the
  sequence number to resume from, and the order of persisting, storing the
  success, disconnecting and closing.

The radio, the clock and the database engine are not modelled. The
notifications the scale sends, the current time and whether connecting and
disconnecting succeed are parameters. Operations the client sends are
recorded as a trace of GATT operations, and the store is a pair of sequences
of rows.

Modules, one per file: `Wrappers` (Option, Result, faults), `Arith`, `Bytes`
(Python slicing, little-endian integers, hex), `FixedPoint`, `Clock`, `Flags`,
`Measurement` (one buffer), `MeasurementRecord` (two buffers), `Chunks` (the
35-byte cut), `SampleRecords` (the repository's own example buffer),
`Packets`, `Comms`, `Persistence`, `SyncPolicy`.

## Model

| member | source | states |
|---|---|---|
| Flags.AllFlagsInBitOrder | omviva_measurement.py:180-201 | There are 21 flags and flag i is the flag of bit i, from ImperialUnit (bit 0) to MultiplePacketMeasurement (bit 20). |
| Flags.Parse | omviva_measurement.py:203-205 | `Flag.parse(bits)` lists exactly the flags whose bit is set in the mask, each once, in increasing bit order. |
| Flags.MaskReadsFirstThreeBytes | omviva_measurement.py:51-52 | The flag mask of a buffer of at least three bytes is its first three bytes read little-endian, and it is below 2^24. |
| Bytes.Slice | omviva_measurement.py:67 | Python slicing `data[lo:hi]` clips at the end of the buffer: the result is as long as the part of lo..hi inside the buffer and holds those bytes. |
| Bytes.LittleEndianRoundTrip | omviva_measurement.py:67 | Reading back the little-endian bytes of a number that fits the width gives the number. |
| Bytes.ToLittleEndianRoundTrip | omviva_measurement.py:67 | Writing back the value of a byte string at its own width gives the bytes. |
| Bytes.FromHexToHex | omviva_comms.py:199-200 | `bytearray.fromhex(bytes(p).hex())` gives back p, for every byte string p. |
| Bytes.ToHexFromHex | omviva_comms.py:199-200 | A string of lower-case hex digits that `fromhex` accepts is the hex form of the bytes it decodes to. |
| Clock.ParseTimestampCountsDays | omviva_measurement.py:157-166 | Fewer than seven bytes raise an index error. Otherwise the stamp is accepted exactly when year, month, day, hour, minute and second form a date and time `time.strptime` accepts, and a rejected one raises. An accepted stamp gives its UTC seconds since 1970-01-01, counted year by year: the lengths of the years from 1970 to the stamp's year, the days of the earlier months and days, then hours, minutes and seconds. |
| Clock.EpochOrigin | omviva_measurement.py:166 | 1970-01-01 00:00:00 is second 0 of `calendar.timegm`. |
| Clock.DayAfter | omviva_measurement.py:165-166 | The day after any date, across month ends, year ends and 29 February, has the next day number, so seconds count continuously across days. |
| Clock.DayNumberCountsYears | omviva_measurement.py:166 | 1 January of year y is as many days from 1970 as the Gregorian year lengths in between add up to. |
| FixedPoint.RoundHalfUpIsNearest | omviva_measurement.py:72 | `quantize(..., ROUND_HALF_UP)` of num/den to p places gives the multiple u of 10^-p with u - 1/2 <= num/den * 10^p < u + 1/2. |
| FixedPoint.RoundHalfUpExact | omviva_measurement.py:72 | A value that already has p decimals is kept unchanged by quantizing to p places. |
| FixedPoint.RoundHalfUpMonotone | omviva_measurement.py:72 | Half-up rounding never reverses the order of two values. |
| Measurement.ReadRaw | omviva_measurement.py:71 | A one-byte read `data[offset]` succeeds exactly inside the buffer and gives that byte. A two-byte `int.from_bytes` of a slice never fails and gives the little-endian value when both bytes are there. |
| Measurement.TableRowsAreFields | omviva_measurement.py:66-155 | Each of the 20 fields is read by exactly one row of the field table. |
| Measurement.CursorCountsFlagWidths | omviva_measurement.py:50-155 | Before the rows of bit b the offset is 3 plus the widths of the set bits below b. |
| Measurement.ConsumedIsAnnouncedLength | omviva_measurement.py:50-155 | After all rows the offset is the announced length: 3 plus the widths of all set bits. |
| Measurement.AnnouncedByRowBit | omviva_measurement.py:66-155 | A field is read exactly when its guarding bit is set; BMI and height share bit 5. |
| Measurement.FieldOffsetIsPayloadBefore | omviva_measurement.py:66-155 | A field is read at 3 plus the payload of every lower set bit, and height 2 bytes after BMI. |
| Measurement.ParseBufferSucceedsIffAnnouncedDecode | omviva_measurement.py:66-155 | `_parse` completes exactly when every announced field decodes. |
| Measurement.ParseBufferReadsAnnouncedFields | omviva_measurement.py:66-155 | A parsed buffer holds a reading for exactly the announced fields, each the value that field decodes to at its offset. |
| Measurement.ParseBufferConsumesAnnouncedLength | omviva_measurement.py:50-65 | A parsed buffer carries the units bit 0 selects and consumed the announced length. |
| Measurement.ParseBufferReadsExactly | omviva_measurement.py:66-155 | A buffer whose announced fields decode to the values of a map m parses to m, with its units and announced length. |
| Measurement.MassIsRawTimesWeightResolution | omviva_measurement.py:70-73 | The weight and the four masses (lines 106-124) are raw × 0.005 kg, or raw × 0.01 lb when bit 0 is set, exactly, in thousandths. |
| Measurement.PercentageIsRawThousandths | omviva_measurement.py:92-95 | Body fat, muscle (101-104) and skeletal muscle (131-134) percentages are raw × 0.1 × 0.01, that is raw thousandths. |
| Measurement.TenthsAreRawTimesHundredThousandths | omviva_measurement.py:83-86 | BMI, and impedance (126-129), are raw × 0.1, that is 100 × raw thousandths. |
| Measurement.HeightRoundsToTenths | omviva_measurement.py:88-90 | Height has one decimal: raw tenths of an inch in imperial units, and in metres raw millimetres rounded half-up to tenths. |
| Measurement.VisceralFatIsHalfSteps | omviva_measurement.py:136-139 | The visceral fat level is one byte × 0.5, that is 500 × raw thousandths. |
| Measurement.CountWordIsRaw | omviva_measurement.py:66-68 | The sequence number and basal metabolism (97-99) are the raw little-endian word at their offset. |
| Measurement.CountByteIsRaw | omviva_measurement.py:141-155 | User id, body age and the three stage evaluations are the byte at their offset, and raise exactly when that offset is past the end. |
| Measurement.StampIsEpochSeconds | omviva_measurement.py:75-77 | The time stamp is the seven bytes at its offset read as a UTC wall clock, and raises what that read raises. |
| Measurement.CompleteBufferParses | omviva_measurement.py:50-155 | A buffer at least as long as it announces parses exactly when its time stamp, if announced, is accepted. |
| Measurement.ParseBufferAcceptsTruncatedRecord | omviva_measurement.py:66-73 | The buffer `06 00 00 b` announces seven bytes and has four, yet `_parse` accepts it with sequence number b and weight 0.000. |
| Measurement.StrictParseRejectsTruncatedRecord | omviva_measurement.py:66-73 | The corrected parse rejects that buffer as a truncated record. |
| Measurement.StrictParseReadsWithinBuffer | omviva_measurement.py:50-155 | The corrected parse accepts exactly the complete buffers with an accepted stamp, never reads past the end, and agrees with `_parse` on every buffer it accepts. |
| MeasurementRecord.FromBuffers | omviva_measurement.py:46-48 | A first buffer that fails to parse fails the record with the same fault; a non-empty second buffer that fails to parse fails the record too. |
| MeasurementRecord.FromBuffersSucceeds | omviva_measurement.py:46-48 | A record is built exactly when the first buffer parses and the second is empty or parses. |
| MeasurementRecord.FromBuffersReadings | omviva_measurement.py:22-48 | The record holds exactly the fields either buffer announces; a field a non-empty second buffer announces comes from it, any other from the first. |
| MeasurementRecord.FromBuffersUnits | omviva_measurement.py:55-64 | The unit labels are those of the last buffer parsed. |
| Chunks.ChunkCount | omviva_comms.py:153 | `range(0, n, 35)` has ceil(n / 35) offsets. |
| Chunks.ChunksRebuildBuffer | omviva_comms.py:153-154 | The slices `data[i:i+19]` and `data[i+19:i+35]` over all offsets, laid end to end, are the buffer. |
| Chunks.DecodeChunksIsPerChunk | omviva_comms.py:153-155 | The loop succeeds exactly when every chunk decodes, and then result k comes from chunk k. |
| Chunks.RecordsArePerChunk | omviva_comms.py:153-155 | The measurement buffer yields ceil(n / 35) records, record k from `data[35k:35k+19]` and `data[35k+19:35k+35]`, or fails when some chunk does. |
| Chunks.RecordsOfJoin | omviva_comms.py:153-155 | Whole 19 + 16 byte pairs laid end to end decode into one record per pair, in order. |
| SampleRecords.ChunkFields | persistence.py:119-124 | A complete pair of the repository's two buffer layouts gives a record with exactly the fields of both layouts. |
| SampleRecords.SampleRecordsArePairs | persistence.py:119-124 | The example buffer is 105 bytes and decodes into three records, record k from pair k. |
| SampleRecords.SampleDecodes | persistence.py:119-124 | The example buffer holds sequence numbers 1, 2 and 3 of user 1 weighing 78.800, 78.800 and 79.100 kg, stamped 1733048636, 1733049803 and 1735576125. |
| Packets.Consent | omviva_comms.py:167-174 | The consent packet is 4 bytes; a user index outside 0..255 cannot be stored in a `bytearray` and raises. |
| Packets.ConsentRoundTrip | omviva_comms.py:167-174 | The consent packet of user u is `02 u 0e 02`, and reading it back gives u. |
| Packets.ConsentUserIsConsent | omviva_comms.py:167-174 | Any packet that reads as a consent for u is the consent packet of u. |
| Packets.RegisterIgnoresUser | omviva_comms.py:177-183 | The registration packet is the same for every user index: opcode 1 then the consent code 0x020E little-endian. |
| Packets.FilterCarriesSequence | omviva_comms.py:186-196 | The filter carries its sequence number modulo 2^16 little-endian (Python's `&` and `>>` on any integer), opcode 4 exactly for a count request, then operator 3 and filter type 1; a sequence number below 2^16 reads back unchanged. |
| Comms.NewClient | omviva_comms.py:23-28 | A new client is not notifying, has five empty buffers and has sent nothing. |
| Comms.IndexOf | omviva_comms.py:69-71 | `list.index` finds x exactly when x is in the list, at its first position. |
| Comms.OnNotify | omviva_comms.py:67-77 | A notification from a receive handle appends its bytes to that channel's buffer (or becomes it when the buffer is `None`) and touches nothing else; any other handle raises before a buffer changes. |
| Comms.ReceiveCollects | omviva_comms.py:67-77 | After a run of notifications, a channel's buffer is its old contents followed by the bytes from its handle in arrival order, and unchanged when nothing came from that handle. |
| Comms.NotifyFlagIdempotent | omviva_comms.py:53-65 | Enabling twice subscribes once, disabling twice unsubscribes once, and an enable and disable from the unsubscribed state subscribe and unsubscribe the three channels in order exactly once. |
| Comms.Send | omviva_comms.py:161-164 | `send` succeeds exactly when the hex string decodes, and then writes one payload of at most 16 bytes to the given characteristic and changes nothing else. |
| Comms.SendHexOf | omviva_comms.py:161-164 | Sending the hex form of a packet writes the packet, cut to its first 16 bytes. |
| Comms.FinishHex | omviva_comms.py:147 | The literal `"1000"` is the two bytes `10 00`, the last request `get_records` writes. |
| Comms.GetRecords | omviva_comms.py:136-159 | `get_records` leaves notifications enabled exactly when it raises. |
| Comms.GetRecordsWriteOrder | omviva_comms.py:136-158 | For a user index in 0..255 the operations are the subscriptions (unless already subscribed), then consent, count filter, records filter and the finishing `10 00` request, in that order, then the unsubscriptions only when the records decoded. |
| Comms.GetRecordsRejectsUser | omviva_comms.py:137-140 | A user index outside 0..255 raises after subscribing and before any write. |
| Comms.GetRecordsFromNewClient | omviva_comms.py:149-155 | On a new client the records come from exactly the bytes notified on the measurement handle, in arrival order, and are none when there are none. |
| Comms.GetRecordsChunks | omviva_comms.py:149-155 | On a new client record k comes from bytes 35k..35k+19 and 35k+19..35k+35 of the measurement bytes, ceil(n / 35) records, and the call raises exactly when some chunk does not decode. |
| Persistence.Required | persistence.py:76 | `int(...)` of a reading succeeds exactly when the field was read; `int(None)` raises. |
| Persistence.KeyCountCounts | persistence.py:72-80 | The `COUNT(*)` is positive exactly when a row has the key, and at most 1 while keys are unique. |
| Persistence.Persist | persistence.py:69-101 | Persisting fails only on a missing field and never touches the `syncs` table. |
| Persistence.PersistSucceeds | persistence.py:69-101 | Persisting succeeds exactly when the record has a sequence number and a user id and either its key is stored or it also has a time stamp, basal metabolism and body age. |
| Persistence.PersistDeduplicates | persistence.py:72-101 | A stored key changes nothing; a new key appends exactly one row, leaving the earlier rows alone, whose every column comes from the record: the key, time stamp, basal metabolism and body age converted by `int`, and weight, BMI, height, body fat, skeletal muscle and visceral fat as read (absent when not read). |
| Persistence.PersistKeepsKeysUnique | persistence.py:72-101 | Persisting keeps at most one row per (sequence number, user), and the record's key is stored afterwards. |
| Persistence.PersistIdempotent | persistence.py:69-101 | Persisting the same record twice is persisting it once. |
| Persistence.HighestIsMaximum | persistence.py:59-67 | The highest sequence number is `None` exactly when the user has no rows, and otherwise a stored sequence number of the user no smaller than any other. |
| Persistence.StoreSuccess | persistence.py:50-57 | Storing a success appends the sync row (now, user) after the existing ones and leaves the measurements alone. |
| Persistence.LastSync | persistence.py:41-48 | The last sync is `None` exactly when the table is empty. |
| Persistence.LatestIndexIsFirstMaximum | persistence.py:41-48 | The row the last sync reports has the largest time stamp, and no earlier row has it. |
| Persistence.StoreSuccessIsLastSync | persistence.py:41-57 | A success stored later than every earlier sync becomes the last sync; one stored no later than some earlier sync leaves the last sync as it was. |
| SyncPolicy.NextUser | omviva.py:27-36 | With no sync, or a last sync at time stamp 0, the next user is 1. |
| SyncPolicy.NextUserIsRoundRobin | omviva.py:28-33 | After user k of n the next user is k mod n + 1, always in 1..n. |
| SyncPolicy.TurnsCycle | omviva.py:28-33 | j successful syncs after user k, the user is (k - 1 + j) mod n + 1: all n users take turns. |
| SyncPolicy.ResumeFollowsStored | omviva.py:38-45 | The sequence number `get_records` starts from lies above every stored one of the user, is 1 or directly follows a stored one, and is 1 when the user has no rows. |
| SyncPolicy.PersistAllInOrder | omviva.py:46-47 | The loop persists every record, or the first k and then stops on the fault of record k; keys stay unique either way. |
| SyncPolicy.AllPersisted | omviva.py:46-47 | The trace of n persists is one `Persisted` step per record, in order. |
| SyncPolicy.AttemptShapes | omviva.py:43-51 | A transfer that connects, fetches and persists everything writes, in order, the fetch, one persist per record, the success for its user at `now` and the disconnect; any other transfer ends in a fault, stores no success and leaves `syncs` alone; none closes the store. |
| SyncPolicy.SyncClosesOnce | omviva.py:43-53 | A sync closes the store exactly once, as its last step, whatever happened. |
| SyncPolicy.SyncStoresSuccessOnlyOnSuccess | omviva.py:43-51 | The success of the chosen user is stored exactly when connecting, fetching (every GATT operation of `get_records` completing, the consent packet building and every chunk decoding) and every persist succeed, as one row at `now`; otherwise `syncs` is unchanged. |
| SyncPolicy.FetchFor | omviva_comms.py:136-158 | A GATT subscribe, write or unsubscribe that raises makes the fetch fail with a transport fault; otherwise the fetch returns what `get_records` decodes on a fresh client for the chosen user from the resume sequence. |
| SyncPolicy.SyncTransferFailureStoresNoSuccess | omviva.py:43-53 | When a GATT operation inside `get_records` raises, the fault is swallowed: no success is stored, `syncs` is unchanged and the store is still closed last. |
| SyncPolicy.SyncStoresSuccessAfterPersisting | omviva.py:45-48 | A stored success comes after the fetch and one persist per fetched record, with no fault before it. |
| SyncPolicy.SyncKeepsKeysUnique | omviva.py:43-53 | A sync keeps at most one row per (sequence number, user). |
| SyncPolicy.SyncAdvancesTurn | omviva.py:27-48 | After a successful sync later than every earlier one, the next sync serves the user after this one. |

## Left out

- Bluetooth: connecting, pairing, unpairing, disconnecting and the GATT subscribe, write and unsubscribe calls are not modelled; whether connecting, the GATT operations of `get_records` and disconnecting succeed is a parameter of the sync (`Link`). A failing GATT operation is reported as a transport fault, without saying which operation failed or whether a consent or decode fault would have come first.
- Timing: the `asyncio.sleep` calls and the moment notifications arrive. The notifications of one `get_records` are a parameter and are delivered after the four writes and before the buffer is read.
- The SQLite engine, `commit`, `close` of the connection and the decimal adapters. The tables are sequences of rows; the store's `close` is the final `Closed` step of a sync.
- Floating point: the program multiplies by floats before `Decimal` and quantizes. The model computes with the exact decimal resolution, so a value the float would round across a half-way point may differ in the last place.
- `BodyCompositionFeature` is not part of this model. `get_records` never passes one, so the default resolutions are used.
- Logging and `__str__`.
- `register_user`, `register_user2`, `pair`, `getConfig` and `main` are not on the sync path.
- The callback's record-access branch (omviva_comms.py:79-82) only logs the count of stored records. It can raise an index error on an empty payload or an attribute error on an integer handle, and both happen after the buffer update; the model keeps the buffer update and drops these raises.
- A callback exception is modelled as swallowed: the notification is skipped and the buffers stay as they were.
- `datetime.fromtimestamp` and `strftime` of the last sync time (omviva.py:29) only format a log line; its range error is not modelled.
- Comms.EnableNotify: does not model the five-second sleep before subscribing.
- Comms.GetRecords: assumes every GATT subscribe, write and unsubscribe completes (their failure is the `transfers` flag of SyncPolicy's `Link`), so its flag-and-raise link does not cover a `start_notify` that raises with the flag still off; it states the link between the notify flag and a raise; the operations and records are stated by GetRecordsWriteOrder, GetRecordsFromNewClient and GetRecordsChunks.
- SyncPolicy.NextUser: its contract states only the first-sync case; the turn taking is stated by NextUserIsRoundRobin and TurnsCycle.
- Persistence.Persist: its contract states the fault and that `syncs` is untouched; what is stored is stated by PersistSucceeds and PersistDeduplicates.
- MeasurementRecord.FromBuffers: decodes each buffer with the corrected parse (see Findings), not with `_parse` as written. On a buffer shorter than its flags announce, the model raises TruncatedRecord where the source reads clipped fields. For example, a 20-byte measurement buffer whose twentieth byte is `06` gives the one-byte data2 `06`; `_parse` reads its sequence number and weight as 0, overwriting data1's, where the model raises. The rows that inherit this are MeasurementRecord.FromBuffersSucceeds, MeasurementRecord.FromBuffersReadings, MeasurementRecord.FromBuffersUnits, Chunks.RecordsArePerChunk, Chunks.RecordsOfJoin, Comms.GetRecordsWriteOrder, Comms.GetRecordsChunks and the SyncPolicy rows.

## Findings

| source | as written | input that shows it | evidently intended | confidence | as-written member | corrected member |
|---|---|---|---|---|---|---|
| omviva_measurement.py:66-73 | `_parse` reads 2-byte fields from slices that Python clips at the end of the buffer, so a buffer shorter than its flags announce still parses, with fields that are shorter or zero | the 4-byte buffer `06 00 00 b` announces a sequence number and a weight (7 bytes) and parses to sequence number b and weight 0.000 kg | a buffer shorter than its flags announce is rejected as a truncated record | medium, not executed | Measurement.ParseBufferAcceptsTruncatedRecord | Measurement.StrictParseRejectsTruncatedRecord |
