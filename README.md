# Sensor ingestion, deduplication, aggregation and broadcast — a Dafny model

This project models the core of a temperature/humidity sensor pipeline. The
pipeline has a JavaScript side and a set of older Python scripts.

The JavaScript side:

- Gateways POST arrays of MST01 readings. `sensorListener.js` and
  `services/sensorHandler.js` filter the items, suppress retransmissions with
  an in-memory key set whose entries expire after 30 seconds or 5 minutes,
  and append the rest to the SQLite store of `db/storage.js`.
- The store also keeps sensor names and per-sensor summaries. It aggregates
  readings either over a fixed window ("5m", "1h") or since a per-sensor
  checkpoint.
- `parser/parser.js` normalises sensor ids and keeps MST01 items.
- `websocket/broadcast.js` keeps the list of connected dashboards and sends
  each live payload to the open ones.

The Python scripts under `old/`:

- `gateway_listener.py` remembers the last values per MAC address.
- `decrypt.py` decodes Minew S3 and Connect V3 advertisement frames from hex
  lines, some of them AES-encrypted.
- `hex.py` walks a BLE advertisement to the Minew manufacturer data and tries
  three layouts to read it.
- `hextobin.py` renders hexadecimal tokens as 8-bit binary words.

## Modules

Each module matches one source file, plus shared helper modules.

- **Wrappers**: `Option` and `Result`.
- **Loops**: the Python scripts' loop that collects each element's result in order and stops at the first error, and the filter that keeps the present results.
- **Text**: Python `str.strip`/`split`/`join`, ASCII `toLowerCase`, digits in a radix, zero padding.
- **Bytes**: `binascii.unhexlify`, `bytes.fromhex`, big-endian integers, `[::-1]`.
- **Utf8**: strict UTF-8 decoding.
- **Clock**: `toISOString` over integer milliseconds.
- **Items**: the JSON item of a gateway POST, where each property is missing, null or a value.
- **Tables**: the four tables as one value, with the SELECT queries:
  - the history of a sensor;
  - the recent readings;
  - the summary per device.
- **Aggregation**: `timeFrameToMilliseconds`, `aggregateSensorData` and `aggregateSensorDataCheckpoint`, as functions on the tables.
- **Storage**: class `SensorDatabase`. Its fields are the tables. Its methods change them step by step and are proved to end in the state the specification functions describe.
- **Dedup**: class `RecentKeys`, the duplicate cache with first-seen times and expiry.
- **SensorListener**: class `Listener`, the POST handler of `sensorListener.js`.
- **SensorHandler**: class `PacketHandler`, `handleSensorPacket`.
- **Parser**: `normalizeSensorId` and `parseIncomingItems`.
- **Broadcast**: class `Socket`, class `Dashboard` (connect, close, broadcast).
- **GatewayListener**: class `GatewayApp`, the Flask handler with its `last_values` dictionary.
- **Decrypt**: `parse_signed_88` and `parse_samples`.
- **HexPacket**: the advertisement walk, `parse_sensor_data` and `process_packet`.
- **HexToBin**: `hex_to_binary`.

## How the source is modelled

- **Timestamps** are integer milliseconds since the epoch. Timestamps that
  `toISOString` cannot render are modelled as the RangeError the source
  throws.
- **Item properties** are `Undefined | Null | Value`. JavaScript's `== null`,
  `!== undefined`, truthiness and SQL binding (both absent forms become NULL)
  are each written out.
- **Clock reads** become a parameter `now`. Both clock reads inside one
  aggregation see the same `now`, and so do all items of one listener
  request (see "Left out").
- **Default arguments** are named constants: `Tables.DefaultHistoryLimit`
  (500), `Tables.DefaultRecentLimit` (50) and
  `Aggregation.DefaultCheckpointFrame` ("checkpoint"). A call that omits the
  argument is the call with that constant.
- **Expiry**: `setTimeout` removal becomes `Expire(now)`, which drops the
  keys first seen at least a TTL ago. A request handler expires its cache at
  the start of each request.
- **Store faults**: an INSERT fails when it violates NOT NULL or when its
  position is in an injected set of failing positions. A failed insert is
  logged and skipped, as in the source.
- **The AES block cipher** is a function parameter.
- **Reading a file** becomes a sequence of lines.
- **Aggregate means** follow the code, which differs from SQL AVG:
  - `rows.reduce(...) / rows.length` adds NULL as 0 and divides by all rows;
  - SQL `AVG` in `getSummaryPerDevice` skips NULLs.
- **Order of equal timestamps**: `ORDER BY` is modelled as a stable sort.

Two behaviours of the code are kept as written, though its comments suggest
otherwise:

- `aggregateSensorDataCheckpoint` advances the checkpoint to `now` even when
  the sensor has no readings at all (db/storage.js:227-228).
- The checkpoint scan starts one second after the stored checkpoint. Readings
  stored in that gap are never selected by later checkpoint runs. This is
  proved as `Aggregation.CheckpointGapPersists`.

Two details of the Python scripts follow the code as written:

- In `hex.py`, `struct.unpack` receives 2 bytes where the formats `>hH` and
  `<hH` need 4. Every attempt of `parse_sensor_data` therefore raises and is
  skipped, so `process_packet` always returns None.
- In `gateway_listener.py`, the print on line 28 raises KeyError when an
  item has no `temperature`, `humidity` or `rssi`. By then `last_values` has
  already been updated, and the request ends with a server error.

## Model

| member | source | states |
|---|---|---|
| Items.ToSql | db/storage.js:42 | a property binds to NULL exactly when it is missing or null, and otherwise to its value |
| Text.StripTrims | old/decrypt.py:16 | `strip()` removes a whitespace prefix and a whitespace suffix and keeps the middle as it was, and the result neither begins nor ends with whitespace |
| Text.SplitWsSeparates | old/hextobin.py:4 | the input is the tokens of `split()` interleaved with whitespace-only gaps, the inner gaps non-empty, so the tokens are exactly the maximal non-whitespace runs, in order |
| Text.SplitJoinRoundTrip | old/hextobin.py:4-6 | splitting the space-join of whitespace-free tokens gives the tokens back |
| Text.ToLowerAscii | parser/parser.js:4 | lower-casing keeps the length and maps each character through the ASCII case map |
| Text.RadixValueOfDigits | old/hextobin.py:5 | the digits of n in radix r read back as n |
| Text.RadixValueLeadingZero | old/hextobin.py:5 | a leading zero digit does not change a numeral's value |
| Text.ZeroPadShape | old/hextobin.py:5 | zero padding reaches the width (or keeps a longer string), keeps the string as suffix, and adds only '0's |
| Bytes.Unhexlify | old/decrypt.py:17 | unhexlify succeeds exactly on even-length all-hex text and returns half as many bytes |
| Bytes.FromHexAccepts | old/hex.py:36-39 | bytes.fromhex succeeds exactly when the text is a concatenation of two-hex-digit pairs and single ASCII whitespace characters (space, \t, \n, \v, \f, \r), and then returns the bytes of the pairs in order |
| Bytes.FromHexOfChunks | old/hex.py:37 | the text made of given hex pairs and ASCII whitespace characters (space, \t, \n, \v, \f, \r) parses to the bytes of the pairs |
| Bytes.FromHexHasChunks | old/hex.py:37 | text that parses is made of hex pairs and ASCII whitespace characters (space, \t, \n, \v, \f, \r) |
| Bytes.Hex | old/decrypt.py:34 | hex encoding writes two lower-case hex digits per byte |
| Bytes.UnhexlifyHex | old/decrypt.py:17 | unhexlify inverts hex encoding |
| Bytes.FromHexOfHex | old/hex.py:37 | bytes.fromhex inverts hex encoding |
| Bytes.BigEndianBound | old/decrypt.py:50 | an unsigned big-endian value of n bytes is below 256^n |
| Bytes.Reverse | old/decrypt.py:34 | `[::-1]` keeps the length and puts element i at position n-1-i |
| Utf8.CodePoint | old/decrypt.py:59 | a well-formed sequence decodes to a Unicode scalar value (no surrogate, below 0x110000) |
| Utf8.EncodeChar | old/decrypt.py:59 | every character encodes to a well-formed sequence |
| Utf8.DecodeAccepts | old/decrypt.py:59 | decoding succeeds exactly when the bytes split into well-formed sequences, and then yields one character per sequence, in order |
| Utf8.DecodeOfParts | old/decrypt.py:59 | the concatenation of well-formed sequences decodes to their characters |
| Utf8.DecodedHasParts | old/decrypt.py:59 | bytes that decode split into well-formed sequences |
| Utf8.DecodeEncode | old/decrypt.py:59 | decoding the UTF-8 encoding of a string gives the string back |
| Utf8.DecodeAscii | old/decrypt.py:59 | ASCII bytes always decode, one character per byte, with the same value |
| Tables.OrderByTimestampSorts | db/storage.js:87 | ORDER BY timestamp yields a sorted permutation of the rows |
| Tables.InsertSortedKeepsOrder | db/storage.js:87 | inserting into a sorted sequence keeps it sorted |
| Tables.Limit | db/storage.js:88 | LIMIT n keeps the first n rows, or all rows when n is negative or at least the row count |
| Tables.OfSensorAppend | db/storage.js:86 | the sensor filter distributes over concatenation and keeps a single row exactly when it belongs to the sensor, so it keeps exactly that sensor's rows, in order |
| Tables.SensorHistoryContract | db/storage.js:82-91 | the history has min(limit, count) rows of the sensor, newest first, and no left-out row is newer than a returned one |
| Tables.RecentReadings | db/storage.js:111-120 | one joined row per selected reading |
| Tables.RecentReadingsContract | db/storage.js:111-120 | the recent readings are limited, newest first, each backed by a stored reading, carry the sensor's name (LEFT JOIN), and no left-out reading is newer |
| Tables.SumPresentPermutation | db/storage.js:148 | the reduce sum of a column does not depend on the row order |
| Tables.NewestIsLatest | db/storage.js:51-57 | the newest reading is one of the rows and no row has a later timestamp |
| Tables.SensorIds | db/storage.js:63 | GROUP BY sensorId yields each sensor that has readings exactly once |
| Tables.SummaryPerDeviceContract | db/storage.js:47-79 | one summary per sensor with readings, none twice, each holding the sensor's name, its newest reading and the AVG of each column over its readings |
| Tables.MeanOfTwo | db/storage.js:58-59 | AVG of two present values is their arithmetic mean |
| Tables.SummaryOfTwoReadings | db/storage.js:47-79 | for any two readings of one sensor, the summary is one row: the later reading and the mean of each pair of values |
| Storage.InsertReadingContract | db/storage.js:37-44 | an insert succeeds exactly when sensorId and timestamp are present and no fault occurs; it appends exactly the given row and returns the new row count as lastID; a failed insert changes nothing |
| Storage.SetNameContract | db/storage.js:94-102 | the upsert sets this sensor's name, leaves other names and tables unchanged, and is idempotent |
| Storage.ReduceSum | db/storage.js:148-149 | the reduce loop returns the column sum with NULL counted as 0 |
| Storage.SensorDatabase.constructor | db/storage.js:4 | the store starts with four empty tables |
| Storage.SensorDatabase.InsertReading | db/storage.js:37-44 | the tables and the result are those of the insert specification |
| Storage.SensorDatabase.SetSensorName | db/storage.js:94-102 | the tables become those of the name upsert and the call resolves to true |
| Storage.SensorDatabase.UpdateLastAggregatedAt | db/storage.js:186-194 | the checkpoint upsert sets this sensor's checkpoint and resolves to true |
| Storage.SensorDatabase.InsertAggregate | db/storage.js:151-165 | the aggregate row is appended and nothing else changes |
| Storage.SensorDatabase.AggregateSensorData | db/storage.js:135-174 | tables and result are those of the fixed-window aggregation |
| Storage.SensorDatabase.AggregateSensorDataCheckpoint | db/storage.js:199-290 | tables and result are those of the checkpoint aggregation |
| Aggregation.ParseIntOfDecimal | db/storage.js:127 | parseInt reads back the decimal numeral that leads its argument |
| Aggregation.TimeFrameToMilliseconds | db/storage.js:125-132 | the conversion throws "Unsupported time frame" exactly when the token ends in neither 'm' nor 'h' |
| Aggregation.TimeFrameMinutes | db/storage.js:126-127 | "<n>m" is n minutes in milliseconds |
| Aggregation.TimeFrameHours | db/storage.js:128-129 | "<n>h" is n hours in milliseconds |
| Aggregation.Since | db/storage.js:139-145 | the window query keeps exactly this sensor's readings at or after the start |
| Aggregation.Between | db/storage.js:209-215 | the checkpoint query keeps exactly this sensor's readings after the start and at most the end |
| Aggregation.ReduceMeanPermutation | db/storage.js:148-149 | the reduce mean does not depend on the row order |
| Aggregation.ReduceMeanCountsNull | db/storage.js:148 | for every list of values, a NULL appended leaves the sum alone, adds one to the divisor, and leaves SQL AVG unchanged |
| Aggregation.ReduceMeanIsAvgWithoutNull | db/storage.js:148 | without NULLs, the reduce mean equals SQL AVG |
| Aggregation.WindowStartOfFrame | db/storage.js:136-138 | the window starts the frame's length before now |
| Aggregation.AggregateFixedErrors | db/storage.js:131-138 | an unsupported token throws, a start that toISOString cannot render throws a RangeError, and both leave the tables unchanged |
| Aggregation.AggregateFixedEmptyWindow | db/storage.js:146 | with no reading in the window the result is null and nothing is written |
| Aggregation.AggregateFixedContract | db/storage.js:145-173 | with readings in the window, one aggregate row is appended with a newest reading of the window and the reduce means over it, and the result reports the same values |
| Aggregation.LastAggregatedAt | db/storage.js:177-183 | the checkpoint is present exactly when the sensor has a row, and it is that row's value |
| Aggregation.SetCheckpoint | db/storage.js:186-194 | the upsert sets this sensor's checkpoint, keeps the others, and leaves the other tables alone |
| Aggregation.CheckpointStart | db/storage.js:202-205 | the scan starts at the epoch without a checkpoint, otherwise one second after it (RangeError if unrepresentable) |
| Aggregation.CheckpointSelection | db/storage.js:209-215 | the scan is exactly this sensor's readings in (start, now], oldest first, and skips everything up to one second after the checkpoint |
| Aggregation.CheckpointWithNewReadings | db/storage.js:253-286 | with new readings, one row with the newest reading of the scan and its reduce means is appended and the checkpoint becomes now |
| Aggregation.CheckpointWithoutNewReadings | db/storage.js:217-251 | without new readings the checkpoint still becomes now; a sentinel row copying the newest historical reading into last and mean columns is appended exactly when the sensor has readings |
| Aggregation.AggregateCheckpointFrame | db/storage.js:199-290 | every run leaves readings and names alone and appends at most one aggregate row; a throwing run changes nothing; a returning run sets only this sensor's checkpoint |
| Aggregation.CheckpointGap | db/storage.js:203-205 | a reading in the second after the checkpoint is not selected and stays in the gap after the run |
| Aggregation.CheckpointRuns | db/storage.js:199-290 | repeated checkpoint runs never change readings or names |
| Aggregation.CheckpointGapPersists | db/storage.js:203-205 | a reading in the gap is never selected by any later sequence of checkpoint runs |
| Dedup.Expired | sensorListener.js:26 | expiry keeps exactly the keys first seen less than a TTL ago, with their times |
| Dedup.CheckContract | sensorListener.js:21-28 | a key is a duplicate exactly when it is cached; a new key is cached with the current time and nothing else changes |
| Dedup.DuplicateUntilDeadline | services/sensorHandler.js:10-18 | a key seen at time s is a duplicate before s + TTL and not from then on |
| Dedup.ExpiredIdempotent | services/sensorHandler.js:16 | expiring twice at the same time is the same as expiring once |
| Dedup.RecentKeys.constructor | services/sensorHandler.js:4 | the cache starts empty with the given TTL |
| Dedup.RecentKeys.IsDuplicate | services/sensorHandler.js:10-18 | answer and new cache are those of the duplicate check |
| Dedup.RecentKeys.Expire | services/sensorHandler.js:16 | the cache becomes its expiry at now |
| SensorListener.AbortedStays | sensorListener.js:44-45 | once a timestamp throws, the rest of the batch is not processed |
| SensorListener.ProcessKeepsKeysFresh | sensorListener.js:38-66 | every row the batch stores has a key not live in the cache when processing started, cached afterwards |
| SensorListener.RequestNeverStoresTwice | sensorListener.js:30-69 | a request only appends readings, each with a key not live before it and each the row of an admitted item with a valid time whose insert did not fail, never two with the same sensor and timestamp, and leaves the other tables alone |
| SensorListener.ProcessRowsFromItems | sensorListener.js:38-66 | the loop keeps the rows it found and every row it adds is the mac, time and values of an admitted item with a valid time whose insert did not fail |
| SensorListener.AbortedExactlyOnInvalidTime | sensorListener.js:42-45 | the loop throws exactly when some admitted item has a time toISOString cannot render |
| SensorListener.CachedKeysFromItems | sensorListener.js:42-48 | every key cached by the loop was cached before or is the key of an admitted item of the batch |
| SensorListener.FreshItemStored | sensorListener.js:38-66 | an admitted item whose key is new to the cache and to the earlier items, and whose insert does not fail, is stored by the loop |
| SensorListener.FreshItemIsStored | sensorListener.js:30-69 | a request stores an admitted item with a fresh key whose insert does not fail, unless the request threw at or before it |
| SensorListener.ReplyReportsInvalidTime | sensorListener.js:42-68 | the reply is `{status: 'ok'}` exactly when no admitted item has an invalid time |
| SensorListener.FailedInsertKeepsKey | sensorListener.js:48-64 | a failed insert stores nothing but keeps the key cached |
| SensorListener.FailedInsertRepeated | sensorListener.js:44-64 | an item with its own timestamp whose insert failed is skipped when it comes again in the request, so it is never stored |
| SensorListener.NotAnArrayStoresNothing | sensorListener.js:32-34 | a body that is not an array is answered 400 and stores nothing |
| SensorListener.SingleItem | sensorListener.js:42-64 | an admitted item with a fresh key is stored as given and cached |
| SensorListener.SingleItemRepeated | sensorListener.js:44-64 | an item with its own timestamp sent twice in one request is stored once |
| SensorListener.InvalidTimeAborts | sensorListener.js:44-45 | an admitted item whose time toISOString cannot render aborts the request before anything is stored |
| SensorListener.Listener.constructor | sensorListener.js:11-13 | the listener starts with an empty 30-second cache |
| SensorListener.Listener.HandleData | sensorListener.js:30-69 | cache, tables and reply are those of the request specification |
| SensorListener.Listener.Visit | sensorListener.js:42-64 | one pass of the loop body over an item changes the cache and the tables, and throws, exactly as one step of the request spec |
| SensorHandler.ProcessKeepsKeysFresh | services/sensorHandler.js:23-49 | every stored row's key was not live before and is cached afterwards, and every new key comes from a considered item |
| SensorHandler.PacketNeverStoresTwice | services/sensorHandler.js:20-50 | a packet only appends readings, each the row of a considered item with mac and timestamp whose insert did not fail, never two with the same sensor and timestamp, caches only keys of considered items, and leaves the other tables alone |
| SensorHandler.ProcessRowsFromItems | services/sensorHandler.js:23-49 | the loop keeps the rows it found and every row it adds is exactly a considered item with mac and timestamp whose insert did not fail |
| SensorHandler.FreshItemStored | services/sensorHandler.js:23-49 | a considered item with mac and timestamp whose key is new to the cache and to the earlier items, and whose insert does not fail, is stored by the loop |
| SensorHandler.FreshItemIsStored | services/sensorHandler.js:20-50 | a packet stores such an item exactly as received |
| SensorHandler.FailedInsertKeepsKey | services/sensorHandler.js:33-48 | a failed insert stores nothing but keeps the key cached, so the same item again in the packet is skipped |
| SensorHandler.NotAnArrayIsIgnored | services/sensorHandler.js:21 | a non-array packet and an empty one store nothing |
| SensorHandler.IncompleteItemBlocksItsKey | services/sensorHandler.js:32-48 | an item without mac or timestamp is not stored but its key is cached, so a later item with the same key is skipped |
| SensorHandler.PacketHandler.constructor | services/sensorHandler.js:4 | the handler starts with an empty 5-minute cache |
| SensorHandler.PacketHandler.HandleSensorPacket | services/sensorHandler.js:20-50 | cache and tables are those of the packet specification |
| Parser.NormalizeSensorIdContract | parser/parser.js:3-5 | a falsy id becomes "", each upper-case ASCII letter becomes its lower-case letter, other characters are kept, and normalising is idempotent |
| Parser.ParseItemsAppend | parser/parser.js:7-31 | parsing a concatenation is the concatenation of the parses |
| Parser.ParseItemsOne | parser/parser.js:15-27 | an item yields one parsed record exactly when its type is MST01 |
| Parser.ParseItemsMembers | parser/parser.js:7-31 | the parsed records are exactly the records of the MST01 items |
| Parser.ParseIncomingItems | parser/parser.js:7-31 | an absent argument yields [], null throws, and an array yields the parsed records |
| Broadcast.WithoutContract | websocket/broadcast.js:12 | the filter removes every occurrence of the closed socket and keeps all others |
| Broadcast.WithoutAppend | websocket/broadcast.js:12 | the filter distributes over concatenation |
| Broadcast.Socket.constructor | websocket/broadcast.js:7 | a socket starts with its ready state and nothing sent |
| Broadcast.Socket.Send | websocket/broadcast.js:22 | send appends the payload to the socket's outbox |
| Broadcast.Dashboard.constructor | websocket/broadcast.js:1 | no client is connected at first |
| Broadcast.Dashboard.Connect | websocket/broadcast.js:7-8 | a connection is appended to the clients |
| Broadcast.Dashboard.Close | websocket/broadcast.js:11-14 | closing removes the socket from the clients |
| Broadcast.Dashboard.Broadcast | websocket/broadcast.js:18-25 | every open client receives the payload once per time it is listed; closed clients receive nothing |
| GatewayListener.HasChangedContract | old/gateway_listener.py:9-16 | an unseen MAC has changed; a seen one has changed exactly when temperature or humidity differs; rssi plays no part |
| GatewayListener.ResubmitIsUnchanged | old/gateway_listener.py:23-27 | after an item is recorded, resubmitting it is no change |
| GatewayListener.OtherMacsUntouched | old/gateway_listener.py:23-27 | a batch leaves the entries of MACs it does not mention as they were |
| GatewayListener.LaterItemSeesEarlier | old/gateway_listener.py:23-28 | a later item with the same values for the same MAC in one batch changes nothing |
| GatewayListener.ProcessSplit | old/gateway_listener.py:23-28 | processing a batch in two parts equals processing it whole |
| GatewayListener.RaisedStays | old/gateway_listener.py:28 | once the print raises, the rest of the batch is not processed |
| GatewayListener.NothingToIterate | old/gateway_listener.py:20-30 | an empty object or string is answered 200 like an empty list and changes nothing; a body len() or .get rejects is a server error that changes nothing |
| GatewayListener.GatewayApp.constructor | old/gateway_listener.py:7 | last_values starts empty |
| GatewayListener.GatewayApp.ReceiveData | old/gateway_listener.py:18-30 | last_values and reply are those of the request specification |
| Decrypt.Signed88Contract | old/decrypt.py:4-7 | two bytes are a signed 16-bit big-endian value in [-128, 128) after /256, and encoding then parsing gives v/256 back |
| Decrypt.DecryptPayloadContract | old/decrypt.py:43-46 | only bytes 3 to 18 are replaced, by the cipher's output for them |
| Decrypt.StripNulTrims | old/decrypt.py:59 | strip('\x00') removes a NUL prefix and a NUL suffix, keeps the middle as it was, and leaves no NUL at either end |
| Decrypt.S3Frame | old/decrypt.py:27-35 | an S3 version-3 frame of at least 16 bytes yields battery, 8.8 temperature and humidity, and the device id read from bytes 12 to 17 reversed |
| Decrypt.ConnectEncryptedFrame | old/decrypt.py:42-52 | a 0x1b frame is read as received without key or flag, is caught with an invalid key, and is read from the decrypted block otherwise |
| Decrypt.ConnectTemperatureHumidityFrame | old/decrypt.py:55-61 | a 0x05 frame yields temperature, humidity, NUL-stripped name and device id, and is caught exactly when the name is not UTF-8 |
| Decrypt.OtherFramesYieldNothing | old/decrypt.py:27-61 | other frame types, versions and short frames yield no result; a one-byte known frame raises IndexError and is caught |
| Decrypt.FrameTypeText | old/decrypt.py:66 | the frame type text is "0x" and two lower-case hex digits that unhexlify back to the byte |
| Decrypt.BlankLineSkipped | old/decrypt.py:19-20 | a blank line is skipped |
| Decrypt.DecodedFields | old/decrypt.py:63-69 | every decoded record carries the last 20 characters of the line, the frame type and the Minew URI |
| Decrypt.CollectAppend | old/decrypt.py:15-69 | decoding a file in two parts equals decoding it whole; an error in either part is an error of the whole |
| Decrypt.BadLineFailsAll | old/decrypt.py:17 | a line that is not hex raises outside the try, so the whole call fails |
| Decrypt.ParseSamples | old/decrypt.py:9-74 | the loop returns exactly the specification's result |
| Loops.PresentMembers | old/decrypt.py:63-69 | the kept results are exactly the lines' results that are present, none invented |
| HexPacket.Framed | old/hex.py:51-57 | an AD structure is framed as length, type and data |
| HexPacket.WalkEncoded | old/hex.py:48-60 | walking an encoded advertisement finds the data of its first manufacturer-specific structure |
| HexPacket.WalkOneStructure | old/hex.py:50-60 | one step of the walk returns manufacturer data or moves past the structure |
| HexPacket.Unpack | old/hex.py:22-23 | struct.unpack succeeds only when the bytes are exactly the format's size |
| HexPacket.UnpackNeedsFourBytes | old/hex.py:22 | the formats '>hH' and '<hH' fail on two bytes or fewer |
| HexPacket.ParseSensorDataAlwaysNone | old/hex.py:8-33 | every attempt raises and is skipped, so parse_sensor_data returns None |
| HexPacket.EncryptedPayload | old/hex.py:36-72 | a payload that passes all checks is 24 bytes |
| HexPacket.EarlyRejections | old/hex.py:36-44 | non-hex input and data shorter than 8 bytes are rejected |
| HexPacket.MinewPacketReachesDecryption | old/hex.py:35-72 | a well-formed Minew advertisement with a 24-byte payload reaches decryption with that payload |
| HexPacket.ProcessPacketAlwaysNone | old/hex.py:35-84 | process_packet returns None for every input |
| HexPacket.ProcessPacket | old/hex.py:35-84 | the loop returns exactly the specification's result |
| HexToBin.HexToBinary | old/hextobin.py:1-8 | the loop returns exactly the specification's result |
| Loops.ErrorStays | old/hextobin.py:3-7 | once an element raises, later elements do not matter (the same loop runs parse_samples, old/decrypt.py:15-17) |
| Loops.OnePerElement | old/hextobin.py:3-7 | a collection succeeds exactly when every element does, and then holds one result per element, in order |
| HexToBin.LinePerLine | old/hextobin.py:1-8 | the call succeeds exactly when every line does, with one output line per input line |
| HexToBin.ValuePerToken | old/hextobin.py:4-5 | a line succeeds exactly when every token is hexadecimal, and each output word is the 8-bit rendering of its token |
| HexToBin.Binary8IsWord | old/hextobin.py:5-6 | every rendered value is a single token without whitespace |
| HexToBin.TokenCountKept | old/hextobin.py:4-6 | an output line splits back into exactly the rendered values, one per input token |
| HexToBin.BlankLine | old/hextobin.py:4-6 | a whitespace-only line becomes "" |
| HexToBin.NonNegativeIsBinary | old/hextobin.py:5 | every non-negative value renders as at least eight binary digits that read back as the value |
| HexToBin.ByteIsEightBits | old/hextobin.py:5 | a byte renders as exactly eight binary digits of the same value |
| HexToBin.NegativeKeepsSign | old/hextobin.py:5 | a negative value renders as '-' and the binary digits of its magnitude |
| HexToBin.TwoDigitToken | old/hextobin.py:5 | a two-digit hexadecimal token is 16 times its first digit plus its second |
| HexToBin.Sign | old/hextobin.py:5 | int(..., 16) accepts a leading '+' (no effect) or '-' (negation) |
| HexToBin.Prefix | old/hextobin.py:5 | int(..., 16) accepts a "0x"/"0X" prefix |
| HexToBin.UnderscoreBetweenDigits | old/hextobin.py:5 | for all digit groups a and b, `a_b` parses as `ab`, the value of their digits without underscores |
| HexToBin.MisplacedUnderscores | old/hextobin.py:5 | for all strings a and b, `_a`, `a_` and `a__b` raise ValueError |

## Left out

- SQLite engine semantics: promise wrappers, type affinity, and text comparison of ISO timestamps. Timestamps are integer milliseconds, and the gateway's JSON timestamp is modelled as a number of milliseconds.
- `ROUND(AVG(...), 2)` in `getSummaryPerDevice`: the model keeps the exact mean. The divisions by 256 and 1000 in the decoders are exact reals.
- Tables.SummaryPerDeviceContract: the grouped `MAX(timestamp)` and the `ORDER BY ... LIMIT 1` subqueries are modelled as one newest reading; with equal timestamps, SQLite may pick another row.
- `getAllSensorNames`: a plain dump of the metadata table in unspecified order. Its content is the `metadata` map.
- `lastID` is the row count after the insert. This assumes rows are never deleted, which nothing in the core does.
- Timers and the clock: `setTimeout` and `Date.now`/`new Date()` become `Expire(now)` and a parameter `now`. Concurrent requests and their interleaving are not modelled.
- SensorListener.Step: one clock reading `now` serves every item of a request, while sensorListener.js:44 calls `new Date()` for each item, after the previous insert. So two items of one mac without a timestamp (missing or 0) are stored once in the model and, as the clock moves on, usually twice in the source. The repeat claims (SensorListener.SingleItemRepeated, SensorListener.FailedInsertRepeated) are stated only for items with a truthy timestamp.
- AES: the block cipher is a function parameter. Only the key-length check of the library is modelled.
- File reading, `print`/`console` logging, `generate_md_report`, and the sample data and prints at the end of `hex.py` and `hextobin.py`.
- Express, Flask and ws wiring: routes, `app.listen`, `app.run`, the ws server object. `JSON.stringify` of a broadcast payload is an opaque string.
- network/api.js, network/ingest.js, index.js, websocket/listener.js, services/fetchAndStore.js, config/index.js, db/init.js, db/test.py and old/decode_base64.py are not part of this model.
- Unicode case mapping in `toLowerCase` and non-ASCII digits accepted by Python's `int`: ASCII only.
- JavaScript number precision: integers are unbounded, and timestamps outside the range of a Date value are the RangeError the source throws.
- Array elements that are not objects (a null element makes the destructuring throw): items are always objects.
- GatewayListener.GatewayApp.ReceiveData: a body is a list, an empty object or string (len() is 0 and the loop has nothing to visit, so the answer is 200), or any other non-list, modelled as the server error it causes (len() of a number, boolean or null, or `.get` on the keys or characters of a non-empty object or string) without distinguishing Python's exceptions.
- Aggregation.AggregateFixed, Aggregation.AggregateCheckpoint: the aggregate INSERTs (db/storage.js:156, 237, 265) and the checkpoint upsert (db/storage.js:192) never fail in the model. In the source the checkpoint is written (line 228) before the sentinel INSERT (line 237), so a failure of that INSERT would leave the checkpoint advanced; `AggregateCheckpointFrame`'s "a throwing run changes nothing" holds only because these writes are assumed to succeed.
- HexPacket.Unpack: `struct.unpack` of the one-character format 'H' uses native byte order, modelled as little-endian; `parse_sensor_data` never reaches it.
