# Android BLE central library — a Dafny model

This project models the core of an Android Bluetooth Low Energy central
library (`combluetoothle`) and the packet-loss counter of its demo app:

- `ByteUtils`: byte-array helpers and fixed-width integer codecs (`byte_utils.dfy`, `byte_order.dfy`);
- `FioTBluetoothCharacteristic`: a characteristic record held by the session (`characteristic.dfy`);
- `FioTBluetoothLE`: the GATT transport (`bluetooth_le.dfy`). This covers scanning and connecting, the
  list of discovered characteristics, the queue of notification subscriptions driven by descriptor writes,
  and the callbacks from the GATT stack;
- the chunked write loop of `writeWithReadBack` / `writeWithoutReadBack` (`reliable_writer.dfy`).
  Each chunk is written, then its write acknowledgement is awaited, then (optionally) it is read back and
  compared, re-writing after `MAX_NUM_READ` unanswered reads;
- `FioTManager`: the session state machine (`manager.dfy`). It covers the
  Disconnected/Connecting/Connected statuses, the connect timeout, notification setup after discovery,
  and the 20-byte chunked write queue per characteristic, drained by `onDidWrite`;
- `FioTScanManager`: filtered, de-duplicated scanning with a low-battery duty cycle (`scan_manager.dfy`);
- `RequestHandler`: a FIFO of read and write requests (`request_handler.dfy`);
- `MainActivity.calcNumberLostPacket` and the unit test's copy of it (`lost_packets.dfy`).

## How the model is written

- Java values have explicit models:
  - `byte` is `Byte`, an int in 0..255 holding the bit pattern;
  - `int` is `Int32`, with wrap-around written out (`JavaTypes.Wrap32`);
  - a nullable reference is `Option` where null is modelled (the lines under "## Left out" name the array
    parameters that are never null);
  - an exception is `Result.Failure(e)`, or `Threw(e)` in an action trace.
- Objects with callbacks are pure step functions. Each returns the new state and the platform actions it
  issues. In `FioTBluetoothLE` it also returns at most one up-call to its listener (`Upcall`).
- Threads, `Handler` delays and monitor waits become events the caller feeds in. Examples are
  `ConnectTimeoutFired`, `NotifyDelayElapsed`, `ReadTick` and `WriteNotify`.
- A `notifyAll` with no waiting thread is lost; the event handlers model that.
- UUID and MAC comparison uses `equalsIgnoreCase`, modelled as ASCII lower-casing (`Text.EqualsIgnoreCase`).

## Model

| member | source | states |
|---|---|---|
| JavaTypes.Wrap32 | app/src/main/java/android/fiot/android_ble/MainActivity.java:385-402 | 32-bit wrap-around: the result is congruent to the input mod 2^32, equals it inside the int range and is shifted by 2^32 just above it |
| ByteUtils.CreateByteArray | combluetoothle/src/main/java/com/bluetooth/le/utils/ByteUtils.java:30-38 | one byte per int, each the int's low 8 bits (congruent mod 256) |
| ByteUtils.CreateByteArrayExample | combluetoothle/src/main/java/com/bluetooth/le/utils/ByteUtils.java:30-38 | 500 narrows to 0xf4 while small values are kept |
| ByteUtils.CreateByteArrayOfBytes | combluetoothle/src/main/java/com/bluetooth/le/utils/ByteUtils.java:30-38 | ints already in byte range come back unchanged |
| ByteUtils.Concatenate | combluetoothle/src/main/java/com/bluetooth/le/utils/ByteUtils.java:171-181 | null only when both inputs are null; the result starts with `a`, ends with `b`, and its length is the sum |
| ByteUtils.AddByte | combluetoothle/src/main/java/com/bluetooth/le/utils/ByteUtils.java:190-207 | `a` (null read as empty) followed by `b` |
| ByteUtils.AddByteIsConcatenate | combluetoothle/src/main/java/com/bluetooth/le/utils/ByteUtils.java:190-207 | adding a byte equals concatenating a one-byte array |
| ByteUtils.Slice | combluetoothle/src/main/java/com/bluetooth/le/utils/ByteUtils.java:234-248 | the copied range is `min(num, length - startPos)` bytes starting at `startPos` |
| ByteUtils.SubByteArray | combluetoothle/src/main/java/com/bluetooth/le/utils/ByteUtils.java:234-248 | null for a negative start or non-positive count; the clamped slice when `startPos + num` fits in an int; `IllegalArgumentException` when that sum overflows; any array returned is a slice of the source |
| ByteUtils.SubByteArrayOverflowThrows | combluetoothle/src/main/java/com/bluetooth/le/utils/ByteUtils.java:234-248 | with `num = Integer.MAX_VALUE` and `startPos = 1` the sum wraps negative and `copyOfRange` throws, where the intended result is the tail |
| ByteUtils.SubByteArrayIntended | combluetoothle/src/main/java/com/bluetooth/le/utils/ByteUtils.java:234-248 | the clamped slice for every start inside the array, an exception for a start past the end, null for a negative start or count |
| ByteUtils.SubByteArrayAgreesWithoutOverflow | combluetoothle/src/main/java/com/bluetooth/le/utils/ByteUtils.java:234-248 | the as-written and the corrected versions agree whenever `startPos + num` fits in an int |
| ByteUtils.ConcatenateThenSlice | combluetoothle/src/main/java/com/bluetooth/le/utils/ByteUtils.java:171-248 | slicing a concatenation at the join gives back both parts |
| ByteUtils.Overwrite | combluetoothle/src/main/java/com/bluetooth/le/utils/ByteUtils.java:217-224 | the length is kept, the window holds `bytes`, and every byte outside the window is unchanged |
| ByteUtils.CopyLoop | combluetoothle/src/main/java/com/bluetooth/le/utils/ByteUtils.java:219-221 | the loop from index `i` stores `bytes[i - startPos]` at each index: with every index inside `src` the window is overwritten and the loop ends normally; the first index outside `src` throws ArrayIndexOutOfBoundsException, with the bytes that fit already stored (none for a negative start) |
| ByteUtils.MergeEffect | combluetoothle/src/main/java/com/bluetooth/le/utils/ByteUtils.java:217-224 | on every input: a null `bytes` throws NullPointerException; empty `bytes`, or a `startPos + bytes.length` that wraps negative, skips the loop and returns `src` (even null) unchanged; otherwise a null `src` throws NullPointerException; a window inside `src` returns `src` overwritten as `Overwrite` describes; a start outside `src` throws ArrayIndexOutOfBoundsException with `src` unchanged; a window running past the end throws it after the bytes that fit are stored |
| ByteUtils.Merge | combluetoothle/src/main/java/com/bluetooth/le/utils/ByteUtils.java:217-224 | the index loop on a present array, for every `startPos`: the array afterwards, the returned array (`src` itself) and the exception thrown are those of `MergeEffect` |
| ByteUtils.Append | combluetoothle/src/main/java/com/bluetooth/le/utils/ByteUtils.java:259-266 | the same index loop as `merge`, for every `startPos`: `src` is changed in place, and returned or left with a throw, exactly as `MergeEffect` describes |
| ByteUtils.Compare2Array | combluetoothle/src/main/java/com/bluetooth/le/utils/ByteUtils.java:298-312 | true exactly when both arrays are null or both hold equal contents |
| ByteUtils.ScanFromSound | combluetoothle/src/main/java/com/bluetooth/le/utils/ByteUtils.java:321-348 | whenever the scan reports a hit, `child` really occurs in `src` |
| ByteUtils.IsContainSound | combluetoothle/src/main/java/com/bluetooth/le/utils/ByteUtils.java:321-348 | `isContain` never reports a false hit: on true, both are null or `child` occurs in `src` |
| ByteUtils.IsContainMissesOccurrence | combluetoothle/src/main/java/com/bluetooth/le/utils/ByteUtils.java:321-348 | `[1,2]` occurs in `[9,1,2]` but `isContain` answers false |
| ByteUtils.IsContainCorrected | combluetoothle/src/main/java/com/bluetooth/le/utils/ByteUtils.java:321-348 | a loop that answers true exactly when `child` occurs in `src` as a contiguous slice, or both are null |
| ByteOrder.DecodeEncode | combluetoothle/src/main/java/com/bluetooth/le/utils/ByteUtils.java:57-154 | big-endian decoding inverts encoding for every value below 256^w |
| ByteOrder.EncodeDecode | combluetoothle/src/main/java/com/bluetooth/le/utils/ByteUtils.java:57-154 | encoding inverts decoding for every byte string |
| ByteOrder.ArrangeTwice | combluetoothle/src/main/java/com/bluetooth/le/utils/ByteUtils.java:57-154 | arranging into a byte order is its own inverse |
| ByteOrder.Get | combluetoothle/src/main/java/com/bluetooth/le/utils/ByteUtils.java:133-154 | `ByteBuffer.get*` succeeds exactly when enough bytes are present (else BufferUnderflow), giving a signed w-byte value |
| ByteOrder.GetPut | combluetoothle/src/main/java/com/bluetooth/le/utils/ByteUtils.java:57-154 | reading back a put value gives the value, in either byte order |
| ByteOrder.PutGet | combluetoothle/src/main/java/com/bluetooth/le/utils/ByteUtils.java:57-154 | putting a read value gives back the bytes read |
| ByteOrder.ToInteger | combluetoothle/src/main/java/com/bluetooth/le/utils/ByteUtils.java:133-135 | `toInteger` succeeds exactly on arrays of at least 4 bytes |
| ByteOrder.ToShort | combluetoothle/src/main/java/com/bluetooth/le/utils/ByteUtils.java:152-154 | `toShort` succeeds exactly on arrays of at least 2 bytes |
| ByteOrder.ToLong | combluetoothle/src/main/java/com/bluetooth/le/utils/ByteUtils.java:144-146 | `toLong` succeeds exactly on arrays of at least 8 bytes |
| ByteOrder.IntegerRoundTrip | combluetoothle/src/main/java/com/bluetooth/le/utils/ByteUtils.java:57-61 | `toInteger(integerToByteArray(n))` is `n` for every int and order |
| ByteOrder.IntegerBytesRoundTrip | combluetoothle/src/main/java/com/bluetooth/le/utils/ByteUtils.java:133-135 | re-encoding `toInteger(b)` gives the first 4 bytes of `b` |
| ByteOrder.ShortRoundTrip | combluetoothle/src/main/java/com/bluetooth/le/utils/ByteUtils.java:83-87 | the short codec round-trips every short |
| ByteOrder.ShortBytesRoundTrip | combluetoothle/src/main/java/com/bluetooth/le/utils/ByteUtils.java:152-154 | re-encoding `toShort(b)` gives the first 2 bytes |
| ByteOrder.LongRoundTrip | combluetoothle/src/main/java/com/bluetooth/le/utils/ByteUtils.java:70-74 | the long codec round-trips every long |
| ByteOrder.LongBytesRoundTrip | combluetoothle/src/main/java/com/bluetooth/le/utils/ByteUtils.java:144-146 | re-encoding `toLong(b)` gives the first 8 bytes |
| ByteOrder.IntegerByteOrderExample | combluetoothle/src/main/java/com/bluetooth/le/utils/ByteUtils.java:57-61 | 0x01020304 is `[1,2,3,4]` big-endian and `[4,3,2,1]` little-endian; -1 is four 0xff bytes |
| Characteristic.New | combluetoothle/src/main/java/com/bluetooth/le/FioTBluetoothCharacteristic.java:14-17 | a new characteristic keeps uuid and notify flag, with no handle and no queued data |
| Characteristic.SettersRoundTrip | combluetoothle/src/main/java/com/bluetooth/le/FioTBluetoothCharacteristic.java:19-41 | each setter's value is what the getter then reads, and setting notify twice keeps only the last value |
| Characteristic.SetUuid | combluetoothle/src/main/java/com/bluetooth/le/FioTBluetoothCharacteristic.java:23-25 | changes the uuid and nothing else |
| Characteristic.SetHandle | combluetoothle/src/main/java/com/bluetooth/le/FioTBluetoothCharacteristic.java:31-33 | changes the platform handle and nothing else |
| Characteristic.SetNotify | combluetoothle/src/main/java/com/bluetooth/le/FioTBluetoothCharacteristic.java:39-41 | changes the notify flag and nothing else |
| Characteristic.SetWriteType | combluetoothle/src/main/java/com/bluetooth/le/FioTBluetoothCharacteristic.java:51-56 | false and no change without a handle; otherwise true, and the handle (same identity) now has that write type |
| Characteristic.FindByUuid | combluetoothle/src/main/java/com/bluetooth/le/FioTManager.java:293-303 | the first characteristic, in service order then characteristic order, whose uuid equals ignoring case; none exactly when no characteristic matches |
| Characteristic.FindByHandle | combluetoothle/src/main/java/com/bluetooth/le/FioTManager.java:305-318 | the characteristic holding a handle with the identity of the given one (reference equality, so a write type changed since does not matter); the outer loop does not break, so the last service holding it wins, at its first position there; none exactly when no characteristic holds it |
| Characteristic.UpdateAt | combluetoothle/src/main/java/com/bluetooth/le/FioTManager.java:216-247 | replaces one characteristic and leaves every other characteristic and the service shape unchanged |
| Characteristic.UpdateAtKeepsUuids | combluetoothle/src/main/java/com/bluetooth/le/FioTManager.java:320-352 | replacing a characteristic by one with the same uuid leaves every uuid match of the working set where it was |
| Characteristic.FindByUuidAfterUpdate | combluetoothle/src/main/java/com/bluetooth/le/FioTManager.java:320-352 | after such a replacement the first uuid match is still the replaced position |
| BluetoothLE.Init | combluetoothle/src/main/java/com/bluetooth/le/FioTBluetoothLE.java:111-117 | a fresh transport has an adapter and nothing else: no client, not connected, not scanning, writes enabled, empty lists |
| BluetoothLE.DisableWrite | combluetoothle/src/main/java/com/bluetooth/le/FioTBluetoothLE.java:80-82 | only the disable flag changes, and it is set |
| BluetoothLE.EnableWrite | combluetoothle/src/main/java/com/bluetooth/le/FioTBluetoothLE.java:84-86 | only the disable flag changes, and it is cleared |
| BluetoothLE.StartScanning | combluetoothle/src/main/java/com/bluetooth/le/FioTBluetoothLE.java:161-171 | no-op while scanning; otherwise a null adapter throws NullPointerException and a switched-off adapter throws BluetoothOffException, and only a successful start sets `scanning`; nothing but `scanning` changes |
| BluetoothLE.StopScanning | combluetoothle/src/main/java/com/bluetooth/le/FioTBluetoothLE.java:176-182 | a stop is issued exactly when scanning with an adapter; afterwards it is not scanning unless the adapter is gone |
| BluetoothLE.Connect | combluetoothle/src/main/java/com/bluetooth/le/FioTBluetoothLE.java:203-226 | nothing without an adapter or when already linked; otherwise a GATT client is created, a connect issued and the cache refreshed |
| BluetoothLE.CloseConnection | combluetoothle/src/main/java/com/bluetooth/le/FioTBluetoothLE.java:248-257 | the client is disconnected and closed if present; the connection, working services and discovered characteristics are cleared; the notify queue and write flag are kept |
| BluetoothLE.End | combluetoothle/src/main/java/com/bluetooth/le/FioTBluetoothLE.java:121-139 | adapter, client, scanning and connection are gone; the lists are untouched |
| BluetoothLE.AddWorkingService | combluetoothle/src/main/java/com/bluetooth/le/FioTBluetoothLE.java:259-265 | a null list changes nothing; otherwise the working list is the services' uuids in order |
| BluetoothLE.ServiceUuids | combluetoothle/src/main/java/com/bluetooth/le/FioTBluetoothLE.java:259-265 | one uuid per service, in order |
| BluetoothLE.CharsFor | combluetoothle/src/main/java/com/bluetooth/le/FioTBluetoothLE.java:525-541 | a service's characteristics, in their order, once for every working uuid it matches ignoring case (so a uuid listed twice among the working services yields them twice); nothing when it matches none |
| BluetoothLE.Collect | combluetoothle/src/main/java/com/bluetooth/le/FioTBluetoothLE.java:525-541 | a characteristic is collected exactly when it belongs to a discovered service that is working |
| BluetoothLE.GetSupportedServices | combluetoothle/src/main/java/com/bluetooth/le/FioTBluetoothLE.java:525-541 | without a client nothing changes; otherwise the earlier list is kept as a prefix, and its extension holds exactly the characteristics of working services; nothing else changes |
| BluetoothLE.MatchCount | combluetoothle/src/main/java/com/bluetooth/le/FioTBluetoothLE.java:525-541 | the number of passes of the inner loop that add the service: zero exactly when no working uuid matches |
| BluetoothLE.FirstMatchFrom | combluetoothle/src/main/java/com/bluetooth/le/FioTBluetoothLE.java:474-485 | the first index at or after the start whose uuid matches ignoring case, or none if there is no such index |
| BluetoothLE.GetCharacteristic | combluetoothle/src/main/java/com/bluetooth/le/FioTBluetoothLE.java:474-485 | the first discovered characteristic whose uuid matches ignoring case; null exactly when none matches |
| BluetoothLE.FirstByUuid | combluetoothle/src/main/java/com/bluetooth/le/FioTBluetoothLE.java:474-485 | the lookup over any list: the element at the first index whose uuid matches ignoring case; none exactly when no element matches |
| BluetoothLE.FirstByUuidAppend | combluetoothle/src/main/java/com/bluetooth/le/FioTBluetoothLE.java:474-485 | looking up in a concatenation finds the first part's match when it has one and the second part's otherwise |
| BluetoothLE.CharsForFirstByUuid | combluetoothle/src/main/java/com/bluetooth/le/FioTBluetoothLE.java:525-541 | repeating a service's characteristics does not change which one a lookup finds; a service matching no working uuid contributes nothing to find |
| BluetoothLE.FirstWorkingChar | combluetoothle/src/main/java/com/bluetooth/le/FioTBluetoothLE.java:525-541 | reference answer: the characteristic at the first position, services first and then characteristics, of a working service whose uuid matches; none exactly when there is no such position |
| BluetoothLE.CollectFirstByUuid | combluetoothle/src/main/java/com/bluetooth/le/FioTBluetoothLE.java:525-541 | a lookup in the collected list returns exactly the reference answer, so the collection keeps the discovery order |
| BluetoothLE.LookupAfterDiscovery | combluetoothle/src/main/java/com/bluetooth/le/FioTBluetoothLE.java:474-485 | after discovery a uuid found before still gives the same characteristic (discoveries are appended), and a uuid not found before gives the first working-service match in discovery order |
| BluetoothLE.GetCharacteristicReadsDiscovered | combluetoothle/src/main/java/com/bluetooth/le/FioTBluetoothLE.java:474-485 | the lookup depends on the discovered list alone |
| BluetoothLE.ProcessQueue | combluetoothle/src/main/java/com/bluetooth/le/FioTBluetoothLE.java:555-584 | the queue only loses a prefix; a success report comes only with the queue emptied, and it is CONNECT_SUCCESS |
| BluetoothLE.NotifyHead | combluetoothle/src/main/java/com/bluetooth/le/FioTBluetoothLE.java:555-584 | only the transport's queue changes, by dropping a prefix; success is reported only once the queue is empty |
| BluetoothLE.ProcessQueueWritesHeadOnly | combluetoothle/src/main/java/com/bluetooth/le/FioTBluetoothLE.java:555-584 | at most one descriptor write is issued; if it is, it is the last action and targets the entry left at the head |
| BluetoothLE.ProcessQueueDropsPlain | combluetoothle/src/main/java/com/bluetooth/le/FioTBluetoothLE.java:555-584 | every dropped entry had a transport handle but no 0x2902 descriptor |
| BluetoothLE.ProcessQueueReportsSuccess | combluetoothle/src/main/java/com/bluetooth/le/FioTBluetoothLE.java:555-584 | when the queue empties with adapter and GATT present and no NPE, success is reported |
| BluetoothLE.ProcessQueueActions | combluetoothle/src/main/java/com/bluetooth/le/FioTBluetoothLE.java:555-584 | subscription set-up only sets notification flags, writes descriptors or throws |
| BluetoothLE.SetNotification | combluetoothle/src/main/java/com/bluetooth/le/FioTBluetoothLE.java:543-548 | with a subscription pending, the characteristic is only queued; otherwise the queue head is processed at once; the only report is CONNECT_SUCCESS |
| BluetoothLE.NotifyDelayElapsed | combluetoothle/src/main/java/com/bluetooth/le/FioTBluetoothLE.java:720-731 | the delayed next subscription runs on the queue head; on an empty queue `element()` throws |
| BluetoothLE.OnDescriptorWrite | combluetoothle/src/main/java/com/bluetooth/le/FioTBluetoothLE.java:709-735 | failure: the queue is cleared and CONNECT_FAIL reported with the status. Success: the head is removed, then the next is scheduled or, when none is left, notifications are ready. An empty queue throws |
| BluetoothLE.OnConnectionStateChange | combluetoothle/src/main/java/com/bluetooth/le/FioTBluetoothLE.java:600-641 | link up: connected, CONNECT_SUCCESS, discovery scheduled. Link down with an error while the connection flag is clear: CONNECT_FAIL with the status. Any other link down: not connected, waiters released, disconnection reported |
| BluetoothLE.DiscoveryDelayElapsed | combluetoothle/src/main/java/com/bluetooth/le/FioTBluetoothLE.java:742-746 | discovery starts exactly when a GATT client exists, and the state is unchanged |
| BluetoothLE.OnServicesDiscovered | combluetoothle/src/main/java/com/bluetooth/le/FioTBluetoothLE.java:644-653 | a failure status is ignored; success records the supported characteristics and reports services ready |
| BluetoothLE.OnCharacteristicWrite | combluetoothle/src/main/java/com/bluetooth/le/FioTBluetoothLE.java:692-701 | the write acknowledgement is forwarded with its status, and the state is unchanged |
| BluetoothLE.RequestCharacteristicValue | combluetoothle/src/main/java/com/bluetooth/le/FioTBluetoothLE.java:461-466 | a read is issued exactly when adapter and client exist |
| BluetoothLE.WriteToCharacteristic | combluetoothle/src/main/java/com/bluetooth/le/FioTBluetoothLE.java:273-287 | returns 1 exactly when the characteristic or the client is null, writing nothing; otherwise 0, after issuing one write of the data |
| ReliableWriter.Start | combluetoothle/src/main/java/com/bluetooth/le/FioTBluetoothLE.java:372-376 | a new write loop is valid, nothing is sent yet, and it is ready to write the first chunk |
| ReliableWriter.RunLoopHead | combluetoothle/src/main/java/com/bluetooth/le/FioTBluetoothLE.java:378-392 | the loop finishes with nothing when everything is sent or writes are disabled; a non-positive block size throws NullPointerException and `sent + blockSize` above the int range throws IllegalArgumentException (the as-written `subByteArray`); otherwise it writes exactly the next slice of at most `blockSize` bytes to its target when there is a client, records it as the last chunk and waits for its acknowledgement; validity is kept |
| ReliableWriter.WriteChunk | combluetoothle/src/main/java/com/bluetooth/le/FioTBluetoothLE.java:378-392 | the chunk is appended to the chunks and is the only payload written, to the writer's target and only when there is a target and a client; the writer moves past the chunk, stays valid, and reports the new count exactly when a listener is set |
| ReliableWriter.OnWriteNotify | combluetoothle/src/main/java/com/bluetooth/le/FioTBluetoothLE.java:392-415 | a waiting writer moves to read-back (with read-back) or to the next chunk; in any other phase the wake-up is lost |
| ReliableWriter.OnReadTick | combluetoothle/src/main/java/com/bluetooth/le/FioTBluetoothLE.java:417-436 | each tick below MAX_NUM_READ reads the characteristic back; at MAX_NUM_READ the counter resets and the chunk is written again; nothing new counts as sent |
| ReliableWriter.OnReadBack | combluetoothle/src/main/java/com/bluetooth/le/FioTBluetoothLE.java:656-679 | only a read of the written characteristic (by identity, whatever its write type) returning exactly the last chunk advances the loop; anything else is ignored |
| ReliableWriter.OnLinkLost | combluetoothle/src/main/java/com/bluetooth/le/FioTBluetoothLE.java:624-636 | a link loss wakes every waiter: read-back gives up on the chunk's read, and the write wait proceeds as though acknowledged |
| ReliableWriter.Step | combluetoothle/src/main/java/com/bluetooth/le/FioTBluetoothLE.java:312-454 | validity (sent bytes = concatenated chunks) is kept; data, target and block size never change; at most one progress report, strictly above the old count and equal to the new one; a finished loop stays finished |
| ReliableWriter.ExecuteReportsIncrease | combluetoothle/src/main/java/com/bluetooth/le/FioTBluetoothLE.java:312-454 | over any event sequence, the progress reports are strictly increasing and lie between the start and the final count |
| ReliableWriter.WroteChunkWrites | combluetoothle/src/main/java/com/bluetooth/le/FioTBluetoothLE.java:378-392 | one pass of the loop body writes exactly the chunk it appends, and only to the writer's target |
| ReliableWriter.LoopHeadWrites | combluetoothle/src/main/java/com/bluetooth/le/FioTBluetoothLE.java:378-392 | the loop head appends at most one chunk, writes nothing but that chunk, and writes it whenever there is a target and a client |
| ReliableWriter.StepWrites | combluetoothle/src/main/java/com/bluetooth/le/FioTBluetoothLE.java:312-454 | any one event writes nothing but the last chunk, to the writer's own target: the chunk just cut, or the chunk being read back when it is written again |
| ReliableWriter.ExecuteKeepsChunks | combluetoothle/src/main/java/com/bluetooth/le/FioTBluetoothLE.java:312-454 | over any event sequence chunks are only appended, and every write goes to the writer's target |
| ReliableWriter.ExecuteWritesChunksInOrder | combluetoothle/src/main/java/com/bluetooth/le/FioTBluetoothLE.java:312-454 | over any event sequence the chunks concatenate to the data sent so far, and the payloads written are those chunks in the order they were cut: a chunk may be written again, but never an earlier one after a later one |
| ReliableWriter.FinishedMeansSentOrDisabled | combluetoothle/src/main/java/com/bluetooth/le/FioTBluetoothLE.java:378-384 | a loop that ends without an exception has sent every byte, in the order of the data, unless writes were disabled |
| ReliableWriter.FourTicksRewrite | combluetoothle/src/main/java/com/bluetooth/le/FioTBluetoothLE.java:424-436 | three reads without a matching answer, then the fourth tick rewrites the same chunk |
| ReliableWriter.CorruptedReadThenMatch | combluetoothle/src/main/java/com/bluetooth/le/FioTBluetoothLE.java:656-679 | a mismatching read-back is ignored and a later matching one advances |
| ReliableWriter.LinkLostDuringWriteKeepsWaiting | combluetoothle/src/main/java/com/bluetooth/le/FioTBluetoothLE.java:408-447 | with read-back, a link loss during the write wait leaves the loop waiting on read-back, and running it again does not resume it |
| ReliableWriter.WithoutReadBackAdvancesOnNotify | combluetoothle/src/main/java/com/bluetooth/le/FioTBluetoothLE.java:335-356 | without read-back, the acknowledgement alone moves to the next chunk, and read ticks do nothing |
| Manager.New | combluetoothle/src/main/java/com/bluetooth/le/FioTManager.java:73-105 | disconnected, no timeout, the transport created with the services' uuids as working services |
| Manager.SetListener | combluetoothle/src/main/java/com/bluetooth/le/FioTManager.java:73-95 | only the listener presence changes |
| Manager.End | combluetoothle/src/main/java/com/bluetooth/le/FioTManager.java:134-147 | disconnected and the transport dropped. A scan stop is issued exactly when it was scanning; a close exactly when a client existed; never a connect. The timeout stays armed |
| Manager.Connect | combluetoothle/src/main/java/com/bluetooth/le/FioTManager.java:152-182 | only from Disconnected, moving to Connecting. Without a transport: NPE. Otherwise the timeout is armed and a GATT connect is issued unless already linked. Keeps the invariant |
| Manager.ConnectTimeoutFired | combluetoothle/src/main/java/com/bluetooth/le/FioTManager.java:168-182 | unless connected, reports `onConnectFail(-1)` and ends the session (NPE, skipping the end, without a listener); the timer is spent; keeps the invariant |
| Manager.OnConnectResult | combluetoothle/src/main/java/com/bluetooth/le/FioTManager.java:362-372 | only CONNECT_FAIL acts: the timeout is stopped, the session ended and `onConnectFail(code)` reported |
| Manager.GetCharacteristic | combluetoothle/src/main/java/com/bluetooth/le/FioTManager.java:293-303 | the first characteristic of the configured services whose uuid matches ignoring case; null exactly when none does |
| Manager.ChangeNotification | combluetoothle/src/main/java/com/bluetooth/le/FioTManager.java:320-352 | no transport: IncorrectState; unknown uuid: CharacteristicNotFound; otherwise the first match gets the flag (its handle is untouched), and is passed to the transport's subscription |
| Manager.EnableNotification | combluetoothle/src/main/java/com/bluetooth/le/FioTManager.java:320-335 | the same error cases, then the matching characteristic is subscribed with notify on |
| Manager.DisableNotification | combluetoothle/src/main/java/com/bluetooth/le/FioTManager.java:337-352 | the same error cases, then subscribed with notify off |
| Manager.FirstMatchAfterUpdate | combluetoothle/src/main/java/com/bluetooth/le/FioTManager.java:320-352 | after the update, the uuid still resolves to the same position and its flag is the requested one |
| Manager.ReadyFrom | combluetoothle/src/main/java/com/bluetooth/le/FioTManager.java:375-403 | the loop gives every characteristic the handle discovered for its uuid. The "has notify" flag is true exactly when some visited characteristic wants notify. The shape of the services is kept |
| Manager.OnServicesReady | combluetoothle/src/main/java/com/bluetooth/le/FioTManager.java:375-403 | every characteristic gets its handle. With no notify characteristic the session connects at once; otherwise subscription starts and the session waits |
| Manager.ReadyFromActions | combluetoothle/src/main/java/com/bluetooth/le/FioTManager.java:380-395 | the service loop only enables notifications, writes descriptors or throws |
| Manager.OnDisconnected | combluetoothle/src/main/java/com/bluetooth/le/FioTManager.java:406-421 | while connecting: `onConnectFail(0)`; otherwise `onDisconnected`, each only with a listener; the session is disconnected; without a transport, NPE |
| Manager.EndActs | combluetoothle/src/main/java/com/bluetooth/le/FioTManager.java:134-147 | ending only stops scanning and disconnects/closes the client |
| Manager.OnNotificationsReady | combluetoothle/src/main/java/com/bluetooth/le/FioTManager.java:446-457 | connected, writes enabled, timeout stopped, `onConnected` reported exactly when a listener exists |
| Manager.ChunksFrom | combluetoothle/src/main/java/com/bluetooth/le/FioTManager.java:230-237 | the chunks concatenate to the data. Each has 1..20 bytes, and all but the last have exactly 20. There are ceil(len/20) of them |
| Manager.CutIsUnique | combluetoothle/src/main/java/com/bluetooth/le/FioTManager.java:230-236 | the 20-byte cut is the only split of the data into non-empty chunks of at most 20 bytes that are all full but the last |
| Manager.GrowsIsChunking | combluetoothle/src/main/java/com/bluetooth/le/FioTManager.java:230-236 | a queue that grows as `write` promises is exactly the old queue followed by the data cut every 20 bytes |
| Manager.Enqueue | combluetoothle/src/main/java/com/bluetooth/le/FioTManager.java:227-237 | the chunks are appended to one characteristic's queue; everything else is unchanged |
| Manager.Write | combluetoothle/src/main/java/com/bluetooth/le/FioTManager.java:216-247 | null arguments: nothing; unknown uuid: CharacteristicNotFound. Otherwise the data, cut every 20 bytes into ceil(len/20) chunks, is appended to the first match's queue and nothing else changes. A write is issued exactly when the queue was empty and data is not, and it writes the head chunk |
| Manager.WriteAt | combluetoothle/src/main/java/com/bluetooth/le/FioTManager.java:216-247 | queueing on a found characteristic: others unchanged, the old queue is a prefix of the new, the new contents are the old followed by the data cut every 20 bytes (ceil(len/20) chunks, all of 20 bytes but the last), and the head is written exactly when the queue was empty and the data is not |
| Manager.WriteAsWritten | combluetoothle/src/main/java/com/bluetooth/le/FioTManager.java:216-247 | as written, empty data on an empty queue reaches `element()` and throws NoSuchElementException, with or without a transport, because the arguments are evaluated before the transport is dereferenced; on all other inputs it behaves like `Write` |
| Manager.WriteEmptyDataThrows | combluetoothle/src/main/java/com/bluetooth/le/FioTManager.java:216-247 | for empty data and an empty queue, the as-written write throws NoSuchElementException (whether or not a transport exists) and the corrected one does nothing |
| Manager.OnDidWrite | combluetoothle/src/main/java/com/bluetooth/le/FioTManager.java:429-436 | the acknowledged characteristic drops its head chunk and the next head is written; an unknown handle gives NPE and an empty queue NoSuchElement; nothing else changes |
| Manager.OnTransportEvent | combluetoothle/src/main/java/com/bluetooth/le/FioTManager.java:362-457 | every transport callback keeps the session invariant (connected implies a transport and a disarmed timeout) |
| Manager.ConnectWithoutNotifications | combluetoothle/src/main/java/com/bluetooth/le/FioTManager.java:375-403 | connect, link up, discovery: with no notify characteristic the session is connected and `onConnected` reported |
| Manager.NotifyWithoutCccdNeverConnects | combluetoothle/src/main/java/com/bluetooth/le/FioTBluetoothLE.java:555-584 | when some characteristic wants notify, services-ready alone does not connect the session; the timeout stays armed |
| Manager.TimeoutNeverEndsConnectedSession | combluetoothle/src/main/java/com/bluetooth/le/FioTManager.java:162-182 | a connected session has no armed timeout, so a timer event leaves it untouched |
| Manager.EndWhileConnectingStillTimesOut | combluetoothle/src/main/java/com/bluetooth/le/FioTManager.java:134-182 | `end` while connecting does not stop the timeout, which later reports `onConnectFail(-1)` |
| ScanManager.New | combluetoothle/src/main/java/com/bluetooth/le/FioTScanManager.java:24-46 | empty filter, continuous mode, no devices, no duty timer |
| ScanManager.Exist | combluetoothle/src/main/java/com/bluetooth/le/FioTScanManager.java:169-181 | true exactly when some listed device's address matches ignoring case |
| ScanManager.Start | combluetoothle/src/main/java/com/bluetooth/le/FioTScanManager.java:57-102 | records filter, mode and listener and starts listening; low-battery mode arms the scan window carrying this call's filter, `ignoreExist` and listener unless starting threw; the device list is kept |
| ScanManager.ScanWindowElapsed | combluetoothle/src/main/java/com/bluetooth/le/FioTScanManager.java:78-84 | the scan window's end stops scanning and starts the sleep window with the same captured arguments; nothing else changes |
| ScanManager.SleepWindowElapsed | combluetoothle/src/main/java/com/bluetooth/le/FioTScanManager.java:85-98 | the sleep window's end calls `start` again with the arguments captured when the cycle was armed, in low-battery mode, restarting scanning and the scan window; a switched-off adapter is caught and ends the cycle |
| ScanManager.PauseRestartsArmingCall | combluetoothle/src/main/java/com/bluetooth/le/FioTScanManager.java:57-99 | a continuous-mode `start` during the pause does not stop the cycle: at the pause's end the first call's filter, `ignoreExist` and listener return, in low-battery mode |
| ScanManager.Stop | combluetoothle/src/main/java/com/bluetooth/le/FioTScanManager.java:107-122 | scanning and listening stop and the list is cleared; low-battery mode cancels the duty timer |
| ScanManager.End | combluetoothle/src/main/java/com/bluetooth/le/FioTScanManager.java:124-128 | the transport is ended and the list cleared |
| ScanManager.RemoveDevice | combluetoothle/src/main/java/com/bluetooth/le/FioTScanManager.java:130-142 | with no match the list is unchanged; otherwise exactly one device, the last match, is removed and the order kept |
| ScanManager.LastMatch | combluetoothle/src/main/java/com/bluetooth/le/FioTScanManager.java:130-142 | the highest index below `n` whose address matches, or none |
| ScanManager.OnFoundDevice | combluetoothle/src/main/java/com/bluetooth/le/FioTScanManager.java:146-166 | unnamed or filtered-out devices are ignored; a new address is appended and reported; a known address is reported only when `ignoreExist` is off |
| ScanManager.OnAdvertisement | combluetoothle/src/main/java/com/bluetooth/le/FioTScanManager.java:146-166 | results reach the filter only while listening |
| ScanManager.OnFoundDeviceKeepsUnique | combluetoothle/src/main/java/com/bluetooth/le/FioTScanManager.java:146-181 | the device list never holds two addresses equal ignoring case |
| ScanManager.RemoveDeviceKeepsUnique | combluetoothle/src/main/java/com/bluetooth/le/FioTScanManager.java:130-142 | removal keeps addresses unique |
| ScanManager.RemoveDeviceRemoves | combluetoothle/src/main/java/com/bluetooth/le/FioTScanManager.java:130-142 | on a unique list, afterwards no device matches the address |
| ScanManager.RemoveDeviceKeepsOthers | combluetoothle/src/main/java/com/bluetooth/le/FioTScanManager.java:130-142 | every listed device whose address does not match is still listed |
| ScanManager.RepeatedAdvertisementDeduplicated | combluetoothle/src/main/java/com/bluetooth/le/FioTScanManager.java:146-181 | a second advertisement from the same address does not grow the list |
| ScanManager.EmptyFilterAcceptsNamed | combluetoothle/src/main/java/com/bluetooth/le/FioTScanManager.java:146-153 | the default empty filter accepts every named device |
| ScanManager.StopEndsLowBatteryCycle | combluetoothle/src/main/java/com/bluetooth/le/FioTScanManager.java:107-122 | stop after a low-battery start leaves no duty timer and an empty list |
| RequestHandler.Enqueue | combluetoothle/src/main/java/com/bluetooth/le/RequestHandler.java:19-23 | the request is added at the tail and the old queue is a prefix |
| RequestHandler.Reset | combluetoothle/src/main/java/com/bluetooth/le/RequestHandler.java:25-29 | the queue is empty |
| RequestHandler.Dequeue | combluetoothle/src/main/java/com/bluetooth/le/RequestHandler.java:71-75 | `remove()` throws NoSuchElement exactly on an empty queue and otherwise takes the head |
| RequestHandler.Dispatch | combluetoothle/src/main/java/com/bluetooth/le/RequestHandler.java:31-58 | a read request reads the characteristic and a write request writes its data; each needs an adapter and a client |
| RequestHandler.Impl | combluetoothle/src/main/java/com/bluetooth/le/RequestHandler.java:31-58 | without a transport or with an empty queue nothing happens; otherwise the head is dispatched and not removed |
| RequestHandler.ImplRightNow | combluetoothle/src/main/java/com/bluetooth/le/RequestHandler.java:63-69 | runs `impl` exactly when the queue holds one request |
| RequestHandler.EnqueueThenImplRightNow | combluetoothle/src/main/java/com/bluetooth/le/RequestHandler.java:19-69 | enqueueing into an empty queue dispatches the new request at once; into a busy queue it waits |
| RequestHandler.DequeueEnqueueCommute | combluetoothle/src/main/java/com/bluetooth/le/RequestHandler.java:19-75 | on a non-empty queue, removing the head and adding at the tail commute |
| RequestHandler.ServeIsFifo | combluetoothle/src/main/java/com/bluetooth/le/RequestHandler.java:31-75 | n rounds of serve-then-dequeue dispatch the first n requests in order and leave the rest |
| RequestHandler.EnqueueAllThenServe | combluetoothle/src/main/java/com/bluetooth/le/RequestHandler.java:19-75 | requests are dispatched in the order they were enqueued, and the queue ends empty |
| RequestHandler.EnqueueAll | combluetoothle/src/main/java/com/bluetooth/le/RequestHandler.java:19-23 | enqueueing a batch grows the queue by its size |
| RequestHandler.EnqueueAllAppends | combluetoothle/src/main/java/com/bluetooth/le/RequestHandler.java:19-23 | enqueueing a batch appends it |
| LostPackets.CalcNumberLostPacket | app/src/main/java/android/fiot/android_ble/MainActivity.java:385-402 | a null packet throws NPE and an empty packet gives 0. For indices in byte range it is 0 on a repeat and otherwise the forward gap minus one, modulo 256 |
| LostPackets.LossIsModularGap | app/src/main/java/android/fiot/android_ble/MainActivity.java:385-402 | for every index in byte range and first byte `b`: 0 when equal, else `(b - index - 1) mod 256` |
| LostPackets.LossReadsFirstByteOnly | app/src/main/java/android/fiot/android_ble/MainActivity.java:385-402 | only the first byte of the packet matters |
| LostPackets.ConsecutiveLosesNothing | app/src/main/java/android/fiot/android_ble/MainActivity.java:385-402 | a packet k+1 steps ahead (mod 256) counts k lost packets |
| LostPackets.UnitTestSamples | app/src/test/java/android/fiot/android_ble/ExampleUnitTest.java:15-51 | the unit test's sample calls give 0, 0, 0, 2, 0, 1, 3 and 6 |
| LostPackets.MinValueIndexWraps | app/src/main/java/android/fiot/android_ble/MainActivity.java:385-402 | with index `Integer.MIN_VALUE`, `b - index - 1` wraps to a negative count |
| Text.EqualsIgnoreCaseIsEquivalence | combluetoothle/src/main/java/com/bluetooth/le/FioTScanManager.java:169-181 | case-insensitive address comparison is reflexive, symmetric and transitive |

## Left out

- Android platform calls (adapter, `BluetoothGatt`, `Handler`, `Looper`, logging) are not executed. They
  appear as `Action` values or as input flags such as `adapterOn` and `linkUp`.
- Time and threads are not modelled as such. Delays are events (`ConnectTimeoutFired`, `NotifyDelayElapsed`,
  `DiscoveryDelayElapsed`, `ReadTick`, the scan and sleep windows); monitor waits and notifies are
  `WriteNotify`, `ReadBack` and `LinkLost`.
- Several pending `Handler` callbacks of one kind are modelled as one timer.
- `Looper.prepare()`/`Looper.loop()` blocking the calling thread is not modelled.
- Interleavings of concurrent callbacks are not explored.
- The lock in `RequestHandler.impl` is left held on its early returns; this is not modelled.
- Java object identity and aliasing are replaced by values:
  - a queued characteristic is a snapshot;
  - platform characteristics are compared by their `id` (`SameHandle`), which stands for reference equality.
- Callbacks after `end()` are not delivered (`Manager.OnTransportEvent` ignores them). The listener-less paths
  that would otherwise throw are kept only where a listener flag exists.
- Data callbacks are not modelled because they carry no state of the core: `onRead`, `onNotify`, RSSI, `onReceiveData`.
- Floating point, string and hex helpers of `ByteUtils` are not modelled because they only format or decode:
  `floatToByteArray`, `doubleToByteArray`, `toFloat`, `toDouble`, `toString`, `stringToByteArray`,
  `toHexString`, `toIntegerString`.
- `reConnect`, the library singleton, `read()`, and `write(uuid, data, delay, blockSize)` of `FioTManager` are
  not modelled. The last two call `writeDataToCharacteristic`, which the transport class shown does not
  define. Chunk writes issued by the session are the abstract action `IssueWrite`.
- The `delayTime` parameter of the write loops is not modelled (it only sleeps).
- `getmDataToWriteQueue()` is not defined by the characteristic class shown. The per-characteristic queue it
  returns is the `writeQueue` field.
- A null `data` in `RequestData` is not modelled; data is always an array.
- `equalsIgnoreCase` is modelled with ASCII case folding only.
- `FiotBluetoothInit`, `FiotBluetoothUtils` and `FiotBluetoothAdapterState` (permissions and adapter
  switching) and the `MainActivity` UI are not part of this model. `RequestCmd.java` and
  `FioTBluetoothService.java` are not part of this model.
- Characteristic.SetWriteType: the new write type reaches the wrapper's copy of the handle only, where Java
  mutates the shared platform object; lookups compare `id`, so callbacks carrying another copy still match.
- ByteUtils.ScanFrom: takes `subByteArray(src, i, child.length)` as the overflow-free slice; `i + child.length`
  can leave the int range only when `child` is longer than 2^30 bytes, which is not modelled.
- Manager.ChunksFrom: uses the overflow-free slice; `index + 20` leaves the int range only for data longer
  than 2147483640 bytes, where the as-written loop throws IllegalArgumentException after queueing the earlier chunks.
- ByteUtils.CreateByteArray: `numbers` is never null; the NullPointerException of a null varargs array is not modelled.
- ByteUtils.SubByteArray: `src` is never null; the NullPointerException at `src.length` is not modelled.
- ByteOrder.ToInteger: `b` is never null; the NullPointerException of `ByteBuffer.wrap(null)` is not modelled.
- ByteOrder.ToShort: `b` is never null; the NullPointerException of `ByteBuffer.wrap(null)` is not modelled.
- ByteOrder.ToLong: `b` is never null; the NullPointerException of `ByteBuffer.wrap(null)` is not modelled.
- ByteUtils.Merge: `src` and `bytes` are never null in the in-place method; `ByteUtils.MergeEffect` states the
  null cases of `merge`.
- ByteUtils.Append: `src` and `bytes` are never null in the in-place method; `ByteUtils.MergeEffect` states the
  null cases of `append`.
- ReliableWriter.Start: `data` is never null; the NullPointerException at `dataToWrite.length`
  (FioTBluetoothLE.java:320, 377) is not modelled.
- ReliableWriter.RunLoopHead: with `blockSize <= 0`, the null chunk handed to the platform before the
  NullPointerException is not modelled; only the exception is.

## Findings

| source | as written | input that shows it | evidently intended | confidence | as-written member | corrected member |
|---|---|---|---|---|---|---|
| combluetoothle/src/main/java/com/bluetooth/le/utils/ByteUtils.java:234-248 | the clamp compares `startPos + num` with the length in 32-bit arithmetic, and the sum can wrap negative | `subByteArray([0,0], 1, Integer.MAX_VALUE)` makes `copyOfRange(src, 1, negative)` throw | the tail of the array from `startPos` (`[0]`) | not executed | ByteUtils.SubByteArrayOverflowThrows | ByteUtils.SubByteArrayIntended |
| combluetoothle/src/main/java/com/bluetooth/le/utils/ByteUtils.java:321-348 | the scan compares `src[i]` with `child[i]` and only tries starts below `child.length` | `isContain([9,1,2], [1,2])` is false | true whenever `child` occurs as a contiguous slice of `src` | not executed | ByteUtils.IsContainMissesOccurrence | ByteUtils.IsContainCorrected |
| combluetoothle/src/main/java/com/bluetooth/le/FioTManager.java:216-247 | a write is started whenever the queue was empty, even if the data added no chunk | `write(uuid, new byte[0])` with nothing queued calls `element()` on an empty queue and throws NoSuchElementException | an empty write does nothing | not executed | Manager.WriteEmptyDataThrows | Manager.Write |
