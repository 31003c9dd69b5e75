# VL53L5CX Arduino driver: I2C transport and sensor facade

This project models, in Dafny, the part of the VL53L5CX time-of-flight
sensor driver that sits between ST's closed "ultra lite driver" (ULD) and
the Arduino `Wire` bus:

- the four I2C transport shims the ULD calls to move bytes to and from the
  sensor's 16-bit register space
  (`RdByte`, `WrByte`, `RdMulti`, `WrMulti` and `SwapBuffer`);
- the `VL53L5cx` facade class, which holds a configuration, boots the
  sensor through a fixed sequence of ULD calls and reads zone results.

The shims are modelled as pure functions on an explicit wire model. This
model is in `bus.dfy`:

- A write is a sequence of transactions `Txn(dev, reg, payload, stop)`.
- The `Wire` transmit buffer is a `Capacity` of at least 2 bytes. The
  first two bytes of every transaction are the big-endian register index.
- The status that `endTransmission` returns is an oracle `ack`, indexed by
  the transaction's position in the trace.
- A read is a sequence of `requestFrom` requests. What the bus hands back
  for each request is an oracle `answer`.
- On the device side, registers auto-increment. `Deliver` plays a trace
  into a register `Memory`. `Store` is the reference: one contiguous write
  of the whole data at the start register.

The transport comes in four source variants; the files model them and the facade:

| file | models |
|---|---|
| `bus.dfy` | register encoding, 7-bit device address, the `Wire` buffer, traces, device memory |
| `reads.dfy` | single-byte reads and the chunked multi-byte read (32-byte blocks) of all variants |
| `fixed_split.dfy` | the segmented write of `src/vendor/platform.cpp` and `src/vl53l5cx_arduino.cpp` (17 bytes, then 16) |
| `buffer_split.dfy` | the buffer-limited write of `src/st/platform.cpp` and `src/platform.cpp`, and their single-byte writes |
| `swap.dfy` | `SwapBuffer`: the in-place reversal of every 4-byte group |
| `facade.dfy` | `VL53L5cx`: constructors, `begin`, and the result getters |

Each operation is paired with an independent reference and a lemma
relating the two:

| operation | reference |
|---|---|
| segmented writes | the reference segmentations `Segments` and `Chunks` |
| writes, via the device side | the single-store memory `Store` |
| chunked read | the block-request shape |
| `SwapBuffer` | group reversal `GroupsReversed`, and its own inverse |
| `begin` | a fixed call `Plan` run until its first failure |

## Model

| member | source | states |
|---|---|---|
| Bus.EncodeRegister | src/vendor/platform.cpp:16-21 | the register index goes out as two bytes, high byte first, and decoding those two bytes gives the index back |
| Bus.EncodeDecodeRegister | src/st/platform.cpp:17-22 | every two-byte register header is the encoding of the index it decodes to (the other half of the round trip) |
| Bus.RegisterAt | src/vl53l5cx_arduino.cpp:106 | the register reached after `offset` bytes is `reg + offset` when that fits in 16 bits, and a whole multiple of 65536 bytes comes back to `reg` |
| Bus.RegisterAtAdd | src/vendor/platform.cpp:120-125 | advancing the 16-bit register by `a` and then by `b` is the same as advancing it by `a + b`, wrap-around included |
| Bus.PlatformRestartIsWrapped | src/platform.cpp:101-103 | the inline `(RegisterAdress+i) >> 8` / `& 0xFF` header of a restarted chunk is the wrapped 16-bit register encoded big-endian |
| Bus.DeviceAddress | src/platform.cpp:30 | the address put on the bus is a 7-bit value congruent to the stored address modulo 128 (`address & 0x7F`) |
| Bus.Frame | src/vendor/platform.cpp:110-116 | a transaction's bytes are its two register bytes followed by its payload, and both can be recovered from them |
| Bus.PlatformRestartFrame | src/platform.cpp:99-104 | a chunk restarted at offset `i` goes on the wire as the inline two-byte header followed by its payload, which is the frame of a transaction at the wrapped register `reg + i` |
| Bus.Write | src/st/platform.cpp:121 | `Wire.write` appends the byte exactly when the buffer has room left, and otherwise leaves the open transaction unchanged |
| Bus.DeliverContiguous | src/vendor/platform.cpp:114-133 | a trace whose transactions each start at the register where the previous one ended delivers the same memory as one write of all their payloads |
| Bus.WellFramedDelivers | src/st/platform.cpp:117-140 | a well-framed trace for `data` leaves the device registers exactly as one contiguous write of `data` at `reg` would |
| Reads.NextChunk | src/vendor/platform.cpp:71 | each request asks for 32 bytes, or for the rest when fewer remain, and never for nothing |
| Reads.ChunkLoop | src/vendor/platform.cpp:66-79 | the block loop keeps its earlier requests and bytes, asks each time for 32 bytes or the rest below `size`, and completes with status 0 and exactly `size` bytes; it overruns only when the bus hands back more than asked |
| Reads.ChunkLoopStores | src/vendor/platform.cpp:68-78 | the bytes the block loop stores are the bus's replies concatenated in request order, and each request is issued at the count of bytes stored before it, which is where its reply lands in `p_values` |
| Reads.RdMulti | src/vendor/platform.cpp:36-89 | a read of at most 32 bytes is one request for all of them and anything larger is requested in blocks, all at the 7-bit address; the status is 0 exactly when `size` bytes arrived; overrun happens exactly when more than `size` bytes arrived; the bytes stored are the replies in request order, and a short read stores exactly the one reply |
| Reads.ChunkLoopCompletes | src/st/platform.cpp:67-82 | when the bus never hands back more than asked and always hands back something, the block loop completes |
| Reads.ChunkedReadSucceeds | src/platform.cpp:47-69 | under the same bus assumptions a read of more than 32 bytes returns status 0 with all `size` bytes |
| Reads.ExactChunkLoop | src/vl53l5cx_arduino.cpp:58-70 | when the bus hands back exactly what is asked, the loop makes ceil(size/32) requests at offsets 0, 32, 64, …, all of 32 bytes but the last |
| Reads.RdByte | src/platform.cpp:8-17 | a byte read requests one byte at the 7-bit address; status 0 with that byte if one arrives, status 1 with nothing if none arrives |
| Reads.ReadChunks | src/vl53l5cx_arduino.cpp:57-69 | the nested `while` loops, storing `data[i]` one byte at a time, produce the same requests and bytes as the block-loop reference `ChunkLoop` |
| Reads.ReadMulti | src/vl53l5cx_arduino.cpp:27-80 | the nested-loop read produces the same requests, bytes and status as the block-loop reference `RdMulti` |
| FixedSplit.Loop | src/vendor/platform.cpp:114-133 | the write loop extends the trace it was given, returns the status of the last transaction it closed, and halts only when the buffer cannot take one data byte |
| FixedSplit.LoopStopsEverySegment | src/vendor/platform.cpp:117-123 | every transaction the segmented loop closes ends with a STOP condition and is sent to the same device |
| FixedSplit.WrMulti | src/vendor/platform.cpp:101-136 | the segmented write starts at `reg`, sends every transaction to the 7-bit address with a STOP, returns the last transaction's status, and always returns when the buffer holds at least 3 bytes |
| FixedSplit.WrByte | src/vendor/platform.cpp:91-99 | a byte write is a single transaction to the 7-bit address at `reg`, ending with STOP, whose status is returned; it holds the value whenever the buffer has room for it |
| FixedSplit.LoopFirstRegister | src/vendor/platform.cpp:110-113 | the first transaction the loop sends is addressed at the register it was opened with |
| FixedSplit.SegmentEnd | src/vendor/platform.cpp:117 | a segment ends inside the data and, unless it is the last, holds at least one byte |
| FixedSplit.SegmentsFraming | src/vendor/platform.cpp:114-133 | the reference segments carry the data suffix in order, each starting at the register where the previous one ended, each with a STOP, none empty |
| FixedSplit.TailSegmentsShape | src/vendor/platform.cpp:117-125 | after the first segment, the k-th segment starts 16 k registers further on and holds 16 bytes, except the last, which holds 1 to 16 |
| FixedSplit.SegmentsShape | src/vendor/platform.cpp:110-135 | the segmentation is well framed; its first segment holds min(17, size) bytes at `reg`; segment k ≥ 1 holds at most 16 bytes at `reg + 16 k + 1`; an empty write is one header-only transaction |
| FixedSplit.BreakAtSegmentEnd | src/vendor/platform.cpp:117 | the `i > 0 && i < size - 1 && i % 16 == 0` test inside the loop fires exactly on a segment's last byte when more data follows, and the next segment starts at an index ≡ 1 mod 16 |
| FixedSplit.WriteClips | src/vendor/platform.cpp:116 | an unchecked `write` into a buffer of `cap` bytes keeps the first `cap - 2` data bytes of the segment and silently drops the rest |
| FixedSplit.BreakStep | src/vendor/platform.cpp:117-125 | at a segment's last byte the loop closes the segment, clipped to the buffer, with STOP and reopens at the next register holding the next byte |
| FixedSplit.LoopFollowsSegments | src/vl53l5cx_arduino.cpp:95-114 | with a buffer of at least 3 bytes the loop sends the reference segments, each clipped to the buffer's `cap - 2` data bytes, and returns the last one's status |
| FixedSplit.LoopBreaks | src/vl53l5cx_arduino.cpp:98-106 | when the loop restarts a transaction mid-data, what it has sent so far is the closed, clipped segment, and the rest follows the clipped reference |
| FixedSplit.WrMultiClipped | src/vendor/platform.cpp:101-136 | with a buffer of at least 3 bytes the segmented write returns the reference segmentation with each payload clipped to the buffer, and the last segment's status |
| FixedSplit.ClippedFits | src/vendor/platform.cpp:114-125 | clipping changes nothing when every segment fits in the buffer |
| FixedSplit.ClippedLoses | src/vendor/platform.cpp:114-116 | clipping never adds bytes, and loses some whenever the first segment does not fit |
| FixedSplit.WrMultiDropsBytes | src/vendor/platform.cpp:114-116 | with a buffer of 3 to 18 bytes and more data than it holds, the write still returns, its first transaction carries only the first `cap - 2` bytes, and fewer bytes than `size` reach the bus |
| FixedSplit.WrMultiSegments | src/vendor/platform.cpp:101-136 | with a buffer of at least 19 bytes the segmented write is exactly the reference segmentation with the last segment's status |
| FixedSplit.WrMultiDelivers | src/vl53l5cx_arduino.cpp:82-117 | with a buffer of at least 19 bytes the segmented write returns, is well framed, and leaves device memory as one contiguous write of the data |
| FixedSplit.WriteMulti | src/vl53l5cx_arduino.cpp:82-117 | the `for` loop of the Arduino variant produces the same trace and status as the reference `WrMulti` |
| BufferSplit.Loop | src/st/platform.cpp:117-138 | the buffer-limited loop extends its trace and halts only when the refused-resend policy halts and the buffer cannot take one data byte |
| BufferSplit.LoopShape | src/st/platform.cpp:121-140 | every transaction the loop adds goes to the same device; only the last ends with STOP; a returning loop reports that last transaction's status |
| BufferSplit.StWrMulti | src/st/platform.cpp:105-141 | the STM32 write addresses every transaction at the 7-bit address with STOP only on the last, returns its status, and halts exactly when the buffer has no room for data and there is data to send |
| BufferSplit.PlatformWrMulti | src/platform.cpp:81-114 | the Arduino write always returns, with STOP only on its last transaction and that transaction's status |
| BufferSplit.ChunksFraming | src/platform.cpp:94-109 | the reference chunks carry the data suffix contiguously, `cap - 2` bytes each, all but the last without STOP, none empty |
| BufferSplit.LoopFollowsChunks | src/st/platform.cpp:117-138 | with room for data, under either policy the loop sends exactly the reference chunks and returns the last one's status |
| BufferSplit.LoopFlushes | src/st/platform.cpp:121-130 | when the buffer fills mid-data the loop closes a full chunk without STOP and restarts at the next register, matching the reference |
| BufferSplit.WrMultiChunks | src/platform.cpp:94-111 | with a buffer of at least 3 bytes both buffer-limited writes are exactly the reference chunks with the last chunk's status |
| BufferSplit.WrMultiDelivers | src/st/platform.cpp:105-141 | with a buffer of at least 3 bytes the two variants agree, return, are well framed, and leave device memory as one contiguous write of the data |
| BufferSplit.IgnoreDropsRest | src/platform.cpp:104-107 | with a 2-byte buffer the Arduino loop sends one header-only transaction per remaining byte plus the final one, and delivers no data |
| BufferSplit.TinyBufferBehaviour | src/st/platform.cpp:131-136 | with a 2-byte buffer and data to send, the Arduino write returns after `size + 1` empty transactions and the STM32 write halts after one header without STOP |
| BufferSplit.PlatformWrByte | src/platform.cpp:72-79 | the Arduino byte write sends one transaction holding the value with STOP; a 2-byte buffer sends no data, yet the write still returns |
| BufferSplit.StWrByte | src/st/platform.cpp:95-103 | the STM32 byte write sends one transaction holding the value with STOP, and halts with the header unterminated when the buffer has no room |
| Swap.PackWord | src/st/platform.cpp:166-170 | four bytes combined big-endian form a 32-bit word |
| Swap.StoreReversesWord | src/st/platform.cpp:166-172 | packing four bytes big-endian and storing the word little-endian with `memcpy` reverses them |
| Swap.SwapWordAt | src/platform.cpp:144-150 | one loop step, stated by its effect, keeps the buffer's length and every byte outside the group it rewrites |
| Swap.SwapFromReverses | src/st/platform.cpp:164-173 | the reference loop from group `i` on leaves the earlier bytes alone and reverses every later group |
| Swap.SwapBufferReverses | src/st/platform.cpp:161-174 | `SwapBuffer` reverses every 4-byte group of the buffer and keeps its length |
| Swap.SwapInvolution | VL53L5CX_ULD_driver_1.0.4/Examples/Example_8_vizualize_xtalk_data.c:171-195 | swapping a second time restores the buffer byte for byte, which the xtalk example relies on when it re-swaps |
| Swap.SwapInPlace | src/platform.cpp:138-152 | the source loop, which packs each group big-endian and stores the word back little-endian as it goes, reverses every 4-byte group of the original and so equals the reference `SwapBuffer` |
| Facade.New4x4 | src/NewVL53L5cx.h:137-144 | the 4x4 constructor gives a configured sensor with 16 zones, the enum value as the frequency, address 0x29 unless given, and the other arguments as passed |
| Facade.New8x8 | src/NewVL53L5cx.h:146-153 | the 8x8 constructor gives a configured sensor with 64 zones, the enum value as the frequency, address 0x29 unless given, and the other arguments as passed |
| Facade.ConstructorsCoverConfigured | src/NewVL53L5cx.h:36-153 | every configured sensor is what one of the two public constructors builds |
| Facade.Begin | src/NewVL53L5cx.h:155-266 | `begin` copies the address into the platform structure, always resets and checks the sensor is alive first, and on success ends with start ranging and one data-ready check |
| Facade.Configure | src/NewVL53L5cx.h:220-266 | the steps after the ranging mode keep the calls made so far, and on success add exactly seven calls, ending with start and data-ready check |
| Facade.RunStopsAtFirstFailure | src/NewVL53L5cx.h:167-253 | a plan run issues a prefix of the plan; it reaches ranging exactly when no call fails; when it stops, the last call failed and all earlier ones succeeded |
| Facade.BeginRunsPlan | src/NewVL53L5cx.h:155-266 | `begin` equals running its fixed plan until the first failing call |
| Facade.ConfigureRunsPlan | src/NewVL53L5cx.h:220-266 | the frequency-to-start tail of `begin` equals running the tail of the plan |
| Facade.BeginFollowsPlan | src/NewVL53L5cx.h:166-261 | `begin`'s calls are a prefix of the plan; it starts ranging exactly when no checked call fails; when it halts, the last call made is the first that failed |
| Facade.PlanOrder | src/NewVL53L5cx.h:184-265 | the resolution is set right after the alive check and init, before mode, integration time, frequency and target order; autonomous mode and the integration time are chosen exactly when `integralTime > 0`; the plan ends with frequency, CLOSEST, the time read, SLEEP, WAKEUP, start and data-ready |
| Facade.StartStatusIgnored | src/NewVL53L5cx.h:257-265 | the statuses of `start_ranging` and `check_data_ready` never change how `begin` ends |
| Facade.PixelCount | src/NewVL53L5cx.h:287-290 | a configured sensor reports 16 or 64 pixels |
| Facade.FirstTarget | src/NewVL53L5cx.h:294 | `NB_TARGET_PER_ZONE * pixel` is the first slot of that zone in a zone-major per-target array |
| Facade.ZoneTargets | src/NewVL53L5cx.h:294 | the zone-major layout: zone `z` owns `NB_TARGET_PER_ZONE` consecutive entries of a per-target array |
| Facade.TargetStatus | src/NewVL53L5cx.h:292-295 | the target status getter returns the first of the zone's entries in the zone-major per-target array |
| Facade.DistanceMm | src/NewVL53L5cx.h:297-300 | the distance getter returns the first of the zone's entries in the zone-major per-target array |
| Facade.TargetDetectedCount | src/NewVL53L5cx.h:302-305 | the detected-count getter reads the per-zone entry of the same zone whose first target the other getters read |
| Facade.AmbientPerSpad | src/NewVL53L5cx.h:307-310 | the ambient getter returns the zone's value unchanged below 256, and otherwise its low 8 bits |
| Facade.GetterIndexing | src/NewVL53L5cx.h:287-310 | for a configured sensor every pixel below the pixel count reads inside 64-zone arrays, its zone's entries map back to it, and distinct pixels never share a slot |

## Left out

- `Reset_Sensor`, `WaitMs`, `delay` and GPIO pin control are not modelled. The reset is one `ResetSensor` call with no status, and waits have no effect on the model.
- The address phase of every multi-byte read is retried until it is acknowledged (`do … while (status != 0)`, src/vendor/platform.cpp:47-64). The model takes that loop as having ended: the retries send the same header and leave nothing else behind. The STM32-only `Wire.end()`/`Wire.begin()` re-initialisation inside that loop is not modelled.
- The debug print at `src/platform.cpp:49` is not modelled. It adds `size` to the address of the string literal instead of formatting the number, but it only affects serial output.
- The ULD API (`vl53l5cx_api.c`) is not part of this model. Each of its calls is an abstract command answered by an oracle.
- `vl53l5cx_api.h` is not part of this model, so two things are assumed:
  - result arrays hold 64 zones;
  - `ambient_per_spad` is wider than 8 bits.
- Facade.AmbientPerSpad: the truncation to `uint8_t` is modelled as reduction modulo 256, on the assumption that the field is a wider unsigned integer.
- `dataIsReady` and `readData` pass straight through to the ULD and are not modelled.
- The crosstalk plugin tables and the example programs are not modelled. The exception is the example's swap, re-read, re-swap pattern, which `Swap.SwapInvolution` states.
- Bus.Capacity: buffers of fewer than 2 bytes, which cannot even hold the register index, are not modelled.
- The host is taken to be little-endian. `memcpy` of a `uint32_t` stores the low byte first.
- Register auto-increment on the device is an assumption of the device-side `Memory` model. It is not something the driver states.
- `Debugger::reportForever` is not part of this model. It is treated as never returning, so a failing call ends `begin` in the `Stopped` state.
- Reads.RdMulti: the chunked read takes a `fuel` bound. The source loops forever on a bus that hands back nothing, and the model's `Stalled` outcome stands for that.
- Reads.RdMulti: the `Overrun` outcome stands for the source storing more bytes than the caller's buffer holds. What it overwrites is not modelled.
- FixedSplit.WrMulti: the full data reaches the bus only with a buffer of at least 19 bytes (`WrMultiSegments`, `WrMultiDelivers`). Below that, the unchecked `write` of the first segment drops bytes, and the model states the loss (`WrMultiClipped`, `WrMultiDropsBytes`) rather than a delivery.
- Facade.TargetStatus, Facade.DistanceMm, Facade.TargetDetectedCount, Facade.AmbientPerSpad: the getters require the pixel's entries to lie inside the result arrays. The source does no bounds check, and an out-of-range pixel reads past the ULD's arrays; that read is not modelled.
- Swap.SwapBufferReverses: the buffer size must be a multiple of 4. The source reads `buffer[i + 3]` in each group, so any other size reads past the buffer.
