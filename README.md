# co2meter-rs protocol engine, in Dafny

This project models the protocol engine of `co2meter-rs`, a Rust port of the
Python `co2meter` package, which reads USB CO2 monitors (HID vendor 0x04d9,
product 0xa052). The driver reads eight-byte HID reports from the sensor and
deciphers each one.
Deciphering reorders the bytes, packs them into a 64-bit word, XORs the word
with the magic table, rotates it right by three bits, splits it back into
bytes, and subtracts the nibble-swapped seed "Htemp99e" byte by byte. It then
checks the frame's end marker and checksum, and reads the frame as a CO2
sample (code 0x50) or a temperature sample (code 0x42). `read_data` keeps
polling until it holds both values or its request budget is spent.

Modules, in dependency order:

- `Wrappers`: `Option` and `Result`.
- `Bytes`: bytes and 64-bit words as bit-vectors, `list_to_u64` and
  `u64_to_list`.
- `Cipher`: the magic word, the cipher (`Decipher`), and its inverse
  (`Encipher`, the sensor's side).
- `Frame`: the frame decoder and the temperature conversion.
- `Acquisition`: `hid_read` and the polling loop of `read_data_inner` as
  functions over the stream of reports the sensor delivers.
- `Monitor`: the `CO2Monitor` class, with its fields and its methods, each
  proved to compute what the functions of `Acquisition` and `Cipher`
  specify, plus `find_device`, `new` and `default`.

The model follows the code as written, including three behaviours a reader
might not expect:

- The loop guard is an exclusive or, `(request_num < max_requests) ^
  (co2 and temp both filled)`. If both slots fill exactly when the budget
  runs out, the guard is true again and the loop keeps reading
  (`Acquisition.BudgetOvershoot`).
- The first arm of the `match` is `(co2_val, None) => co2 = co2_val`. A
  frame that decodes to nothing therefore empties the CO2 slot.
- `read_data` returns early when sending the feature report fails. That
  leaves the device handle open, so a later `read_data` would trip the
  `assert!` in `hid_open` (`Monitor.CO2Monitor.ReadData`, whose `requires`
  is that assertion).

A success needs at least two requests and a budget of at least three
(`Acquisition.SuccessNeedsThreeRequests`). With a budget of two, the loop
fills both slots at the second request and then overshoots.

## Model

| member | source | states |
|---|---|---|
| Bytes.ListToU64 | src/lib.rs:56-65 | the packed word's top byte is the first input byte and its bottom byte the last: the bytes are read most significant first |
| Bytes.BytesOfListToU64 | src/lib.rs:56-65 | `list_to_u64` loses nothing: splitting the word it builds gives back the eight bytes, in order |
| Bytes.PackBytesOf | src/lib.rs:56-77 | packing the big-endian bytes of a word gives back the word, so `list_to_u64` and `u64_to_list` are inverse bijections |
| Bytes.U64ToList | src/lib.rs:66-77 | the buffer filled shift by shift holds the word's bytes, most significant first, and `list_to_u64` of it is the word |
| Cipher.NibbleSwap | src/lib.rs:83 | `(b << 4) \| (b >> 4)` on a byte exchanges its nibbles: the low nibble becomes the sixteens digit and the high nibble the units |
| Cipher.NibbleSwapInvolutive | src/lib.rs:83 | swapping the nibbles twice gives back the byte |
| Cipher.MagicWordValue | src/lib.rs:78-87 | the seed's bytes are 48 74 65 6D 70 39 39 65, the magic word is 84 47 56 D6 07 93 93 56, and swapping back gives the seed |
| Cipher.GetMagicWord | src/lib.rs:78-87 | the loop stores, at each index, the nibble-swapped byte of the seed at that index, and the result is the magic word |
| Cipher.PermuteFollowsOrder | src/lib.rs:202-211 | output byte i of the reordering is input byte 2, 4, 0, 7, 1, 6, 5, 3 for i = 0..7 |
| Cipher.PermuteInvolutive | src/lib.rs:202-211 | the reordering is its own inverse |
| Cipher.RotateProperties | src/lib.rs:216 | `(x >> 3) \| (x << 61)` is a rotation right by three over the full 64 bits, and the opposite shift pair undoes it |
| Cipher.SubKeyAddKey | src/lib.rs:219-221 | byte-wise wrapping subtraction of the magic word undoes byte-wise wrapping addition |
| Cipher.AddKeySubKey | src/lib.rs:219-221 | byte-wise wrapping addition of the magic word undoes byte-wise wrapping subtraction |
| Cipher.Decipher | src/lib.rs:197-223 | with the bypass flag set, `decrypt` returns the report unchanged; the result is always eight bytes |
| Cipher.DecipherEncipher | src/lib.rs:197-223 | deciphering the sensor's enciphering of a frame gives back the frame, for every magic table and both bypass settings |
| Cipher.EncipherDecipher | src/lib.rs:197-223 | every report is the enciphering of what `decrypt` makes of it, so `decrypt` is a bijection on eight-byte reports |
| Cipher.ZeroTableXorIsIdentity | src/lib.rs:212-216 | with the all-zero table every monitor holds, the XOR step is the identity |
| Frame.Celsius | src/lib.rs:51-54 | the raw count is sixteenths of a kelvin: Celsius plus 273.15, times 16, gives the count back; the result lies between -273.15 and 3823 |
| Frame.CelsiusStrictlyIncreasing | src/lib.rs:51-54 | a larger raw count gives a higher temperature |
| Frame.Classify | src/lib.rs:225-240 | never fills both slots; a filled slot holds the big-endian value of bytes 1-2 |
| Frame.DecodeMessage | src/lib.rs:225-240 | the same, on a frame of bytes: at most one slot filled, with the value of bytes 1-2 |
| Frame.DecodeClassification | src/lib.rs:225-240 | CO2 is returned exactly when bytes 4-7 are the end marker and zeros, the checksum holds, and the code is 0x50; temperature likewise with 0x42; otherwise nothing |
| Frame.DecodeMakeFrame | src/lib.rs:225-240 | decoding the well-formed frame of a code and value returns that value in the slot of the code, or nothing for other codes |
| Frame.AcceptedFrameIsWellFormed | src/lib.rs:225-240 | every frame the decoder accepts is exactly the well-formed frame of its code and value |
| Acquisition.ReadBuffer | src/lib.rs:192-193 | the zeroed buffer passed to `read` holds the report's first bytes, up to eight, and zeros past the report's end |
| Acquisition.HidRead | src/lib.rs:191-195 | a closed device fails with "not opened" and reads nothing; every read takes one report; a failed read is an error; on an open device a received report always gives `Ok` of the deciphered read buffer, and every `Ok` came from a received report |
| Acquisition.HidReadFrameWasSent | src/lib.rs:191-195 | the frame `hid_read` returns is the one the sensor enciphered into the report |
| Acquisition.Accumulate | src/lib.rs:249-253 | a result without temperature overwrites the CO2 slot, even with nothing; a temperature-only result sets the temperature slot; one step fills at most one more slot |
| Acquisition.Run | src/lib.rs:246-255 | the loop stops only when the XOR guard is false; the requests made equal the reports taken; a false guard reads nothing |
| Acquisition.RunLeavesSuffix | src/lib.rs:246-255 | the reports the loop leaves are a suffix of those it was given |
| Acquisition.ReadDataInner | src/lib.rs:241-262 | a read error from the loop is passed through; otherwise a missing CO2 value is reported before a missing temperature; the reading succeeds exactly when the loop finishes with both slots filled, carries the two slot values, and carries the time only when asked to; the reports left are those the loop left |
| Acquisition.SentDecodes | src/lib.rs:191-240 | a report the sensor sends for a reading deciphers and decodes to that reading |
| Acquisition.RunDecoded | src/lib.rs:246-255 | one turn of the loop on a report that decodes to d folds d into the slots and counts one request |
| Acquisition.ZeroBudgetReadsNothing | src/lib.rs:241-262 | with a budget of zero, no report is read and the missing CO2 error is returned |
| Acquisition.NoiseRun | src/lib.rs:246-255 | from empty slots, a run of rejected frames keeps the slots empty until the budget is spent |
| Acquisition.AllNoiseExhaustsBudget | src/lib.rs:241-262 | if the first `max_requests` reports are all rejected, exactly that many are read and the missing CO2 error is returned |
| Acquisition.FilledAtMostRequests | src/lib.rs:246-255 | the loop never fills more slots than requests it made |
| Acquisition.SuccessIffUnderBudget | src/lib.rs:241-262 | a reading succeeds exactly when the loop finishes with fewer requests than the budget |
| Acquisition.SuccessNeedsThreeRequests | src/lib.rs:241-262 | a successful reading took at least two requests, and the budget was at least three |
| Acquisition.ReadErrorAborts | src/lib.rs:246-255 | at any turn of the loop, whatever the slots and requests so far, a failed read ends the loop with that error, after taking one report |
| Acquisition.ClosedChannelAborts | src/lib.rs:241-262 | polling a closed device fails with "not opened" and reads nothing |
| Acquisition.TwoFramesSuffice | src/lib.rs:241-262 | with a budget of at least three, a CO2 frame then a temperature frame give the reading after two requests |
| Acquisition.BudgetOvershoot | src/lib.rs:241-262 | with a budget of two, the same two frames fill both slots, the guard reopens, a third rejected frame empties CO2, and the missing CO2 error is returned |
| Monitor.FindDevice | src/lib.rs:160-174 | returns nothing exactly when no device has the sensor's ids and the requested path; otherwise the first such device |
| Monitor.CO2Monitor.constructor | src/lib.rs:140-146 | a new monitor holds the device it found, its bypass flag, no open handle and an all-zero magic table |
| Monitor.CO2Monitor.HidOpen | src/lib.rs:176-183 | a failed open leaves no handle; a successful open holds a handle and sends the magic table when asked; a failed send is an error that leaves the handle open |
| Monitor.CO2Monitor.HidClose | src/lib.rs:185-189 | the handle is dropped and the result is success |
| Monitor.CO2Monitor.Decrypt | src/lib.rs:197-223 | computes `Cipher.Decipher` for the monitor's bypass flag and magic table |
| Monitor.CO2Monitor.SubtractEach | src/lib.rs:219-221 | the `map` with a running index subtracts the magic word byte by byte, wrapping |
| Monitor.CO2Monitor.HidRead | src/lib.rs:191-195 | computes `Acquisition.HidRead` for the monitor's state |
| Monitor.CO2Monitor.ReadDataInner | src/lib.rs:241-262 | the loop computes `Acquisition.ReadDataInner`: same reading or error, same reports left |
| Monitor.CO2Monitor.ReadData | src/lib.rs:271-276 | a failed open is returned with no handle; a failed send is returned with the handle left open; otherwise the result of polling an open device, with the handle closed again |
| Monitor.New | src/lib.rs:135-147 | fails when the HID library cannot start or no wanted device exists; otherwise returns a fresh monitor on the first wanted device, with nothing open and a zero table |
| Monitor.Default | src/lib.rs:128-131 | `new` without bypass and without a path: fails when the HID library cannot start or no device has the sensor's ids; otherwise a fresh, readable monitor on the first such device, with nothing open and a zero table |

## Left out

- The HID library: the device list, whether `HidApi::new`, `open_device` and `send_feature_report` succeed, and the reports `read` delivers are parameters. A read that would block forever after the last report is modelled as a failed read.
- `get_info` and `CO2MonitorInfo`: they only copy strings out of the HID device description.
- The non-UTF-8 path panic in `find_device` (`to_str().unwrap()`): paths are modelled as strings.
- The clock: `chrono::offset::Local::now()` is the `now` parameter.
- Frame.Celsius: computed in exact real arithmetic; the `f32` rounding of the source is not modelled.
- Acquisition.Reading: keeps the raw temperature count; the source's `temp_c` is `Frame.Celsius` of it.
- Acquisition.Run: counts requests with an unbounded `nat`; the source's `u32` counter could only overflow after more than 2^32 reads in the overshoot case.
- Monitor.CO2Monitor.Decrypt: the magic table is a `seq` of eight bytes rather than a fixed `[u8; 8]` array, and the report is passed by value, as in the source.
- Monitor.CO2Monitor.ReadData: requires that no handle is open, which stands for the `assert!` in `hid_open`; the panic a second `read_data` hits after a failed feature report is therefore not modelled, only the open handle that causes it.
- The `serde` derives and the hardware-dependent unit tests.
