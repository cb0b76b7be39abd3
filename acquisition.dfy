/**
 * The acquisition loop of `read_data_inner`: read a report, decipher it,
 * decode it, fold the result into the CO2 and temperature slots, and stop
 * when `(request_num < max_requests) XOR (both slots filled)` turns false.
 *
 * The sensor's side of the link is a sequence of reports: each read takes
 * the next one, which is either the bytes of a HID report or a failed read.
 * The functions here are the specification that `CO2Monitor`'s methods are
 * proved against.
 */
module Acquisition {

  import opened Wrappers
  import opened Bytes
  import opened Cipher
  import opened Frame

  /** What one `read` on the HID device delivers. */
  datatype Report = Received(bytes: seq<byte>) | ReadError

  /** The errors the monitor reports, one per error path of the source. */
  datatype Error =
    | HidApiUnavailable     // `HidApi::new` failed
    | DeviceNotFound        // "Unable to find the hid device"
    | OpenFailed            // `open_device` failed
    | FeatureReportFailed   // `send_feature_report` failed
    | DeviceNotOpened       // "Device is not opened. Call hid_open before hid_read()"
    | ReadFailed            // `read` failed
    | MissingCO2            // "Unable to read the co2 in the allotted number of requests"
    | MissingTemperature    // "Unable to read the temperature in the allotted number of requests"

  /** Wall-clock time, as the caller's clock reports it. */
  type Timestamp = int

  /** `CO2Reading`, with the temperature as the sensor's raw count. */
  datatype Reading = Reading(time: Option<Timestamp>, co2Ppm: u32, tempRaw: u16)

  /** What `hid_read` needs of the monitor: whether a device is open, and
      the two inputs of `decrypt`. */
  datatype Channel = Channel(open: bool, bypass: bool, table: seq<byte>)
  {
    predicate Valid() { |table| == 8 }
  }

  /** The zeroed eight-byte buffer `hid_read` passes to `read`, after `read`
      has stored the report into it: at most eight bytes are stored, and
      bytes the report does not reach stay zero. */
  function ReadBuffer(bytes: seq<byte>): (buf: seq<byte>)
    ensures |buf| == 8
    ensures |bytes| == 8 ==> buf == bytes
    ensures forall i :: 0 <= i < 8 && |bytes| <= i ==> buf[i] == 0
    ensures forall i :: 0 <= i < 8 && i < |bytes| ==> buf[i] == bytes[i]
  {
    seq(8, i requires 0 <= i < 8 => if i < |bytes| then bytes[i] else 0)
  }

  /** `hid_read`: the deciphered frame, or the error, and the reports still
      to come. A closed channel fails without reading; every read, good or
      failed, takes one report; reading past the last report fails. */
  function HidRead(ch: Channel, reports: seq<Report>): (r: (Result<seq<byte>, Error>, seq<Report>))
    requires ch.Valid()
    ensures !ch.open ==> r == (Err(DeviceNotOpened), reports)
    ensures ch.open && reports == [] ==> r == (Err(ReadFailed), [])
    ensures ch.open && reports != [] ==> r.1 == reports[1..]
    ensures r.0.Ok? ==> reports != [] && reports[0].Received? && |r.0.value| == 8
    ensures ch.open && reports != [] && reports[0].ReadError? ==> r.0 == Err(ReadFailed)
    ensures ch.open && reports != [] && reports[0].Received? ==>
      r.0 == Ok(Decipher(ch.bypass, ch.table, ReadBuffer(reports[0].bytes)))
  {
    if !ch.open then (Err(DeviceNotOpened), reports)
    else if reports == [] then (Err(ReadFailed), [])
    else match reports[0]
      case ReadError => (Err(ReadFailed), reports[1..])
      case Received(bytes) =>
        (Ok(Decipher(ch.bypass, ch.table, ReadBuffer(bytes))), reports[1..])
  }

  /** A frame `hid_read` returns is the one the sensor enciphered into the
      report it read: reading loses nothing and invents nothing. */
  lemma HidReadFrameWasSent(ch: Channel, reports: seq<Report>)
    requires ch.Valid()
    ensures var r := HidRead(ch, reports);
      r.0.Ok? ==> Encipher(ch.bypass, ch.table, r.0.value) == ReadBuffer(reports[0].bytes)
  {
    if ch.open && reports != [] && reports[0].Received? {
      EncipherDecipher(ch.bypass, ch.table, ReadBuffer(reports[0].bytes));
    }
  }

  /** The two slots `read_data_inner` fills. */
  datatype Slots = Slots(co2: Option<u32>, temp: Option<u16>)
  {
    predicate Full() { co2.Some? && temp.Some? }

    /** How many slots hold a value. */
    function Filled(): (k: nat)
      ensures k <= 2 && (k == 2 <==> Full()) && (k == 0 <==> co2.None? && temp.None?)
    {
      (if co2.Some? then 1 else 0) + (if temp.Some? then 1 else 0)
    }
  }

  /** The `match` on the decoded message. The first arm catches every
      result whose temperature is `None`, so a frame that decodes to
      nothing empties the CO2 slot. */
  function Accumulate(s: Slots, d: Decoded): (r: Slots)
    ensures d.1.None? ==> r == Slots(d.0, s.temp)
    ensures d.0.None? && d.1.Some? ==> r == Slots(s.co2, d.1)
    ensures d == (None, None) ==> r.co2.None? && r.temp == s.temp
    ensures r.Filled() <= s.Filled() + 1
  {
    match d
    case (c, None) => s.(co2 := c)
    case (None, t) => s.(temp := t)
    case _ => s
  }

  /** The loop guard: `(request_num < max_requests) ^ (both filled)`. */
  predicate KeepReading(requestNum: nat, maxRequests: nat, s: Slots)
  {
    (requestNum < maxRequests) != s.Full()
  }

  /** How the loop ends: with the slots and the number of requests made,
      or with the error of a read (`?` on `hid_read`); either way with the
      reports still to come. */
  datatype Exit =
    | Finished(slots: Slots, requests: nat, rest: seq<Report>)
    | Aborted(error: Error, rest: seq<Report>)

  /** The loop of `read_data_inner`, run from slots `s` after `n` requests. */
  function Run(ch: Channel, maxRequests: nat, s: Slots, n: nat, reports: seq<Report>): (e: Exit)
    requires ch.Valid()
    ensures |e.rest| <= |reports|
    ensures e.Finished? ==> !KeepReading(e.requests, maxRequests, e.slots)
    ensures e.Finished? ==> e.requests == n + |reports| - |e.rest|
    ensures !KeepReading(n, maxRequests, s) ==> e == Finished(s, n, reports)
    decreases |reports|
  {
    if !KeepReading(n, maxRequests, s) then Finished(s, n, reports)
    else
      var (data, rest) := HidRead(ch, reports);
      match data
      case Err(error) => Aborted(error, rest)
      case Ok(frame) => Run(ch, maxRequests, Accumulate(s, DecodeMessage(frame)), n + 1, rest)
  }

  /** The loop reads the reports in order: what it leaves is a suffix of
      what it was given. */
  lemma {:induction false} RunLeavesSuffix(ch: Channel, maxRequests: nat, s: Slots, n: nat, reports: seq<Report>)
    requires ch.Valid()
    ensures var e := Run(ch, maxRequests, s, n, reports);
      e.rest == reports[|reports| - |e.rest|..]
    decreases |reports|
  {
    if KeepReading(n, maxRequests, s) && ch.open && reports != [] && reports[0].Received? {
      var rest := reports[1..];
      var d := DecodeMessage(Decipher(ch.bypass, ch.table, ReadBuffer(reports[0].bytes)));
      var next := Accumulate(s, d);
      RunDecoded(ch, maxRequests, s, n, reports, d);
      RunLeavesSuffix(ch, maxRequests, next, n + 1, rest);
      var k := |Run(ch, maxRequests, next, n + 1, rest).rest|;
      assert rest[|rest| - k..] == reports[|reports| - k..];
    }
  }

  /** `read_data_inner`: run the loop from empty slots, then report a
      missing CO2 value before a missing temperature. */
  function ReadDataInner(ch: Channel, recordTime: bool, now: Timestamp, maxRequests: nat, reports: seq<Report>)
    : (r: (Result<Reading, Error>, seq<Report>))
    requires ch.Valid()
    ensures r.0.Ok? ==> r.0.value.time == (if recordTime then Some(now) else None)
    ensures r.0.Ok? <==> var e := Run(ch, maxRequests, Slots(None, None), 0, reports);
                         e.Finished? && e.slots.Full()
    ensures var e := Run(ch, maxRequests, Slots(None, None), 0, reports);
      r.1 == e.rest
    ensures var e := Run(ch, maxRequests, Slots(None, None), 0, reports);
      e.Aborted? ==> r.0 == Err(e.error)
    ensures var e := Run(ch, maxRequests, Slots(None, None), 0, reports);
      e.Finished? && e.slots.co2.None? ==> r.0 == Err(MissingCO2)
    ensures var e := Run(ch, maxRequests, Slots(None, None), 0, reports);
      e.Finished? && e.slots.co2.Some? && e.slots.temp.None? ==> r.0 == Err(MissingTemperature)
    ensures var e := Run(ch, maxRequests, Slots(None, None), 0, reports);
      r.0.Ok? ==> r.0.value.co2Ppm == e.slots.co2.value && r.0.value.tempRaw == e.slots.temp.value
  {
    match Run(ch, maxRequests, Slots(None, None), 0, reports)
    case Aborted(error, rest) => (Err(error), rest)
    case Finished(s, _, rest) =>
      if s.co2.None? then (Err(MissingCO2), rest)
      else if s.temp.None? then (Err(MissingTemperature), rest)
      else (Ok(Reading(if recordTime then Some(now) else None, s.co2.value, s.temp.value)), rest)
  }

  /** The report the sensor sends for a reading of the given code and value. */
  function Sent(ch: Channel, code: octet, value: u16): Report
    requires ch.Valid()
  {
    Received(Encipher(ch.bypass, ch.table, MakeFrame(code, value)))
  }

  /** A report that deciphers to a frame the decoder reads as `d`. */
  predicate Decodes(ch: Channel, r: Report, d: Decoded)
    requires ch.Valid()
  {
    r.Received? && DecodeMessage(Decipher(ch.bypass, ch.table, ReadBuffer(r.bytes))) == d
  }

  /** The report the sensor sends for a reading decodes to that reading. */
  lemma SentDecodes(ch: Channel, code: octet, value: u16)
    requires ch.Valid()
    ensures Decodes(ch, Sent(ch, code, value),
                    if code == CodeCO2 then (Some(value as u32), None)
                    else if code == CodeTemperature then (None, Some(value))
                    else (None, None))
  {
    DecipherEncipher(ch.bypass, ch.table, MakeFrame(code, value));
    DecodeMakeFrame(code, value);
  }

  /** One turn of the loop on a report that decodes to `d`: fold `d` into
      the slots and count the request. */
  lemma RunDecoded(ch: Channel, maxRequests: nat, s: Slots, n: nat, reports: seq<Report>, d: Decoded)
    requires ch.Valid() && ch.open && KeepReading(n, maxRequests, s)
    requires reports != [] && Decodes(ch, reports[0], d)
    ensures Run(ch, maxRequests, s, n, reports) == Run(ch, maxRequests, Accumulate(s, d), n + 1, reports[1..])
  {
  }

  /** With `max_requests = 0` the loop body never runs: no report is read
      and the missing CO2 value is reported. */
  lemma ZeroBudgetReadsNothing(ch: Channel, recordTime: bool, now: Timestamp, reports: seq<Report>)
    requires ch.Valid()
    ensures ReadDataInner(ch, recordTime, now, 0, reports) == (Err(MissingCO2), reports)
  {
  }

  /** A report that deciphers to a frame the decoder rejects. */
  predicate Noise(ch: Channel, r: Report)
    requires ch.Valid()
  {
    Decodes(ch, r, (None, None))
  }

  /** The first `k` reports all decipher to frames the decoder rejects. */
  predicate NoiseFor(ch: Channel, k: nat, reports: seq<Report>)
    requires ch.Valid()
  {
    k <= |reports| && (k == 0 || (Noise(ch, reports[0]) && NoiseFor(ch, k - 1, reports[1..])))
  }

  /** From empty slots after `n` requests, a run of rejected frames keeps
      the slots empty and reads until the budget is spent. */
  lemma {:induction false} NoiseRun(ch: Channel, maxRequests: nat, n: nat, reports: seq<Report>)
    requires ch.Valid() && ch.open && n <= maxRequests
    requires NoiseFor(ch, maxRequests - n, reports)
    ensures Run(ch, maxRequests, Slots(None, None), n, reports)
         == Finished(Slots(None, None), maxRequests, reports[maxRequests - n..])
    decreases maxRequests - n
  {
    if n < maxRequests {
      var rest := reports[1..];
      RunDecoded(ch, maxRequests, Slots(None, None), n, reports, (None, None));
      NoiseRun(ch, maxRequests, n + 1, rest);
      assert rest[maxRequests - (n + 1)..] == reports[maxRequests - n..];
    }
  }

  /** If every frame is rejected, exactly `max_requests` reads happen and
      the missing CO2 value is reported. */
  lemma AllNoiseExhaustsBudget(ch: Channel, recordTime: bool, now: Timestamp,
                               maxRequests: nat, reports: seq<Report>)
    requires ch.Valid() && ch.open && NoiseFor(ch, maxRequests, reports)
    ensures Run(ch, maxRequests, Slots(None, None), 0, reports)
         == Finished(Slots(None, None), maxRequests, reports[maxRequests..])
    ensures ReadDataInner(ch, recordTime, now, maxRequests, reports) == (Err(MissingCO2), reports[maxRequests..])
  {
    NoiseRun(ch, maxRequests, 0, reports);
  }

  /** Each request fills at most one slot, so the loop never holds more
      filled slots than requests made. */
  lemma {:induction false} FilledAtMostRequests(ch: Channel, maxRequests: nat, s: Slots, n: nat, reports: seq<Report>)
    requires ch.Valid() && s.Filled() <= n
    ensures var e := Run(ch, maxRequests, s, n, reports);
      e.Finished? ==> e.slots.Filled() <= e.requests
    decreases |reports|
  {
    if KeepReading(n, maxRequests, s) {
      var (data, rest) := HidRead(ch, reports);
      if data.Ok? {
        FilledAtMostRequests(ch, maxRequests, Accumulate(s, DecodeMessage(data.value)), n + 1, rest);
      }
    }
  }

  /** A reading succeeds exactly when the loop stops inside the budget. */
  lemma SuccessIffUnderBudget(ch: Channel, recordTime: bool, now: Timestamp, maxRequests: nat, reports: seq<Report>)
    requires ch.Valid()
    ensures var e := Run(ch, maxRequests, Slots(None, None), 0, reports);
      ReadDataInner(ch, recordTime, now, maxRequests, reports).0.Ok?
      <==> e.Finished? && e.requests < maxRequests
  {
  }

  /** A successful reading takes at least two requests and, since the loop
      must stop inside the budget, needs `max_requests` of at least 3. */
  lemma SuccessNeedsThreeRequests(ch: Channel, recordTime: bool, now: Timestamp,
                                  maxRequests: nat, reports: seq<Report>)
    requires ch.Valid()
    requires ReadDataInner(ch, recordTime, now, maxRequests, reports).0.Ok?
    ensures Run(ch, maxRequests, Slots(None, None), 0, reports).requests >= 2
    ensures maxRequests >= 3
  {
    FilledAtMostRequests(ch, maxRequests, Slots(None, None), 0, reports);
  }

  /** A failed read ends the loop at once, whatever the slots and the
      number of requests made so far: the error is returned and the failed
      read has taken its report. */
  lemma ReadErrorAborts(ch: Channel, maxRequests: nat, s: Slots, n: nat, rest: seq<Report>)
    requires ch.Valid() && ch.open && KeepReading(n, maxRequests, s)
    ensures Run(ch, maxRequests, s, n, [ReadError] + rest) == Aborted(ReadFailed, rest)
  {
    assert ([ReadError] + rest)[1..] == rest;
  }

  /** On a closed channel the first read fails and nothing is consumed. */
  lemma ClosedChannelAborts(ch: Channel, recordTime: bool, now: Timestamp, maxRequests: nat, reports: seq<Report>)
    requires ch.Valid() && !ch.open && maxRequests > 0
    ensures ReadDataInner(ch, recordTime, now, maxRequests, reports) == (Err(DeviceNotOpened), reports)
  {
  }

  /** A report read as a CO2 value followed by one read as a temperature
      gives a reading after exactly two requests, when the budget allows a
      third. */
  lemma TwoFramesSuffice(ch: Channel, recordTime: bool, now: Timestamp, maxRequests: nat,
                         a: Report, b: Report, co2: u32, temp: u16, rest: seq<Report>)
    requires ch.Valid() && ch.open && maxRequests >= 3
    requires Decodes(ch, a, (Some(co2), None)) && Decodes(ch, b, (None, Some(temp)))
    ensures Run(ch, maxRequests, Slots(None, None), 0, [a, b] + rest) == Finished(Slots(Some(co2), Some(temp)), 2, rest)
    ensures ReadDataInner(ch, recordTime, now, maxRequests, [a, b] + rest)
         == (Ok(Reading(if recordTime then Some(now) else None, co2, temp)), rest)
  {
    var reports := [a, b] + rest;
    assert reports[0] == a && reports[1..][0] == b && reports[1..][1..] == rest;
    RunDecoded(ch, maxRequests, Slots(None, None), 0, reports, (Some(co2), None));
    RunDecoded(ch, maxRequests, Slots(Some(co2), None), 1, reports[1..], (None, Some(temp)));
  }

  /** The budget overshoot: with `max_requests = 2`, a CO2 frame and a
      temperature frame fill both slots exactly as the budget is spent, so
      the guard `false ^ true` keeps the loop reading; the next rejected
      frame empties the CO2 slot and the reading fails after three
      requests. */
  lemma BudgetOvershoot(ch: Channel, recordTime: bool, now: Timestamp,
                        a: Report, b: Report, noise: Report, co2: u32, temp: u16,
                        rest: seq<Report>)
    requires ch.Valid() && ch.open
    requires Decodes(ch, a, (Some(co2), None)) && Decodes(ch, b, (None, Some(temp))) && Noise(ch, noise)
    ensures Run(ch, 2, Slots(None, None), 0, [a, b, noise] + rest) == Finished(Slots(None, Some(temp)), 3, rest)
    ensures ReadDataInner(ch, recordTime, now, 2, [a, b, noise] + rest) == (Err(MissingCO2), rest)
  {
    var reports := [a, b, noise] + rest;
    assert reports[0] == a && reports[1..][0] == b && reports[2..][0] == noise;
    assert reports[1..][1..] == reports[2..] && reports[2..][1..] == rest;
    RunDecoded(ch, 2, Slots(None, None), 0, reports, (Some(co2), None));
    RunDecoded(ch, 2, Slots(Some(co2), None), 1, reports[1..], (None, Some(temp)));
    RunDecoded(ch, 2, Slots(Some(co2), Some(temp)), 2, reports[2..], (None, None));
  }
}
