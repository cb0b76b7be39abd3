/**
 * `CO2Monitor`: the connection to one sensor. The object remembers which
 * HID device it found, whether deciphering is bypassed, the magic table it
 * sends when it opens the device, and whether a device handle is currently
 * open. Its methods open and close the handle and run the polling loop;
 * each one is proved to compute what the functions of `Acquisition` and
 * `Cipher` specify.
 *
 * The HID library is not modelled: the device list, the outcome of opening
 * the device and of sending the feature report, and the stream of reports
 * the device delivers are parameters.
 */
module Monitor {

  import opened Wrappers
  import opened Bytes
  import opened Cipher
  import opened Frame
  import opened Acquisition

  /** USB vendor and product id of the sensor. */
  const VendorId: u16 := 0x04d9
  const ProductId: u16 := 0xa052

  /** The parts of a HID device description the monitor looks at. */
  datatype DeviceInfo = DeviceInfo(vendorId: u16, productId: u16, path: string)

  /** An open HID handle, on the device it was opened from. */
  datatype HidDevice = HidDevice(info: DeviceInfo)

  /** A device is the one asked for when it has the sensor's ids and, if an
      interface path was given, that path. */
  predicate Wanted(d: DeviceInfo, interfacePath: Option<string>)
  {
    d.vendorId == VendorId && d.productId == ProductId &&
    (interfacePath.None? || d.path == interfacePath.value)
  }

  /** `find_device`: the first wanted device of the list, if there is one. */
  method FindDevice(devices: seq<DeviceInfo>, interfacePath: Option<string>) returns (r: Option<DeviceInfo>)
    ensures r.None? <==> forall k :: 0 <= k < |devices| ==> !Wanted(devices[k], interfacePath)
    ensures r.Some? ==>
      exists k :: 0 <= k < |devices| && devices[k] == r.value && Wanted(r.value, interfacePath) &&
        forall j :: 0 <= j < k ==> !Wanted(devices[j], interfacePath)
  {
    for i := 0 to |devices|
      invariant forall j :: 0 <= j < i ==> !Wanted(devices[j], interfacePath)
    {
      var device := devices[i];
      if device.vendorId == VendorId && device.productId == ProductId {
        if interfacePath.Some? && device.path != interfacePath.value {
          continue;
        }
        return Some(device);
      }
    }
    return None;
  }

  class CO2Monitor {
    const bypassDecrypt: bool
    const deviceInfo: DeviceInfo
    var device: Option<HidDevice>
    const magicTable: seq<byte>

    /** The magic table is eight bytes, as its Rust type `[u8; 8]` says. */
    predicate Valid()
    {
      |magicTable| == 8
    }

    /** What the specification functions need to know of the connection. */
    function Link(): (ch: Channel)
      reads this
      ensures ch.open <==> device.Some?
    {
      Channel(device.Some?, bypassDecrypt, magicTable)
    }

    /** The object `new` builds: nothing open yet, and a zero magic table. */
    constructor (bypassDecrypt: bool, deviceInfo: DeviceInfo)
      ensures this.bypassDecrypt == bypassDecrypt && this.deviceInfo == deviceInfo
      ensures device.None? && magicTable == ZeroTable && Valid()
    {
      this.bypassDecrypt := bypassDecrypt;
      this.deviceInfo := deviceInfo;
      device := None;
      magicTable := ZeroTable;
    }

    /** `hid_open`: opens a handle on the device and, if asked, sends the
        magic table as a feature report. `openOk` and `sendOk` are the
        outcomes the HID library reports; `sent` is the feature report
        written, if any. A failed send leaves the handle open. */
    method HidOpen(sendMagicTables: bool, openOk: bool, sendOk: bool)
      returns (r: Result<(), Error>, sent: Option<seq<byte>>)
      requires device.None?
      modifies this
      ensures !openOk ==> r == Err(OpenFailed) && sent.None? && device.None?
      ensures openOk ==> device == Some(HidDevice(deviceInfo))
      ensures openOk ==> sent == (if sendMagicTables then Some(magicTable) else None)
      ensures openOk ==> r == (if sendMagicTables && !sendOk then Err(FeatureReportFailed) else Ok(()))
    {
      sent := None;
      if !openOk {
        return Err(OpenFailed), sent;
      }
      device := Some(HidDevice(deviceInfo));
      if sendMagicTables {
        sent := Some(magicTable);
        if !sendOk {
          return Err(FeatureReportFailed), sent;
        }
      }
      r := Ok(());
    }

    /** `hid_close`: drops the open handle. */
    method HidClose() returns (r: Result<(), Error>)
      requires device.Some?
      modifies this
      ensures r.Ok? && device.None?
    {
      device := None;
      r := Ok(());
    }

    /** `decrypt`: reorder, pack, XOR with the magic table, rotate right by
        three, split, and subtract the magic word byte by byte. */
    method Decrypt(data: seq<byte>) returns (out: seq<byte>)
      requires Valid() && |data| == 8
      ensures out == Decipher(bypassDecrypt, magicTable, data)
    {
      if bypassDecrypt {
        return data;
      }
      var rearranged := [data[2], data[4], data[0], data[7], data[1], data[6], data[5], data[3]];
      assert rearranged == Permute(data);
      var message := ListToU64(rearranged);
      var result := message ^ ListToU64(magicTable);
      result := (result >> 3) | (result << 61);
      assert result == Rotr3(ListToU64(Permute(data)) ^ ListToU64(magicTable));
      var resultList := U64ToList(result);
      var magicWord := GetMagicWord();
      out := SubtractEach(resultList, magicWord);
      assert magicWord == MagicWord();
    }

    /** The closing `map` of `decrypt`: a running index walks the magic word
        while each byte has the word's byte at that index subtracted,
        wrapping. */
    static method SubtractEach(s: seq<byte>, key: seq<byte>) returns (out: seq<byte>)
      requires |s| == 8 && |key| == 8
      ensures out == SubKey(s, key)
    {
      out := [];
      var i := 0;
      while i < 8
        invariant 0 <= i <= 8 && |out| == i
        invariant forall k :: 0 <= k < i ==> out[k] == s[k] - key[k]
      {
        out := out + [s[i] - key[i]];
        i := i + 1;
      }
    }

    /** `hid_read`: reads one report into a zeroed eight-byte buffer and
        deciphers it. */
    method HidRead(reports: seq<Report>) returns (r: Result<seq<byte>, Error>, rest: seq<Report>)
      requires Valid()
      ensures (r, rest) == Acquisition.HidRead(Link(), reports)
    {
      if device.None? {
        return Err(DeviceNotOpened), reports;
      }
      if reports == [] {
        return Err(ReadFailed), [];
      }
      match reports[0]
      case ReadError =>
        return Err(ReadFailed), reports[1..];
      case Received(bytes) =>
        var data := ReadBuffer(bytes);
        var frame := Decrypt(data);
        return Ok(frame), reports[1..];
    }

    /** `read_data_inner`: polls until both slots are filled or the budget
        is spent (the XOR guard), then builds the reading. `now` is the
        clock's value when the reading is built. */
    method ReadDataInner(recordTime: bool, now: Timestamp, maxRequests: nat, reports: seq<Report>)
      returns (r: Result<Reading, Error>, rest: seq<Report>)
      requires Valid()
      ensures (r, rest) == Acquisition.ReadDataInner(Link(), recordTime, now, maxRequests, reports)
    {
      var co2: Option<u32> := None;
      var temp: Option<u16> := None;
      var requestNum: nat := 0;
      rest := reports;
      while (requestNum < maxRequests) != (co2.Some? && temp.Some?)
        invariant Run(Link(), maxRequests, Slots(co2, temp), requestNum, rest)
               == Run(Link(), maxRequests, Slots(None, None), 0, reports)
        decreases |rest|
      {
        var data;
        data, rest := HidRead(rest);
        if data.Err? {
          return Err(data.error), rest;
        }
        var message := DecodeMessage(data.value);
        match message {
          case (co2Val, None) => co2 := co2Val;
          case (None, tempVal) => temp := tempVal;
          case _ =>
        }
        requestNum := requestNum + 1;
      }
      var time := if recordTime then Some(now) else None;
      if co2.None? {
        return Err(MissingCO2), rest;
      }
      if temp.None? {
        return Err(MissingTemperature), rest;
      }
      r := Ok(Reading(time, co2.value, temp.value));
    }

    /** `read_data`: open the device sending the magic table, poll, close.
        The handle is closed again whether or not polling succeeded; only a
        failed feature report leaves it open. */
    method ReadData(recordTime: bool, now: Timestamp, maxRequests: nat, openOk: bool, sendOk: bool,
                    reports: seq<Report>)
      returns (r: Result<Reading, Error>, rest: seq<Report>)
      requires Valid() && device.None?
      modifies this
      ensures !openOk ==> r == Err(OpenFailed) && rest == reports && device.None?
      ensures openOk && !sendOk ==> r == Err(FeatureReportFailed) && rest == reports && device.Some?
      ensures openOk && sendOk ==> device.None?
      ensures openOk && sendOk ==>
        (r, rest) == Acquisition.ReadDataInner(Channel(true, bypassDecrypt, magicTable),
                                               recordTime, now, maxRequests, reports)
    {
      var status, sent := HidOpen(true, openOk, sendOk);
      if status.Err? {
        return Err(status.error), reports;
      }
      r, rest := ReadDataInner(recordTime, now, maxRequests, reports);
      var closed := HidClose();
    }
  }

  /** `CO2Monitor::new`: starts the HID library (`hidApiOk` is whether that
      succeeded), picks the first wanted device of `devices`, and builds a
      monitor on it with nothing open and a zero magic table. */
  method New(bypassDecrypt: bool, interfacePath: Option<string>, hidApiOk: bool, devices: seq<DeviceInfo>)
    returns (r: Result<CO2Monitor, Error>)
    ensures !hidApiOk ==> r == Err(HidApiUnavailable)
    ensures hidApiOk && (forall k :: 0 <= k < |devices| ==> !Wanted(devices[k], interfacePath))
            ==> r == Err(DeviceNotFound)
    ensures r.Ok? ==> fresh(r.value) && r.value.Valid() && r.value.device.None?
    ensures r.Ok? ==> r.value.magicTable == ZeroTable && r.value.bypassDecrypt == bypassDecrypt
    ensures r.Ok? ==>
      exists k :: 0 <= k < |devices| && devices[k] == r.value.deviceInfo && Wanted(devices[k], interfacePath) &&
        forall j :: 0 <= j < k ==> !Wanted(devices[j], interfacePath)
    ensures hidApiOk && (exists k :: 0 <= k < |devices| && Wanted(devices[k], interfacePath)) ==> r.Ok?
  {
    if !hidApiOk {
      return Err(HidApiUnavailable);
    }
    var info := FindDevice(devices, interfacePath);
    if info.None? {
      return Err(DeviceNotFound);
    }
    var m := new CO2Monitor(bypassDecrypt, info.value);
    r := Ok(m);
  }

  /** `CO2Monitor::default`: `new` without bypass and without a path. */
  method Default(hidApiOk: bool, devices: seq<DeviceInfo>) returns (r: Result<CO2Monitor, Error>)
    ensures !hidApiOk ==> r == Err(HidApiUnavailable)
    ensures hidApiOk && (forall k :: 0 <= k < |devices| ==> !Wanted(devices[k], None))
            ==> r == Err(DeviceNotFound)
    ensures r.Ok? ==> fresh(r.value) && r.value.Valid() && r.value.device.None? && !r.value.bypassDecrypt
    ensures r.Ok? ==> r.value.magicTable == ZeroTable
    ensures r.Ok? ==> r.value.deviceInfo.vendorId == VendorId && r.value.deviceInfo.productId == ProductId
    ensures r.Ok? ==>
      exists k :: 0 <= k < |devices| && devices[k] == r.value.deviceInfo &&
        forall j :: 0 <= j < k ==> !Wanted(devices[j], None)
    ensures hidApiOk && (exists k :: 0 <= k < |devices| && Wanted(devices[k], None)) ==> r.Ok?
  {
    r := New(false, None, hidApiOk, devices);
  }
}
