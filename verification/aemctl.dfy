/** The user-mode control library: it finds the device, caches its Info
 *  snapshot, validates the caller's arguments and sends each request as a
 *  feature report through HidD_GetFeature, mapping the echoed control code
 *  to an AEMCTLRESULT. The transport is the driver's own GetFeature, so the
 *  entry points' contracts are stated end to end on the device's ring and
 *  interval. */
module AemCtl {
  import opened Types
  import opened Common
  import opened AemConfig
  import opened ControlSpec
  import opened Aem

  datatype AemCtlResult = Ok | InitFailed | InvalidParameter | QueueFull | CommunicationFailed

  /** The numeric values of AEMCTLRESULT. */
  function ResultCode(r: AemCtlResult): (n: nat)
    ensures n <= 4 && (n == 0 <==> r == Ok)
  {
    match r
    case Ok => 0
    case InitFailed => 1
    case InvalidParameter => 2
    case QueueFull => 3
    case CommunicationFailed => 4
  }

  lemma ResultCodesDistinct(a: AemCtlResult, b: AemCtlResult)
    ensures ResultCode(a) == ResultCode(b) <==> a == b
  {
  }

  // ---------------------------------------------------------------------
  // Error reporting

  const DEVICE_NOT_FOUND := "Arx Ethereal Mouse Device was not found or could not be opened."
  const OUT_OF_BOUNDS_ABSOLUTE := "Coordinates do not lie in [1, 32767] segment."
  const OUT_OF_BOUNDS_RELATIVE := "Coordinates do not lie in [-127, 127] segment."
  const NULL_PASSED := "NULL value passed where non-NULL value was expected."
  const INTERVAL_TOO_SMALL := "Given message check interval is too small."
  const QUEUE_FULL_TEXT := "Message queue is full."

  /** Where LastErrorMessage points: the formatted buffer or one of the
   *  static messages. */
  datatype MessageRef =
    | BufferRef
    | DeviceNotFoundRef
    | OutOfBoundsAbsoluteRef
    | OutOfBoundsRelativeRef
    | NullPassedRef
    | IntervalTooSmallRef
    | QueueFullRef

  datatype ErrorState = ErrorState(current: MessageRef, buffer: string)

  function StaticText(m: MessageRef): string {
    match m
    case BufferRef => ""
    case DeviceNotFoundRef => DEVICE_NOT_FOUND
    case OutOfBoundsAbsoluteRef => OUT_OF_BOUNDS_ABSOLUTE
    case OutOfBoundsRelativeRef => OUT_OF_BOUNDS_RELATIVE
    case NullPassedRef => NULL_PASSED
    case IntervalTooSmallRef => INTERVAL_TOO_SMALL
    case QueueFullRef => QUEUE_FULL_TEXT
  }

  /** AemGetLastErrorString. */
  function LastErrorString(e: ErrorState): string {
    if e.current == BufferRef then e.buffer else StaticText(e.current)
  }

  const HEX_DIGITS := "0123456789abcdef"

  /** `%x`: lower-case hexadecimal without leading zeros. */
  function Hex(n: nat): (r: string)
    ensures |r| >= 1
    ensures forall i :: 0 <= i < |r| ==> r[i] in HEX_DIGITS
    ensures n > 0 ==> r[0] != '0'
    decreases n
  {
    if n < 16 then [HEX_DIGITS[n]] else Hex(n / 16) + [HEX_DIGITS[n % 16]]
  }

  function DigitValue(c: char): nat {
    if '0' <= c <= '9' then c as int - '0' as int
    else if 'a' <= c <= 'f' then c as int - 'a' as int + 10
    else 0
  }

  /** Reads a hexadecimal numeral back. */
  function ParseHex(s: string): nat {
    if s == [] then 0 else 16 * ParseHex(s[..|s| - 1]) + DigitValue(s[|s| - 1])
  }

  lemma DigitValueInverts(d: nat)
    requires d < 16
    ensures DigitValue(HEX_DIGITS[d]) == d
  {
  }

  /** The numeral names the number it was made from. */
  lemma {:induction false} HexRoundTrip(n: nat)
    ensures ParseHex(Hex(n)) == n
    decreases n
  {
    if n < 16 {
      DigitValueInverts(n);
      assert Hex(n)[..0] == [];
    } else {
      HexRoundTrip(n / 16);
      DigitValueInverts(n % 16);
      var s := Hex(n);
      assert s[..|s| - 1] == Hex(n / 16);
    }
  }

  /** A DWORD needs at most eight hex digits. */
  lemma {:induction false} HexLength(n: nat, k: nat)
    requires 0 < k && n < Pow16(k)
    ensures |Hex(n)| <= k
    decreases k
  {
    if n >= 16 {
      assert k > 1;
      HexLength(n / 16, k - 1);
    }
  }

  function Pow16(k: nat): nat {
    if k == 0 then 1 else 16 * Pow16(k - 1)
  }

  lemma Uint32HexFits(code: uint32)
    ensures |Hex(code)| <= 8
  {
    assert Pow16(8) == 0x1_0000_0000;
    HexLength(code, 8);
  }

  /** What WinApiCallFailed writes into the message buffer. */
  function FormatApiFailure(functionName: string, code: uint32): (r: string)
    ensures |r| <= |functionName| + 34
  {
    Uint32HexFits(code);
    functionName + " failed with error code 0x" + Hex(code)
  }

  /** WinApiCallFailed as written: it formats the buffer but leaves
   *  LastErrorMessage wherever it pointed. */
  function AsWrittenApiCallFailed(e: ErrorState, functionName: string, code: uint32): (r: ErrorState)
    ensures r.current == e.current
    ensures LastErrorString(r) == (if e.current == BufferRef then FormatApiFailure(functionName, code)
                                   else LastErrorString(e))
  {
    e.(buffer := FormatApiFailure(functionName, code))
  }

  /** WinApiCallFailed as intended: the formatted buffer becomes the last
   *  error message. */
  function ApiCallFailed(e: ErrorState, functionName: string, code: uint32): (r: ErrorState)
    ensures LastErrorString(r) == FormatApiFailure(functionName, code)
  {
    ErrorState(BufferRef, FormatApiFailure(functionName, code))
  }

  /** The static messages end with a full stop; a formatted failure ends
   *  with a hex digit, so they can never be confused. */
  lemma FailureTextIsNotStatic(functionName: string, code: uint32, m: MessageRef)
    requires m != BufferRef
    ensures FormatApiFailure(functionName, code) != StaticText(m)
  {
    var f := FormatApiFailure(functionName, code);
    var h := Hex(code);
    assert f[|f| - 1] == h[|h| - 1];
    assert h[|h| - 1] in HEX_DIGITS;
    var t := StaticText(m);
    assert t[|t| - 1] == '.';
  }

  /** As written, a failed API call is reported only when no static
   *  message was reported since start-up. */
  lemma AsWrittenReportsFailureOnlyFromBuffer(e: ErrorState, functionName: string, code: uint32)
    ensures LastErrorString(AsWrittenApiCallFailed(e, functionName, code)) == FormatApiFailure(functionName, code)
            <==> e.current == BufferRef
  {
    if e.current != BufferRef {
      FailureTextIsNotStatic(functionName, code, e.current);
    }
  }

  /** The concrete case: a rejected relative move followed by a transport
   *  failure still reports the coordinate error. */
  lemma AsWrittenReportsStaleMessage()
    ensures var e := AsWrittenApiCallFailed(ErrorState(OutOfBoundsRelativeRef, ""), "HidD_GetFeature", 0x1F);
            LastErrorString(e) == OUT_OF_BOUNDS_RELATIVE
            && LastErrorString(e) != FormatApiFailure("HidD_GetFeature", 0x1F)
  {
    FailureTextIsNotStatic("HidD_GetFeature", 0x1F, OutOfBoundsRelativeRef);
  }

  // ---------------------------------------------------------------------
  // Argument checks

  /** `Flags & AEM_FLAG_RELATIVE`. */
  function RelativeBit(flags: byte): (b: int32)
    ensures b == 0 || b == 1
  {
    ((flags as bv8) & (FLAG_RELATIVE as bv8)) as int
  }

  lemma RelativeBitOfInfo(relative: bool)
    ensures RelativeBit(InfoFor(relative).flags) == (if relative then 1 else 0)
    ensures RelativeBit(InfoFor(RELATIVE_MOTION_BUILD).flags) == 1
  {
  }

  /** The coordinate check of AemSendMessage: [-127, 127] for a relative
   *  device, [1, 32767] for an absolute one. */
  predicate CoordinatesInRange(flags: byte, x: int, y: int) {
    if RelativeBit(flags) != 0 then -127 <= x <= 127 && -127 <= y <= 127
    else 1 <= x <= 32767 && 1 <= y <= 32767
  }

  /** Accepted coordinates reach the host unchanged: a relative device's
   *  input report carries each as one byte that reads back as the same
   *  signed value within the descriptor's [-127, 127]; an absolute device
   *  carries each as a SHORT within [-32768, 32767]. */
  lemma AcceptedCoordinatesReachHost(relative: bool, x: int, y: int, buttons: int8)
    requires CoordinatesInRange(InfoFor(relative).flags, x, y)
    ensures -0x8000 <= x < 0x8000 && -0x8000 <= y < 0x8000
    ensures var m := MoveReport(FeatureHeader(CONTROL_REPORT_ID, CODE_MOVE), ToByte(buttons), ShortPoint(x, y));
            var out := InputReport(relative, m);
            && out[1] == ToByte(buttons)
            && (relative ==> ToInt8(out[2]) == x && ToInt8(out[3]) == y)
            && (!relative ==> DecodeI16(out[2], out[3]) == x && DecodeI16(out[4], out[5]) == y)
  {
    RelativeBitOfInfo(relative);
    if relative {
      Int8RoundTrip(x);
      Int8RoundTrip(y);
    } else {
      I16RoundTrip(x, 0, 0);
      I16RoundTrip(y, 0, 0);
    }
  }

  /** A negative `int` interval is stored as a DWORD of at least 2^31, so
   *  the driver's floor accepts it, and reading the interval back gives
   *  the same negative `int`. */
  lemma NegativeIntervalPassesFloor(interval: int32)
    requires interval < 0
    ensures ToUint32(interval) >= 0x8000_0000 >= MINIMAL_MESSAGE_CHECK_INTERVAL
    ensures ToInt32(ToUint32(interval)) == interval
  {
    Int32RoundTrip(interval);
  }

  /** The outcome of HidD_GetFeature's transport: the request reached the
   *  device, or the call failed with GetLastError() = `lastError`. */
  datatype Link = Up | Down(lastError: uint32)

  /** Candidate k, which is `d`, is the first whose Info request goes through. */
  predicate FirstAnswering(candidates: seq<MouseDevice>, links: seq<Link>, k: int, d: MouseDevice?) {
    0 <= k < |candidates| == |links| && candidates[k] == d
    && links[k].Up? && forall j :: 0 <= j < k ==> links[j].Down?
  }

  /** The Info request StartDll sends to a candidate that opened: the
   *  driver answers with its capability snapshot and changes nothing. */
  method ProbeInfo(candidate: MouseDevice) returns (info: InfoReport)
    requires candidate.Valid()
    modifies candidate`queueStart, candidate`queueEnd, candidate`messageCheckInterval, candidate.messageQueue
    ensures candidate.Valid() && candidate.View() == old(candidate.View())
    ensures unchanged(candidate.messageQueue)
    ensures info == candidate.infoReport
  {
    var request := EncodeInfo(InfoReport(FeatureHeader(CONTROL_REPORT_ID, CODE_INFO), 0, 0));
    var buffer := new byte[INFO_REPORT_SIZE](j requires 0 <= j < INFO_REPORT_SIZE => request[j]);
    assert buffer[..] == request;
    var status := candidate.GetFeature(CONTROL_REPORT_ID, buffer);
    InfoAnswer(candidate.relativeMotion, old(candidate.View()), request);
    info := DecodeInfo(buffer[..]);
  }

  // ---------------------------------------------------------------------
  // The library's globals

  class ControlLibrary {
    /** ArxEtherealMouse; null is INVALID_HANDLE_VALUE. */
    var device: MouseDevice?
    /** The Info snapshot cached at start-up. */
    var flags: byte
    var queueCapacity: uint32
    var error: ErrorState

    predicate Valid()
      reads this, device
    {
      device != null ==>
        device.Valid() && flags == device.infoReport.flags && queueCapacity == device.infoReport.capacity
    }

    /** What a request to the open device may change. */
    function DeviceFrame(): set<object>
      reads this
    {
      if device == null then {} else {device, device.messageQueue}
    }

    /** The state at DLL load before any device is probed: no device, an
     *  empty buffer as the last error message. */
    constructor ()
      ensures Valid() && device == null
      ensures error == ErrorState(BufferRef, "")
    {
      device := null;
      flags := 0;
      queueCapacity := 0;
      error := ErrorState(BufferRef, "");
    }

    /** HidD_GetFeature on the open device: the request buffer's first byte
     *  is the report id; the call succeeds when the link is up and the
     *  driver completes with STATUS_SUCCESS, and then `reply` is the buffer
     *  as the driver left it. */
    method HidGetFeature(request: seq<byte>, link: Link) returns (ok: bool, reply: seq<byte>)
      requires Valid() && device != null && |request| >= 1
      modifies device`queueStart, device`queueEnd, device`messageCheckInterval, device.messageQueue
      ensures Valid()
      ensures device.Setup() == old(device.Setup())
      ensures link.Up? ==>
                var r := GetFeatureSpec(device.relativeMotion, old(device.View()), request[0], request);
                ok == (r.status == STATUS_SUCCESS) && reply == r.report && device.View() == r.view
      ensures link.Down? ==> !ok && unchanged(device, device.messageQueue)
    {
      if link.Down? {
        return false, request;
      }
      var buffer := new byte[|request|](i requires 0 <= i < |request| => request[i]);
      assert buffer[..] == request;
      var status := device.GetFeature(buffer[0], buffer);
      ok := status == STATUS_SUCCESS;
      reply := buffer[..];
    }

    /** AemSendMessage. */
    method AemSendMessage(x: int32, y: int32, buttons: int8, link: Link) returns (r: AemCtlResult)
      requires Valid()
      modifies this`error, DeviceFrame()
      ensures Valid()
      ensures device != null ==> device.Setup() == old(device.Setup())
      ensures device == null ==> r == InitFailed && error == old(error)
      ensures device != null && !CoordinatesInRange(flags, x, y) ==>
                && r == InvalidParameter
                && error == old(error).(current := if RelativeBit(flags) != 0 then OutOfBoundsRelativeRef else OutOfBoundsAbsoluteRef)
                && device.View() == old(device.View())
      ensures device != null && CoordinatesInRange(flags, x, y) && link.Down? ==>
                && r == CommunicationFailed
                && error == ApiCallFailed(old(error), "HidD_GetFeature", link.lastError)
                && device.View() == old(device.View())
      ensures device != null && CoordinatesInRange(flags, x, y) && link.Up? ==>
                && (r == Ok <==> |old(device.Messages())| < QUEUE_SIZE - 1)
                && (r == Ok ==> error == old(error))
                && (r == Ok || r == QueueFull)
                && device.messageCheckInterval == old(device.messageCheckInterval)
                && (r == Ok ==> device.Messages() == old(device.Messages())
                                  + [MoveReport(FeatureHeader(CONTROL_REPORT_ID, CODE_MOVE), ToByte(buttons), ShortPoint(x, y))])
                && (r == QueueFull ==> device.Messages() == old(device.Messages()) && error == old(error).(current := QueueFullRef))
    {
      if device == null {
        return InitFailed;
      }
      if RelativeBit(flags) != 0 {
        if x < -127 || x > 127 || y < -127 || y > 127 {
          error := error.(current := OutOfBoundsRelativeRef);
          return InvalidParameter;
        }
      } else if x < 1 || x > 32767 || y < 1 || y > 32767 {
        error := error.(current := OutOfBoundsAbsoluteRef);
        return InvalidParameter;
      }
      var move := MoveReport(FeatureHeader(CONTROL_REPORT_ID, CODE_MOVE), ToByte(buttons), ShortPoint(x, y));
      var request := EncodeMove(move);
      MoveRoundTrip(move, request);
      var ok, reply := HidGetFeature(request, link);
      if !ok {
        error := ApiCallFailed(error, "HidD_GetFeature", link.lastError);
        return CommunicationFailed;
      }
      if reply[1] == CODE_MOVE {
        r := Ok;
      } else {
        error := error.(current := QueueFullRef);
        r := QueueFull;
      }
    }

    /** AemGetLastErrorString. */
    function AemGetLastErrorString(): (s: string)
      reads this
      ensures s == error.buffer
              || s in {DEVICE_NOT_FOUND, OUT_OF_BOUNDS_ABSOLUTE, OUT_OF_BOUNDS_RELATIVE, NULL_PASSED,
                       INTERVAL_TOO_SMALL, QUEUE_FULL_TEXT}
    {
      LastErrorString(error)
    }

    /** AemGetDeviceInfo: the cached flags and capacity, written through two
     *  int pointers (null is NULL; the two may be the same pointer, in
     *  which case the capacity is what remains). */
    method AemGetDeviceInfo(isRelative: array?<int32>, capacity: array?<int32>) returns (r: AemCtlResult)
      requires Valid()
      requires isRelative != null ==> isRelative.Length >= 1
      requires capacity != null ==> capacity.Length >= 1
      modifies this`error, isRelative, capacity
      ensures Valid()
      ensures device == null ==> r == InitFailed && error == old(error)
                                  && (isRelative != null ==> isRelative[..] == old(isRelative[..]))
                                  && (capacity != null ==> capacity[..] == old(capacity[..]))
      ensures device != null && (isRelative == null || capacity == null) ==>
                && r == InvalidParameter && error == old(error).(current := NullPassedRef)
                && (isRelative != null ==> isRelative[..] == old(isRelative[..]))
                && (capacity != null ==> capacity[..] == old(capacity[..]))
      ensures device != null && isRelative != null && capacity != null ==>
                && r == Ok && error == old(error)
                && isRelative[1..] == old(isRelative[1..]) && capacity[1..] == old(capacity[1..])
                && capacity[0] == QUEUE_SIZE
                && (isRelative != capacity ==> isRelative[0] == (if device.relativeMotion then 1 else 0))
    {
      if device == null {
        return InitFailed;
      }
      if isRelative == null || capacity == null {
        error := error.(current := NullPassedRef);
        return InvalidParameter;
      }
      RelativeBitOfInfo(device.relativeMotion);
      isRelative[0] := RelativeBit(flags);
      capacity[0] := ToInt32(queueCapacity);
      r := Ok;
    }

    /** AemClearMessageQueue. */
    method AemClearMessageQueue(link: Link) returns (r: AemCtlResult)
      requires Valid()
      modifies this`error, DeviceFrame()
      ensures Valid()
      ensures device != null ==> device.Setup() == old(device.Setup())
      ensures device == null ==> r == InitFailed && error == old(error)
      ensures device != null && link.Down? ==>
                && r == CommunicationFailed
                && error == ApiCallFailed(old(error), "HidD_GetFeature", link.lastError)
                && device.View() == old(device.View())
      ensures device != null && link.Up? ==>
                r == Ok && device.View() == old(device.View()).(pending := []) && error == old(error)
    {
      if device == null {
        return InitFailed;
      }
      var ok, reply := HidGetFeature([CONTROL_REPORT_ID, CODE_CLEAR_QUEUE], link);
      if !ok {
        error := ApiCallFailed(error, "HidD_GetFeature", link.lastError);
        return CommunicationFailed;
      }
      r := Ok;
    }

    /** AemGetMessageQueueSize. The request's Value field is left as it
     *  was on the caller's stack; the driver overwrites it. */
    method AemGetMessageQueueSize(size: array?<int32>, stackValue: uint32, link: Link) returns (r: AemCtlResult)
      requires Valid()
      requires size != null ==> size.Length >= 1
      modifies this`error, DeviceFrame(), size
      ensures Valid()
      ensures device != null ==> device.Setup() == old(device.Setup())
      ensures device == null ==> r == InitFailed && error == old(error)
                                  && (size != null ==> size[..] == old(size[..]))
      ensures device != null && size == null ==>
                r == InvalidParameter && error == old(error).(current := NullPassedRef)
                && device.View() == old(device.View())
      ensures device != null && size != null && link.Down? ==>
                && r == CommunicationFailed
                && error == ApiCallFailed(old(error), "HidD_GetFeature", link.lastError)
                && size[..] == old(size[..])
                && device.View() == old(device.View())
      ensures device != null && size != null && link.Up? ==>
                && r == Ok && error == old(error)
                && size[1..] == old(size[1..])
                && size[0] == |old(device.Messages())|
                && device.View() == old(device.View())
    {
      if device == null {
        return InitFailed;
      }
      if size == null {
        error := error.(current := NullPassedRef);
        return InvalidParameter;
      }
      var request := EncodeDword(DwordReport(FeatureHeader(CONTROL_REPORT_ID, CODE_QUEUE_SIZE), stackValue));
      var ok, reply := HidGetFeature(request, link);
      if !ok {
        error := ApiCallFailed(error, "HidD_GetFeature", link.lastError);
        return CommunicationFailed;
      }
      size[0] := ToInt32(DecodeDword(reply).value);
      r := Ok;
    }

    /** AemGetMessageCheckInterval: sends Interval with Value = 0, which the
     *  driver answers with the current interval and refuses to install. */
    method AemGetMessageCheckInterval(interval: array?<int32>, link: Link) returns (r: AemCtlResult)
      requires Valid()
      requires interval != null ==> interval.Length >= 1
      modifies this`error, DeviceFrame(), interval
      ensures Valid()
      ensures device != null ==> device.Setup() == old(device.Setup())
      ensures device == null ==> r == InitFailed && error == old(error)
                                  && (interval != null ==> interval[..] == old(interval[..]))
      ensures device != null && interval == null ==>
                r == InvalidParameter && error == old(error).(current := NullPassedRef)
                && device.View() == old(device.View())
      ensures device != null && interval != null && link.Down? ==>
                && r == CommunicationFailed
                && error == ApiCallFailed(old(error), "HidD_GetFeature", link.lastError)
                && interval[..] == old(interval[..])
                && device.View() == old(device.View())
      ensures device != null && interval != null && link.Up? ==>
                && r == Ok && error == old(error)
                && interval[1..] == old(interval[1..])
                && interval[0] == ToInt32(old(device.messageCheckInterval))
                && device.View() == old(device.View())
    {
      if device == null {
        return InitFailed;
      }
      if interval == null {
        error := error.(current := NullPassedRef);
        return InvalidParameter;
      }
      var request := EncodeDword(DwordReport(FeatureHeader(CONTROL_REPORT_ID, CODE_INTERVAL), 0));
      DwordRoundTrip(DwordReport(FeatureHeader(CONTROL_REPORT_ID, CODE_INTERVAL), 0), request);
      var ok, reply := HidGetFeature(request, link);
      if !ok {
        error := ApiCallFailed(error, "HidD_GetFeature", link.lastError);
        return CommunicationFailed;
      }
      interval[0] := ToInt32(DecodeDword(reply).value);
      r := Ok;
    }

    /** AemSetMessageCheckInterval: the `int` is stored as a DWORD, so a
     *  negative interval reaches the driver as a large one. */
    method AemSetMessageCheckInterval(interval: int32, link: Link) returns (r: AemCtlResult)
      requires Valid()
      modifies this`error, DeviceFrame()
      ensures Valid()
      ensures device != null ==> device.Setup() == old(device.Setup())
      ensures device == null ==> r == InitFailed && error == old(error)
      ensures device != null && link.Down? ==>
                && r == CommunicationFailed
                && error == ApiCallFailed(old(error), "HidD_GetFeature", link.lastError)
                && device.View() == old(device.View())
      ensures device != null && link.Up? ==>
                && device.Messages() == old(device.Messages())
                && (r == Ok <==> ToUint32(interval) >= MINIMAL_MESSAGE_CHECK_INTERVAL)
                && (r == Ok ==> device.messageCheckInterval == ToUint32(interval) && error == old(error))
                && (r != Ok ==> r == InvalidParameter && error == old(error).(current := IntervalTooSmallRef)
                                && device.messageCheckInterval == old(device.messageCheckInterval))
    {
      if device == null {
        return InitFailed;
      }
      var request := EncodeDword(DwordReport(FeatureHeader(CONTROL_REPORT_ID, CODE_INTERVAL), ToUint32(interval)));
      DwordRoundTrip(DwordReport(FeatureHeader(CONTROL_REPORT_ID, CODE_INTERVAL), ToUint32(interval)), request);
      var ok, reply := HidGetFeature(request, link);
      if !ok {
        error := ApiCallFailed(error, "HidD_GetFeature", link.lastError);
        return CommunicationFailed;
      }
      if reply[1] == CODE_INTERVAL {
        r := Ok;
      } else {
        error := error.(current := IntervalTooSmallRef);
        r := InvalidParameter;
      }
    }

    /** The device search of StartDll over the HID interfaces that open and
     *  carry the control usage: each is asked for its Info report, and the
     *  first that answers becomes the device, with its flags and capacity
     *  cached. When none answers, the last error is DeviceNotFound. */
    method StartDll(candidates: seq<MouseDevice>, links: seq<Link>)
      requires Valid() && device == null
      requires |links| == |candidates|
      requires forall k :: 0 <= k < |candidates| ==> candidates[k].Valid()
      modifies this`device, this`flags, this`queueCapacity, this`error
      modifies set k | 0 <= k < |candidates| :: candidates[k]
      modifies set k | 0 <= k < |candidates| :: candidates[k].messageQueue
      ensures Valid()
      ensures forall k :: 0 <= k < |candidates| ==> candidates[k].Valid()
      ensures forall k :: 0 <= k < |candidates| ==>
                candidates[k].View() == old(candidates[k].View()) && candidates[k].Setup() == old(candidates[k].Setup())
      ensures device == null <==> forall k :: 0 <= k < |links| ==> links[k].Down?
      ensures device == null ==> error == old(error).(current := DeviceNotFoundRef)
      ensures device != null ==> error == old(error)
      ensures device != null ==> exists k :: FirstAnswering(candidates, links, k, device)
    {
      var i := 0;
      while i < |candidates|
        invariant 0 <= i <= |candidates|
        invariant Valid()
        invariant error == old(error)
        invariant forall k :: 0 <= k < |candidates| ==> candidates[k].Valid()
        invariant forall k :: 0 <= k < |candidates| ==>
                    candidates[k].View() == old(candidates[k].View()) && candidates[k].Setup() == old(candidates[k].Setup())
        invariant device == null ==> forall j :: 0 <= j < i ==> links[j].Down?
        invariant device != null ==> exists k :: FirstAnswering(candidates, links, k, device)
        decreases |candidates| - i
      {
        var candidate := candidates[i];
        if links[i].Up? {
          var info := ProbeInfo(candidate);
          device := candidate;
          flags := info.flags;
          queueCapacity := info.capacity;
          assert FirstAnswering(candidates, links, i, candidate);
          break;
        }
        i := i + 1;
      }
      if device == null {
        error := error.(current := DeviceNotFoundRef);
      }
    }
  }
}
