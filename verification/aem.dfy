/** The HID minidriver's device extension and its dispatch routines: the
 *  Plug and Play state record, the move-report ring filled by GetFeature
 *  and drained by the read timer, and the descriptor and attribute copies
 *  answered to the HID class driver. Each routine is proved against the
 *  reference semantics of module ControlSpec or against the byte layout it
 *  writes. */
module Aem {
  import opened Types
  import opened Common
  import opened AemConfig
  import opened ControlSpec
  import Ring

  // ---------------------------------------------------------------------
  // Descriptors

  const HID_HID_DESCRIPTOR_TYPE: byte := 0x21
  const HID_REPORT_DESCRIPTOR_TYPE: byte := 0x22
  const CONTROL_USAGE: byte := 0x07

  /** The report descriptor: a mouse collection (report id 1: three buttons,
   *  five padding bits, then X and Y as relative bytes or absolute SHORTs)
   *  and the vendor control collection (report id 2: a one-byte feature and
   *  a dummy input of InputReportSize bytes). */
  function ReportDescriptor(relative: bool): seq<byte> {
    PointerItems() + MotionItems(relative) + ControlItems(relative)
  }

  /** The mouse collection up to the X and Y usages: report id 1, three
   *  one-bit buttons and five bits of padding. */
  function PointerItems(): seq<byte> {
    [0x05, 0x01, 0x09, 0x02, 0xA1, 0x01, 0x85, POINTER_REPORT_ID, 0x09, 0x01, 0xA1, 0x00,
     0x05, 0x09, 0x19, 0x01, 0x29, 0x03, 0x15, 0x00, 0x25, 0x01, 0x95, 0x03, 0x75, 0x01, 0x81, 0x02,
     0x95, 0x01, 0x75, 0x05, 0x81, 0x03, 0x05, 0x01, 0x09, 0x30, 0x09, 0x31]
  }

  /** X and Y: two relative bytes in [-127, 127], or two absolute SHORTs
   *  in [-32768, 32767]. */
  function MotionItems(relative: bool): seq<byte> {
    if relative then [0x15, 0x81, 0x25, 0x7F, 0x75, 0x08, 0x95, 0x02, 0x81, 0x06]
    else [0x16, 0x00, 0x80, 0x26, 0xFF, 0x7F, 0x75, 0x10, 0x95, 0x02, 0x81, 0x02]
  }

  /** The end of the mouse collection, then the vendor control collection:
   *  report id 2, a one-byte feature and the dummy input. */
  function ControlItems(relative: bool): seq<byte> {
    [0xC0, 0xC0,
     0x06, 0x00, 0xFF, 0x09, CONTROL_USAGE, 0xA1, 0x01, 0x85, CONTROL_REPORT_ID, 0x09, CONTROL_USAGE,
     0x15, 0x00, 0x26, 0xFF, 0x00, 0x75, 0x08, 0x95, 0x01, 0xB1, 0x00,
     0x09, CONTROL_USAGE, 0x75, 0x08, 0x95, InputReportSize(relative), 0x81, 0x02, 0xC0]
  }

  /** The HID descriptor: bLength, bDescriptorType, bcdHID 1.00, no country,
   *  one class descriptor (the report descriptor, with its length). */
  function HidDescriptor(relative: bool): seq<byte> {
    [HID_DESCRIPTOR_SIZE, HID_HID_DESCRIPTOR_TYPE, 0x00, 0x01, 0x00, 0x01, HID_REPORT_DESCRIPTOR_TYPE]
    + EncodeU16(|ReportDescriptor(relative)|)
  }

  /** `DescriptorList[0].wReportLength` of a stored HID descriptor. */
  function ReportLength(hid: seq<byte>): nat
    requires |hid| == HID_DESCRIPTOR_SIZE
  {
    DecodeU16(hid[REPORT_LENGTH_OFFSET], hid[REPORT_LENGTH_OFFSET + 1])
  }

  /** The built-in HID descriptor announces exactly the built-in report
   *  descriptor, and the control collection's dummy input has the size of
   *  the input reports the read timer produces. */
  lemma DescriptorsAgree(relative: bool)
    ensures |HidDescriptor(relative)| == HID_DESCRIPTOR_SIZE
    ensures HidDescriptor(relative)[0] == HID_DESCRIPTOR_SIZE
    ensures ReportLength(HidDescriptor(relative)) == |ReportDescriptor(relative)|
    ensures |ReportDescriptor(relative)| == (if relative then 83 else 85)
    ensures var d := ReportDescriptor(relative); d[|d| - 4] == InputReportSize(relative)
  {
    U16RoundTrip(|ReportDescriptor(relative)|, 0, 0);
  }

  /** HID_DEVICE_ATTRIBUTES as written: Size, VendorID, ProductID and
   *  VersionNumber; the reserved tail is left as it was. */
  function AttributesPrefix(): (r: seq<byte>)
    ensures |r| == 10
  {
    EncodeU32(HID_DEVICE_ATTRIBUTES_SIZE) + EncodeU16(VENDOR_ID) + EncodeU16(PRODUCT_ID) + EncodeU16(VERSION)
  }

  function Min(a: nat, b: nat): nat {
    if a <= b then a else b
  }

  /** Copies `src` into `dst` at offset `at`, leaving the other bytes alone. */
  method CopyInto(dst: array<byte>, src: seq<byte>, at: nat)
    requires at + |src| <= dst.Length
    modifies dst
    ensures dst[..] == old(dst[..])[..at] + src + old(dst[..])[at + |src|..]
  {
    forall i | at <= i < at + |src| {
      dst[i] := src[i - at];
    }
    assert dst[..] == old(dst[..])[..at] + src + old(dst[..])[at + |src|..];
  }

  // ---------------------------------------------------------------------
  // Plug and Play

  /** The PnP minor functions the driver tracks; everything else is passed
   *  down untouched. */
  datatype PnpMinor =
    | StartDevice
    | StopDevice
    | CancelStopDevice
    | QueryStopDevice
    | QueryRemoveDevice
    | CancelRemoveDevice
    | SurpriseRemoval
    | RemoveDevice
    | OtherMinor(code: byte)

  /** The state record after one PnP IRP; `lowerStatus` is what the lower
   *  driver answered (only START waits for it). */
  function PnpAfter(r: PnpRecord, minor: PnpMinor, lowerStatus: NtStatus): (r': PnpRecord)
    ensures r' == r || r' == RestorePreviousPnpState(r) || r' == SetNewPnpState(r, r'.current)
    ensures r'.current == Deleted ==> minor.RemoveDevice? || r.current == Deleted || r.previous == Deleted
  {
    match minor
    case StartDevice => if NtSuccess(lowerStatus) then SetNewPnpState(r, Started) else r
    case StopDevice => SetNewPnpState(r, Stopped)
    case CancelStopDevice => RestorePreviousPnpState(r)
    case QueryStopDevice => SetNewPnpState(r, StopPending)
    case QueryRemoveDevice => SetNewPnpState(r, RemovePending)
    case CancelRemoveDevice => RestorePreviousPnpState(r)
    case SurpriseRemoval => SetNewPnpState(r, SurpriseRemovePending)
    case RemoveDevice => SetNewPnpState(r, Deleted)
    case OtherMinor(_) => r
  }

  /** A query followed by its cancel puts the device back where it was. */
  lemma QueryThenCancelRestores(r: PnpRecord, lowerStatus: NtStatus)
    ensures PnpAfter(PnpAfter(r, QueryStopDevice, lowerStatus), CancelStopDevice, lowerStatus).current == r.current
    ensures PnpAfter(PnpAfter(r, QueryRemoveDevice, lowerStatus), CancelRemoveDevice, lowerStatus).current == r.current
  {
    SetThenRestore(r, StopPending);
    SetThenRestore(r, RemovePending);
  }

  /** The transitions are not gated on the current state: every minor other
   *  than the two cancels reaches the same state from anywhere, Deleted
   *  included, and a START the lower driver fails changes nothing. */
  lemma TransitionsUngated(r: PnpRecord, r': PnpRecord, minor: PnpMinor, lowerStatus: NtStatus)
    requires !minor.CancelStopDevice? && !minor.CancelRemoveDevice? && !minor.OtherMinor?
    requires !minor.StartDevice? || NtSuccess(lowerStatus)
    ensures PnpAfter(r, minor, lowerStatus).current == PnpAfter(r', minor, lowerStatus).current
    ensures PnpAfter(r, minor, lowerStatus).previous == r.current
    ensures NtSuccess(lowerStatus) ==> PnpAfter(r, StartDevice, lowerStatus).current == Started
    ensures !NtSuccess(lowerStatus) ==> PnpAfter(r, StartDevice, lowerStatus) == r
  {
  }

  // ---------------------------------------------------------------------
  // Timer

  /** The read timer's delay in 100 ns ticks: the poll interval is in
   *  microseconds, so ten ticks per unit. */
  function ReadDelayTicks(interval: uint32): (d: nat)
    ensures d % 10 == 0 && d / 10 == interval
  {
    10 * interval
  }

  /** The delay the driver actually arms: `10 * interval` computed in 32
   *  bits, negated as a LONG into LowPart, with HighPart = -1; the timer
   *  waits for minus that 64-bit relative due time. */
  function AsWrittenDelayTicks(interval: uint32): (d: nat)
    ensures 0 < d <= 0x1_0000_0000
  {
    var product := ToUint32(10 * interval);
    var lowPart := ToUint32(-(ToInt32(product) as int));
    var dueTime := -0x1_0000_0000 + lowPart;
    -dueTime
  }

  /** Below the wrap the armed delay is the intended one. */
  lemma AsWrittenAgreesBelowWrap(interval: uint32)
    requires 0 < 10 * interval < 0x1_0000_0000
    ensures AsWrittenDelayTicks(interval) == ReadDelayTicks(interval)
  {
  }

  /** An interval the floor accepts makes the driver arm a 0.4 microsecond
   *  timer instead of a 7 minute one. */
  lemma AsWrittenDelayWraps()
    ensures 429496730 >= MINIMAL_MESSAGE_CHECK_INTERVAL
    ensures ReadDelayTicks(429496730) == 0x1_0000_0000 + 4
    ensures AsWrittenDelayTicks(429496730) == 4
  {
  }

  /** With the floor in force every read waits at least 5 ms, and a longer
   *  interval never gives a shorter wait. */
  lemma ReadDelayRespectsFloor(interval: uint32, other: uint32)
    requires interval >= MINIMAL_MESSAGE_CHECK_INTERVAL
    ensures ReadDelayTicks(interval) >= 50000
    ensures other >= interval ==> ReadDelayTicks(other) >= ReadDelayTicks(interval)
  {
  }

  // ---------------------------------------------------------------------
  // Internal IOCTLs

  datatype IoctlCode =
    | GetDeviceDescriptorIoctl
    | GetReportDescriptorIoctl
    | ReadReportIoctl
    | GetDeviceAttributesIoctl
    | WriteReportIoctl
    | SetFeatureIoctl
    | GetFeatureIoctl
    | GetStringIoctl
    | ActivateDeviceIoctl
    | DeactivateDeviceIoctl
    | OtherIoctl(code: uint32)

  /** The IOCTLs answered with STATUS_NOT_SUPPORTED without any work. */
  predicate Unsupported(code: IoctlCode) {
    code.WriteReportIoctl? || code.SetFeatureIoctl? || code.GetStringIoctl?
    || code.ActivateDeviceIoctl? || code.DeactivateDeviceIoctl? || code.OtherIoctl?
  }

  /** How the IRP ends: completed with a status (and maybe a byte count),
   *  or left pending behind a timer of the given delay. */
  datatype Completion = Completed(irpStatus: NtStatus, information: Option<nat>) | Pending(delayTicks: nat)

  /** A zeroed ring slot. */
  const ZERO_MOVE := MoveReport(FeatureHeader(0, 0), 0, ShortPoint(0, 0))

  // ---------------------------------------------------------------------
  // The device extension

  /** The part of the device extension that only PnP changes: the state
   *  record and the two descriptors. */
  datatype DeviceSetup = DeviceSetup(record: PnpRecord, hidDescriptor: seq<byte>, reportDescriptor: seq<byte>)

  class MouseDevice {
    /** The build's motion mode (AEM_RELATIVE_MOTION). */
    const relativeMotion: bool
    var pnpState: PnpState
    var previousPnpState: PnpState
    const infoReport: InfoReport
    const messageQueue: array<MoveReport>
    var queueStart: uint32
    var queueEnd: uint32
    /** Poll interval in microseconds. */
    var messageCheckInterval: uint32
    /** The HID_DESCRIPTOR structure, byte by byte. */
    var hidDescriptor: seq<byte>
    /** What ReportDescriptor points to (empty while it is NULL). */
    var reportDescriptor: seq<byte>

    predicate Valid()
      reads this
    {
      && messageQueue.Length == QUEUE_SIZE
      && queueStart < QUEUE_SIZE && queueEnd < QUEUE_SIZE
      && messageCheckInterval >= MINIMAL_MESSAGE_CHECK_INTERVAL
      && infoReport == InfoFor(relativeMotion)
      && |hidDescriptor| == HID_DESCRIPTOR_SIZE
      && hidDescriptor[0] as nat <= HID_DESCRIPTOR_SIZE
      && ReportLength(hidDescriptor) <= |reportDescriptor|
    }

    function Record(): PnpRecord
      reads this
    {
      PnpRecord(pnpState, previousPnpState)
    }

    function Setup(): DeviceSetup
      reads this
    {
      DeviceSetup(Record(), hidDescriptor, reportDescriptor)
    }

    /** The messages waiting in the ring, oldest first. */
    ghost function Messages(): (m: seq<MoveReport>)
      requires Valid()
      reads this, messageQueue
      ensures |m| == Ring.Depth(queueStart, queueEnd) < QUEUE_SIZE
    {
      Ring.ContentsLength(messageQueue[..], queueStart, queueEnd);
      Ring.Contents(messageQueue[..], queueStart, queueEnd)
    }

    ghost function View(): (v: DeviceView)
      requires Valid()
      reads this, messageQueue
      ensures Bounded(v)
    {
      DeviceView(Messages(), messageCheckInterval)
    }

    /** AddDevice: the zeroed extension with its initial state, the Info
     *  snapshot, an empty ring and the default interval. */
    constructor AddDevice(relative: bool)
      ensures Valid()
      ensures relativeMotion == relative
      ensures pnpState == NotStarted && previousPnpState == NotStarted
      ensures infoReport == InfoFor(relative)
      ensures queueStart == 0 && queueEnd == 0 && Messages() == []
      ensures View() == DeviceView([], DEFAULT_MESSAGE_CHECK_INTERVAL)
      ensures hidDescriptor == seq(HID_DESCRIPTOR_SIZE, _ => 0) && reportDescriptor == []
      ensures fresh(messageQueue)
    {
      relativeMotion := relative;
      pnpState := NotStarted;
      previousPnpState := NotStarted;
      infoReport := InfoReport(FeatureHeader(CONTROL_REPORT_ID, CODE_INFO),
                               if relative then FLAG_RELATIVE else 0, QUEUE_SIZE);
      messageQueue := new MoveReport[QUEUE_SIZE](_ => ZERO_MOVE);
      queueEnd := 0;
      queueStart := 0;
      messageCheckInterval := DEFAULT_MESSAGE_CHECK_INTERVAL;
      hidDescriptor := seq(HID_DESCRIPTOR_SIZE, _ => 0);
      reportDescriptor := [];
      new;
      Ring.ResetEmpties(messageQueue[..], 0);
    }

    /** SET_NEW_PNP_STATE. */
    method SetNewPnpState(s: PnpState)
      modifies this`pnpState, this`previousPnpState
      ensures Record() == AemConfig.SetNewPnpState(old(Record()), s)
    {
      previousPnpState := pnpState;
      pnpState := s;
    }

    /** RESTORE_PREVIOUS_PNP_STATE. */
    method RestorePreviousPnpState()
      modifies this`pnpState
      ensures Record() == AemConfig.RestorePreviousPnpState(old(Record()))
    {
      pnpState := previousPnpState;
    }

    /** The PnP dispatch for the minors the driver handles. A START is sent
     *  down first; when the lower driver succeeds the built-in descriptors
     *  are installed and the device is Started. The result is always the
     *  lower driver's status. */
    method PnP(minor: PnpMinor, lowerStatus: NtStatus) returns (status: NtStatus)
      requires Valid()
      modifies this`pnpState, this`previousPnpState, this`hidDescriptor, this`reportDescriptor
      ensures Valid()
      ensures status == lowerStatus
      ensures Record() == PnpAfter(old(Record()), minor, lowerStatus)
      ensures minor.StartDevice? && NtSuccess(lowerStatus) ==>
                hidDescriptor == HidDescriptor(relativeMotion) && reportDescriptor == ReportDescriptor(relativeMotion)
      ensures !(minor.StartDevice? && NtSuccess(lowerStatus)) ==>
                hidDescriptor == old(hidDescriptor) && reportDescriptor == old(reportDescriptor)
    {
      match minor {
        case StartDevice =>
          if NtSuccess(lowerStatus) {
            hidDescriptor := HidDescriptor(relativeMotion);
            reportDescriptor := ReportDescriptor(relativeMotion);
            DescriptorsAgree(relativeMotion);
            SetNewPnpState(Started);
          }
        case StopDevice => SetNewPnpState(Stopped);
        case CancelStopDevice => RestorePreviousPnpState();
        case QueryStopDevice => SetNewPnpState(StopPending);
        case QueryRemoveDevice => SetNewPnpState(RemovePending);
        case CancelRemoveDevice => RestorePreviousPnpState();
        case SurpriseRemoval => SetNewPnpState(SurpriseRemovePending);
        case RemoveDevice => SetNewPnpState(Deleted);
        case OtherMinor(_) =>
      }
      status := lowerStatus;
    }

    /** IOCTL_HID_GET_FEATURE: `reportId` is the transfer packet's report
     *  id and `report` its buffer. */
    method GetFeature(reportId: byte, report: array<byte>) returns (status: NtStatus)
      requires Valid()
      modifies this`queueStart, this`queueEnd, this`messageCheckInterval, messageQueue, report
      ensures Valid()
      ensures var r := GetFeatureSpec(relativeMotion, old(View()), reportId, old(report[..]));
              status == r.status && report[..] == r.report && View() == r.view
      ensures queueStart == old(queueStart) || (queueStart == 0 && queueEnd == 0)
      ensures forall i :: 0 <= i < QUEUE_SIZE && i != old(queueEnd) ==> messageQueue[i] == old(messageQueue[i])
      ensures !(reportId == CONTROL_REPORT_ID && report.Length >= MOVE_REPORT_SIZE && old(report[1]) == CODE_MOVE) ==>
                unchanged(messageQueue)
      ensures reportId == CONTROL_REPORT_ID && report.Length >= MOVE_REPORT_SIZE && old(report[1]) == CODE_MOVE ==>
                && queueStart == old(queueStart)
                && (Ring.Next(old(queueEnd)) != queueStart ==>
                      queueEnd == Ring.Next(old(queueEnd)) && messageQueue[old(queueEnd)] == DecodeMove(old(report[..])))
                && (Ring.Next(old(queueEnd)) == queueStart ==> queueEnd == old(queueEnd))
    {
      ghost var v := View();
      if reportId != CONTROL_REPORT_ID {
        return STATUS_NOT_SUPPORTED;
      }
      if report.Length < FEATURE_REPORT_SIZE {
        return STATUS_BUFFER_TOO_SMALL;
      }
      var code := report[1];
      if code == CODE_MOVE {
        if report.Length < MOVE_REPORT_SIZE {
          return STATUS_BUFFER_TOO_SMALL;
        }
        Enqueue(report);
      } else if code == CODE_INFO {
        if report.Length < INFO_REPORT_SIZE {
          return STATUS_BUFFER_TOO_SMALL;
        }
        CopyInto(report, EncodeInfo(infoReport), 0);
      } else if code == CODE_CLEAR_QUEUE {
        queueStart := 0;
        queueEnd := 0;
        Ring.ResetEmpties(messageQueue[..], 0);
      } else if code == CODE_QUEUE_SIZE {
        if report.Length < DWORD_REPORT_SIZE {
          return STATUS_BUFFER_TOO_SMALL;
        }
        var value := Ring.QueueSizeValue(queueStart, queueEnd);
        CopyInto(report, EncodeU32(value), PAYLOAD_OFFSET);
      } else if code == CODE_INTERVAL {
        if report.Length < DWORD_REPORT_SIZE {
          return STATUS_BUFFER_TOO_SMALL;
        }
        SwapInterval(report);
      } else {
        return STATUS_NOT_SUPPORTED;
      }
      status := STATUS_SUCCESS;
    }

    /** The locked part of a Move request: when a slot is free the request
     *  is copied into slot `queueEnd` and `queueEnd` advances; otherwise the
     *  echoed control code becomes Error. */
    method Enqueue(report: array<byte>)
      requires Valid() && report.Length >= MOVE_REPORT_SIZE
      modifies this`queueEnd, messageQueue, report
      ensures Valid()
      ensures Ring.Next(old(queueEnd)) == queueStart <==> |old(Messages())| == QUEUE_SIZE - 1
      ensures Ring.Next(old(queueEnd)) != queueStart ==>
                && queueEnd == Ring.Next(old(queueEnd))
                && messageQueue[old(queueEnd)] == DecodeMove(old(report[..]))
                && Messages() == old(Messages()) + [DecodeMove(old(report[..]))]
                && report[..] == old(report[..])
      ensures Ring.Next(old(queueEnd)) == queueStart ==>
                && queueEnd == old(queueEnd) && Messages() == old(Messages())
                && report[..] == old(report[..])[1 := CODE_ERROR]
      ensures forall i :: 0 <= i < QUEUE_SIZE && i != old(queueEnd) ==> messageQueue[i] == old(messageQueue[i])
    {
      var newQueueEnd := (queueEnd + 1) % QUEUE_SIZE;
      Ring.FullIffOneSlotLeft(queueStart, queueEnd);
      if newQueueEnd != queueStart {
        var m := DecodeMove(report[..]);
        ghost var q := messageQueue[..];
        messageQueue[queueEnd] := m;
        assert messageQueue[..] == q[queueEnd := m];
        Ring.Push(q, queueStart, queueEnd, m);
        queueEnd := newQueueEnd;
      } else {
        report[1] := CODE_ERROR;
      }
    }

    /** An Interval request: Value is answered with the interval in force,
     *  and the requested one is installed when it reaches the floor;
     *  otherwise the echoed control code becomes Error. */
    method SwapInterval(report: array<byte>)
      requires Valid() && report.Length >= DWORD_REPORT_SIZE
      modifies this`messageCheckInterval, report
      ensures Valid()
      ensures var requested := DecodeDword(old(report[..])).value;
              var answered := WithValue(old(report[..]), old(messageCheckInterval));
              && (requested >= MINIMAL_MESSAGE_CHECK_INTERVAL ==>
                    messageCheckInterval == requested && report[..] == answered)
              && (requested < MINIMAL_MESSAGE_CHECK_INTERVAL ==>
                    messageCheckInterval == old(messageCheckInterval) && report[..] == answered[1 := CODE_ERROR])
    {
      var newDelay := DecodeU32(report[PAYLOAD_OFFSET..DWORD_REPORT_SIZE]);
      assert newDelay == DecodeDword(report[..]).value;
      CopyInto(report, EncodeU32(messageCheckInterval), PAYLOAD_OFFSET);
      if newDelay >= MINIMAL_MESSAGE_CHECK_INTERVAL {
        messageCheckInterval := newDelay;
      } else {
        report[1] := CODE_ERROR;
      }
    }

    /** IOCTL_HID_READ_REPORT: allocate the timer (which may fail) and arm
     *  it for one poll interval; the IRP stays pending until the timer
     *  routine completes it. Nothing in the extension changes. */
    method ReadReport(allocationSucceeds: bool) returns (status: NtStatus, completion: Completion)
      requires Valid()
      ensures !allocationSucceeds ==> status == STATUS_INSUFFICIENT_RESOURCES
                                      && completion == Completed(STATUS_INSUFFICIENT_RESOURCES, None)
      ensures allocationSucceeds ==> status == STATUS_PENDING
                                     && completion == Pending(ReadDelayTicks(messageCheckInterval))
                                     && completion.delayTicks >= 50000
    {
      if !allocationSucceeds {
        status := STATUS_INSUFFICIENT_RESOURCES;
        completion := Completed(status, None);
      } else {
        status := STATUS_PENDING;
        ReadDelayRespectsFloor(messageCheckInterval, messageCheckInterval);
        completion := Pending(ReadDelayTicks(messageCheckInterval));
      }
    }

    /** The timer routine: check the read buffer's size, then either mark
     *  an idle report or dequeue the oldest message into an input report. */
    method ReadTimerDpc(report: array<byte>) returns (status: NtStatus, information: Option<nat>)
      requires Valid()
      modifies this`queueStart, report
      ensures Valid()
      ensures var r := ReadTimerSpec(relativeMotion, old(View()), old(report[..]));
              status == r.status && report[..] == r.report && information == r.information
              && View() == r.view
      ensures queueStart == (if report.Length >= InputReportSize(relativeMotion) + 1 && old(queueStart) != queueEnd
                             then Ring.Next(old(queueStart)) else old(queueStart))
    {
      var reportSize := InputReportSize(relativeMotion) + 1;
      if report.Length < reportSize {
        status := STATUS_BUFFER_TOO_SMALL;
        information := None;
      } else if queueStart == queueEnd {
        Ring.EmptyIffIndicesMeet(queueStart, queueEnd);
        report[0] := CONTROL_REPORT_ID;
        status := STATUS_SUCCESS;
        information := Some(reportSize);
      } else {
        Dequeue(report);
        status := STATUS_SUCCESS;
        information := Some(reportSize);
      }
    }

    /** The locked part of the timer routine on a non-empty ring: take the
     *  oldest message out of slot `queueStart`, advance `queueStart`, and
     *  format the message into the front of the read buffer. */
    method Dequeue(report: array<byte>)
      requires Valid() && queueStart != queueEnd
      requires report.Length >= InputReportSize(relativeMotion) + 1
      modifies this`queueStart, report
      ensures Valid() && old(Messages()) != []
      ensures queueStart == Ring.Next(old(queueStart))
      ensures Messages() == old(Messages())[1..]
      ensures report[..] == InputReport(relativeMotion, old(Messages())[0])
                            + old(report[..])[InputReportSize(relativeMotion) + 1..]
    {
      Ring.Pop(messageQueue[..], queueStart, queueEnd);
      var moveReport := messageQueue[queueStart];
      queueStart := (queueStart + 1) % QUEUE_SIZE;
      CopyInto(report, InputReport(relativeMotion, moveReport), 0);
    }

    /** IOCTL_HID_GET_DEVICE_DESCRIPTOR: copies at most bLength bytes of
     *  the HID descriptor, and never more than the buffer holds. */
    method GetHidDescriptor(buffer: array<byte>) returns (status: NtStatus, information: Option<nat>)
      requires Valid()
      modifies buffer
      ensures buffer.Length == 0 ==> status == STATUS_BUFFER_TOO_SMALL && information == None
      ensures buffer.Length > 0 ==>
                var n := Min(buffer.Length, hidDescriptor[0]);
                && status == STATUS_SUCCESS && information == Some(n)
                && n <= HID_DESCRIPTOR_SIZE
                && buffer[..n] == hidDescriptor[..n]
                && buffer[n..] == old(buffer[n..])
    {
      if buffer.Length == 0 {
        return STATUS_BUFFER_TOO_SMALL, None;
      }
      var bytesToCopy := Min(buffer.Length, hidDescriptor[0]);
      CopyInto(buffer, hidDescriptor[..bytesToCopy], 0);
      status, information := STATUS_SUCCESS, Some(bytesToCopy);
    }

    /** IOCTL_HID_GET_REPORT_DESCRIPTOR: copies at most wReportLength bytes
     *  of the report descriptor, and never more than the buffer holds. */
    method GetReportDescriptor(buffer: array<byte>) returns (status: NtStatus, information: Option<nat>)
      requires Valid()
      modifies buffer
      ensures buffer.Length == 0 ==> status == STATUS_BUFFER_TOO_SMALL && information == None
      ensures buffer.Length > 0 ==>
                var n := Min(buffer.Length, ReportLength(hidDescriptor));
                && status == STATUS_SUCCESS && information == Some(n)
                && n <= |reportDescriptor|
                && buffer[..n] == reportDescriptor[..n]
                && buffer[n..] == old(buffer[n..])
    {
      if buffer.Length == 0 {
        return STATUS_BUFFER_TOO_SMALL, None;
      }
      var bytesToCopy := Min(buffer.Length, ReportLength(hidDescriptor));
      CopyInto(buffer, reportDescriptor[..bytesToCopy], 0);
      status, information := STATUS_SUCCESS, Some(bytesToCopy);
    }

    /** IOCTL_HID_GET_DEVICE_ATTRIBUTES: needs room for the whole structure;
     *  fills in its size and the vendor, product and version numbers. */
    method GetDeviceAttributes(buffer: array<byte>) returns (status: NtStatus, information: Option<nat>)
      modifies buffer
      ensures buffer.Length < HID_DEVICE_ATTRIBUTES_SIZE ==>
                status == STATUS_BUFFER_TOO_SMALL && information == None && buffer[..] == old(buffer[..])
      ensures buffer.Length >= HID_DEVICE_ATTRIBUTES_SIZE ==>
                && status == STATUS_SUCCESS && information == Some(HID_DEVICE_ATTRIBUTES_SIZE)
                && DecodeU32(buffer[0..4]) == HID_DEVICE_ATTRIBUTES_SIZE
                && DecodeU16(buffer[4], buffer[5]) == VENDOR_ID
                && DecodeU16(buffer[6], buffer[7]) == PRODUCT_ID
                && DecodeU16(buffer[8], buffer[9]) == VERSION
                && buffer[..10] == AttributesPrefix()
                && buffer[10..] == old(buffer[10..])
    {
      if buffer.Length < HID_DEVICE_ATTRIBUTES_SIZE {
        return STATUS_BUFFER_TOO_SMALL, None;
      }
      CopyInto(buffer, AttributesPrefix(), 0);
      assert buffer[0..4] == EncodeU32(HID_DEVICE_ATTRIBUTES_SIZE);
      U32RoundTrip(HID_DEVICE_ATTRIBUTES_SIZE, [0, 0, 0, 0]);
      status, information := STATUS_SUCCESS, Some(HID_DEVICE_ATTRIBUTES_SIZE);
    }

    /** IRP_MJ_INTERNAL_DEVICE_CONTROL. Every IOCTL but READ_REPORT is
     *  completed here with its handler's status and the dispatch itself
     *  returns success; READ_REPORT returns the read's own status. For
     *  GET_FEATURE, `reportId` and `buffer` are the transfer packet; for the
     *  other IOCTLs `buffer` is the output buffer. */
    method InternalIoctl(code: IoctlCode, reportId: byte, buffer: array<byte>, allocationSucceeds: bool)
      returns (status: NtStatus, completion: Completion)
      requires Valid()
      modifies this`queueStart, this`queueEnd, this`messageCheckInterval, messageQueue, buffer
      ensures Valid()
      ensures code.ReadReportIoctl? ==>
                && status == (if allocationSucceeds then STATUS_PENDING else STATUS_INSUFFICIENT_RESOURCES)
                && completion == (if allocationSucceeds then Pending(ReadDelayTicks(messageCheckInterval))
                                  else Completed(STATUS_INSUFFICIENT_RESOURCES, None))
      ensures !code.ReadReportIoctl? ==> status == STATUS_SUCCESS && completion.Completed?
      ensures Unsupported(code) ==> completion == Completed(STATUS_NOT_SUPPORTED, None)
      ensures code.GetDeviceDescriptorIoctl? ==>
                if buffer.Length == 0 then completion == Completed(STATUS_BUFFER_TOO_SMALL, None)
                else
                  var n := Min(buffer.Length, hidDescriptor[0]);
                  && completion == Completed(STATUS_SUCCESS, Some(n))
                  && buffer[..n] == hidDescriptor[..n] && buffer[n..] == old(buffer[n..])
      ensures code.GetReportDescriptorIoctl? ==>
                if buffer.Length == 0 then completion == Completed(STATUS_BUFFER_TOO_SMALL, None)
                else
                  var n := Min(buffer.Length, ReportLength(hidDescriptor));
                  && completion == Completed(STATUS_SUCCESS, Some(n))
                  && buffer[..n] == reportDescriptor[..n] && buffer[n..] == old(buffer[n..])
      ensures code.GetDeviceAttributesIoctl? ==>
                if buffer.Length < HID_DEVICE_ATTRIBUTES_SIZE then
                  completion == Completed(STATUS_BUFFER_TOO_SMALL, None) && buffer[..] == old(buffer[..])
                else
                  && completion == Completed(STATUS_SUCCESS, Some(HID_DEVICE_ATTRIBUTES_SIZE))
                  && buffer[..10] == AttributesPrefix() && buffer[10..] == old(buffer[10..])
      ensures code.GetFeatureIoctl? ==>
                var r := GetFeatureSpec(relativeMotion, old(View()), reportId, old(buffer[..]));
                completion == Completed(r.status, None) && buffer[..] == r.report && View() == r.view
      ensures !code.GetFeatureIoctl? ==> View() == old(View())
      ensures (Unsupported(code) || code.ReadReportIoctl?) ==> buffer[..] == old(buffer[..])
    {
      var handlerStatus: NtStatus;
      var information: Option<nat> := None;
      match code {
        case GetDeviceDescriptorIoctl =>
          handlerStatus, information := GetHidDescriptor(buffer);
        case GetReportDescriptorIoctl =>
          handlerStatus, information := GetReportDescriptor(buffer);
        case ReadReportIoctl =>
          status, completion := ReadReport(allocationSucceeds);
          return;
        case GetDeviceAttributesIoctl =>
          handlerStatus, information := GetDeviceAttributes(buffer);
        case GetFeatureIoctl =>
          handlerStatus := GetFeature(reportId, buffer);
        case _ =>
          handlerStatus := STATUS_NOT_SUPPORTED;
      }
      completion := Completed(handlerStatus, information);
      status := STATUS_SUCCESS;
    }
  }
}
