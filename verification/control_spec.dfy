/** Reference semantics of the control channel and of the read path, stated
 *  on what a caller can observe of the device: the pending move messages
 *  (oldest first) and the poll interval. The device class in module Aem is
 *  proved to implement these functions on its ring buffer; the lemmas here
 *  state what the dispatcher and the reader promise. */
module ControlSpec {
  import opened Types
  import opened Common
  import opened AemConfig

  datatype DeviceView = DeviceView(pending: seq<MoveReport>, interval: uint32)

  /** The ring keeps one slot free, so at most QUEUE_SIZE - 1 messages wait. */
  predicate Bounded(v: DeviceView) {
    |v.pending| < QUEUE_SIZE
  }

  /** The capability snapshot AddDevice stores: the control report id, the
   *  Info code, the relative-motion flag of the build and the ring's size. */
  function InfoFor(relative: bool): InfoReport {
    InfoReport(FeatureHeader(CONTROL_REPORT_ID, CODE_INFO), if relative then FLAG_RELATIVE else 0, QUEUE_SIZE)
  }

  /** The report with its 4-byte Value field (offsets 2-5) replaced. */
  function WithValue(report: seq<byte>, value: uint32): (r: seq<byte>)
    requires |report| >= DWORD_REPORT_SIZE
    ensures |r| == |report| && r[..FEATURE_REPORT_SIZE] == report[..FEATURE_REPORT_SIZE]
    ensures DecodeDword(r).value == value
    ensures r[DWORD_REPORT_SIZE..] == report[DWORD_REPORT_SIZE..]
  {
    var r := report[..PAYLOAD_OFFSET] + EncodeU32(value) + report[DWORD_REPORT_SIZE..];
    assert r[PAYLOAD_OFFSET..DWORD_REPORT_SIZE] == EncodeU32(value);
    U32RoundTrip(value, [0, 0, 0, 0]);
    r
  }

  datatype FeatureReply = FeatureReply(status: NtStatus, report: seq<byte>, view: DeviceView)

  /** IOCTL_HID_GET_FEATURE on the control collection: `reportId` is the
   *  transfer packet's report id, `report` its buffer (whose length is the
   *  packet's reportBufferLen). The reply carries the buffer as rewritten in
   *  place. */
  function GetFeatureSpec(relative: bool, v: DeviceView, reportId: byte, report: seq<byte>): (r: FeatureReply)
    requires Bounded(v)
    ensures |r.report| == |report|
    ensures Bounded(r.view) && |r.view.pending| <= |v.pending| + 1
  {
    if reportId != CONTROL_REPORT_ID then FeatureReply(STATUS_NOT_SUPPORTED, report, v)
    else if |report| < FEATURE_REPORT_SIZE then FeatureReply(STATUS_BUFFER_TOO_SMALL, report, v)
    else if report[1] == CODE_MOVE then
      if |report| < MOVE_REPORT_SIZE then FeatureReply(STATUS_BUFFER_TOO_SMALL, report, v)
      else if |v.pending| == QUEUE_SIZE - 1 then FeatureReply(STATUS_SUCCESS, report[1 := CODE_ERROR], v)
      else FeatureReply(STATUS_SUCCESS, report, v.(pending := v.pending + [DecodeMove(report)]))
    else if report[1] == CODE_INFO then
      if |report| < INFO_REPORT_SIZE then FeatureReply(STATUS_BUFFER_TOO_SMALL, report, v)
      else FeatureReply(STATUS_SUCCESS, EncodeInfo(InfoFor(relative)) + report[INFO_REPORT_SIZE..], v)
    else if report[1] == CODE_CLEAR_QUEUE then
      FeatureReply(STATUS_SUCCESS, report, v.(pending := []))
    else if report[1] == CODE_QUEUE_SIZE then
      if |report| < DWORD_REPORT_SIZE then FeatureReply(STATUS_BUFFER_TOO_SMALL, report, v)
      else FeatureReply(STATUS_SUCCESS, WithValue(report, |v.pending|), v)
    else if report[1] == CODE_INTERVAL then
      if |report| < DWORD_REPORT_SIZE then FeatureReply(STATUS_BUFFER_TOO_SMALL, report, v)
      else
        var requested := DecodeDword(report).value;
        var answered := WithValue(report, v.interval);
        if requested >= MINIMAL_MESSAGE_CHECK_INTERVAL then
          FeatureReply(STATUS_SUCCESS, answered, v.(interval := requested))
        else
          FeatureReply(STATUS_SUCCESS, answered[1 := CODE_ERROR], v)
    else FeatureReply(STATUS_NOT_SUPPORTED, report, v)
  }

  /** The input report formatted from one message: pointer report id, the
   *  buttons, then the low bytes of X and Y (relative build) or both
   *  coordinates as little-endian SHORTs (absolute build). */
  function InputReport(relative: bool, m: MoveReport): (r: seq<byte>)
    ensures |r| == InputReportSize(relative) + 1
  {
    if relative then [POINTER_REPORT_ID, m.buttons, ToByte(m.point.x), ToByte(m.point.y)]
    else [POINTER_REPORT_ID, m.buttons] + EncodeI16(m.point.x) + EncodeI16(m.point.y)
  }

  datatype ReadReply = ReadReply(status: NtStatus, report: seq<byte>, information: Option<nat>, view: DeviceView)

  /** The timer routine that completes one read: `report` is the read
   *  buffer (its length is the output buffer length); `information` is the
   *  byte count written into the IRP, None when it is left untouched. */
  function ReadTimerSpec(relative: bool, v: DeviceView, report: seq<byte>): (r: ReadReply)
    ensures |r.report| == |report|
    ensures |r.view.pending| <= |v.pending| && r.view.interval == v.interval
  {
    var size := InputReportSize(relative) + 1;
    if |report| < size then ReadReply(STATUS_BUFFER_TOO_SMALL, report, None, v)
    else if v.pending == [] then ReadReply(STATUS_SUCCESS, report[0 := CONTROL_REPORT_ID], Some(size), v)
    else ReadReply(STATUS_SUCCESS, InputReport(relative, v.pending[0]) + report[size..], Some(size),
                   v.(pending := v.pending[1..]))
  }

  // ---------------------------------------------------------------------
  // Properties of the control channel

  /** No control request can make the ring hold more than QUEUE_SIZE - 1
   *  messages, and the poll interval never drops below the floor. */
  lemma FeatureKeepsInvariants(relative: bool, v: DeviceView, reportId: byte, report: seq<byte>)
    requires Bounded(v) && v.interval >= MINIMAL_MESSAGE_CHECK_INTERVAL
    ensures var r := GetFeatureSpec(relative, v, reportId, report);
            Bounded(r.view) && r.view.interval >= MINIMAL_MESSAGE_CHECK_INTERVAL
  {
  }

  /** Every request either succeeds or is refused; a refused request leaves
   *  both the buffer and the device untouched (validation before mutation). */
  lemma RefusalChangesNothing(relative: bool, v: DeviceView, reportId: byte, report: seq<byte>)
    requires Bounded(v)
    ensures var r := GetFeatureSpec(relative, v, reportId, report);
            r.status in {STATUS_SUCCESS, STATUS_NOT_SUPPORTED, STATUS_BUFFER_TOO_SMALL}
            && (r.status != STATUS_SUCCESS ==> r.report == report && r.view == v)
  {
  }

  /** Which requests are refused, and with which status. */
  lemma RefusalConditions(relative: bool, v: DeviceView, reportId: byte, report: seq<byte>)
    requires Bounded(v)
    ensures var r := GetFeatureSpec(relative, v, reportId, report);
            r.status == STATUS_NOT_SUPPORTED <==>
              reportId != CONTROL_REPORT_ID
              || (|report| >= FEATURE_REPORT_SIZE && report[1] !in {CODE_MOVE, CODE_INFO, CODE_CLEAR_QUEUE, CODE_QUEUE_SIZE, CODE_INTERVAL})
    ensures var r := GetFeatureSpec(relative, v, reportId, report);
            reportId == CONTROL_REPORT_ID ==>
              (r.status == STATUS_BUFFER_TOO_SMALL <==>
                 |report| < FEATURE_REPORT_SIZE
                 || (report[1] == CODE_MOVE && |report| < MOVE_REPORT_SIZE)
                 || (report[1] == CODE_INFO && |report| < INFO_REPORT_SIZE)
                 || (report[1] in {CODE_QUEUE_SIZE, CODE_INTERVAL} && |report| < DWORD_REPORT_SIZE))
  {
  }

  /** A move request is enqueued exactly when the echoed control code is
   *  still Move; otherwise the ring was full, the code reads Error and the
   *  ring is untouched. Either way only the code byte can change, and the
   *  call reports success. */
  lemma MoveOutcome(relative: bool, v: DeviceView, report: seq<byte>)
    requires Bounded(v)
    requires |report| >= MOVE_REPORT_SIZE && report[1] == CODE_MOVE
    ensures var r := GetFeatureSpec(relative, v, CONTROL_REPORT_ID, report);
            && r.status == STATUS_SUCCESS
            && r.view.interval == v.interval
            && r.report == report[1 := r.report[1]]
            && (r.report[1] == CODE_MOVE <==> |v.pending| < QUEUE_SIZE - 1)
            && (r.report[1] == CODE_MOVE ==> r.view.pending == v.pending + [DecodeMove(report)])
            && (r.report[1] != CODE_MOVE ==> r.report[1] == CODE_ERROR && r.view.pending == v.pending)
  {
  }

  /** Info always answers with the same snapshot, whatever else the buffer held. */
  lemma InfoAnswer(relative: bool, v: DeviceView, report: seq<byte>)
    requires Bounded(v)
    requires |report| >= INFO_REPORT_SIZE && report[1] == CODE_INFO
    ensures var r := GetFeatureSpec(relative, v, CONTROL_REPORT_ID, report);
            && r.status == STATUS_SUCCESS && r.view == v
            && DecodeInfo(r.report) == InfoFor(relative)
            && r.report[INFO_REPORT_SIZE..] == report[INFO_REPORT_SIZE..]
  {
    var r := GetFeatureSpec(relative, v, CONTROL_REPORT_ID, report);
    InfoRoundTrip(InfoFor(relative), r.report);
    assert r.report[..INFO_REPORT_SIZE] == EncodeInfo(InfoFor(relative));
  }

  /** QueueSize writes the number of waiting messages into Value and changes
   *  nothing else. */
  lemma QueueSizeAnswer(relative: bool, v: DeviceView, report: seq<byte>)
    requires Bounded(v)
    requires |report| >= DWORD_REPORT_SIZE && report[1] == CODE_QUEUE_SIZE
    ensures var r := GetFeatureSpec(relative, v, CONTROL_REPORT_ID, report);
            && r.status == STATUS_SUCCESS && r.view == v
            && DecodeDword(r.report) == DecodeDword(report).(value := |v.pending|)
            && r.report[DWORD_REPORT_SIZE..] == report[DWORD_REPORT_SIZE..]
            && DecodeDword(r.report).value < QUEUE_SIZE
  {
  }

  /** ClearQueue empties the ring whatever it held; clearing twice is the
   *  same as clearing once, and a following QueueSize answers 0. */
  lemma ClearQueueEmpties(relative: bool, v: DeviceView, report: seq<byte>, probe: seq<byte>)
    requires Bounded(v)
    requires |report| >= FEATURE_REPORT_SIZE && report[1] == CODE_CLEAR_QUEUE
    requires |probe| >= DWORD_REPORT_SIZE && probe[1] == CODE_QUEUE_SIZE
    ensures var once := GetFeatureSpec(relative, v, CONTROL_REPORT_ID, report);
            && once.status == STATUS_SUCCESS && once.report == report
            && once.view == v.(pending := [])
            && GetFeatureSpec(relative, once.view, CONTROL_REPORT_ID, report) == once
            && DecodeDword(GetFeatureSpec(relative, once.view, CONTROL_REPORT_ID, probe).report).value == 0
  {
  }

  /** Interval swaps in the requested value when it reaches the floor and
   *  always answers with the interval in force before the call; a request
   *  below the floor is flagged with the Error code and changes nothing. */
  lemma IntervalAnswer(relative: bool, v: DeviceView, report: seq<byte>)
    requires Bounded(v)
    requires |report| >= DWORD_REPORT_SIZE && report[1] == CODE_INTERVAL
    ensures var r := GetFeatureSpec(relative, v, CONTROL_REPORT_ID, report);
            var requested := DecodeDword(report).value;
            && r.status == STATUS_SUCCESS && r.view.pending == v.pending
            && DecodeDword(r.report).value == v.interval
            && r.report[0] == report[0]
            && r.report[DWORD_REPORT_SIZE..] == report[DWORD_REPORT_SIZE..]
            && (requested >= MINIMAL_MESSAGE_CHECK_INTERVAL ==> r.view.interval == requested && r.report[1] == CODE_INTERVAL)
            && (requested < MINIMAL_MESSAGE_CHECK_INTERVAL ==> r.view.interval == v.interval && r.report[1] == CODE_ERROR)
  {
  }

  /** Sending Value = 0 reads the interval without changing it. */
  lemma IntervalPeek(relative: bool, v: DeviceView, report: seq<byte>)
    requires Bounded(v)
    requires |report| >= DWORD_REPORT_SIZE && report[1] == CODE_INTERVAL
    requires DecodeDword(report).value == 0
    ensures var r := GetFeatureSpec(relative, v, CONTROL_REPORT_ID, report);
            r.view == v && DecodeDword(r.report).value == v.interval
  {
    IntervalAnswer(relative, v, report);
  }

  // ---------------------------------------------------------------------
  // Properties of the read path

  /** A read needs room for the report id plus one input report; a shorter
   *  buffer is refused and nothing changes. */
  lemma ReadNeedsRoom(relative: bool, v: DeviceView, report: seq<byte>)
    ensures var r := ReadTimerSpec(relative, v, report);
            (r.status == STATUS_BUFFER_TOO_SMALL <==> |report| < InputReportSize(relative) + 1)
            && (r.status != STATUS_BUFFER_TOO_SMALL ==> r.status == STATUS_SUCCESS)
            && (r.status == STATUS_BUFFER_TOO_SMALL ==> r.report == report && r.view == v && r.information == None)
    ensures InputReportSize(true) + 1 == 4 && InputReportSize(false) + 1 == 6
  {
  }

  /** On an empty ring the read still succeeds: byte 0 becomes the control
   *  report id, the full report size is reported and nothing is dequeued. */
  lemma IdleRead(relative: bool, v: DeviceView, report: seq<byte>)
    requires v.pending == [] && |report| >= InputReportSize(relative) + 1
    ensures var r := ReadTimerSpec(relative, v, report);
            && r.status == STATUS_SUCCESS && r.view == v
            && r.report == report[0 := CONTROL_REPORT_ID]
            && r.information == Some(InputReportSize(relative) + 1)
  {
  }

  /** A read on a non-empty ring removes exactly the oldest message and
   *  formats it into the first bytes of the buffer. */
  lemma DrainOldest(relative: bool, v: DeviceView, report: seq<byte>)
    requires v.pending != [] && |report| >= InputReportSize(relative) + 1
    ensures var r := ReadTimerSpec(relative, v, report);
            var size := InputReportSize(relative) + 1;
            && r.status == STATUS_SUCCESS && r.information == Some(size)
            && [v.pending[0]] + r.view.pending == v.pending
            && r.view.interval == v.interval
            && r.report[..size] == InputReport(relative, v.pending[0])
            && r.report[size..] == report[size..]
  {
  }

  datatype Drained = Drained(reports: seq<seq<byte>>, view: DeviceView)

  /** k successive reads into equally sized buffers. */
  function ReadRepeatedly(relative: bool, v: DeviceView, report: seq<byte>, k: nat): Drained
    decreases k
  {
    if k == 0 then Drained([], v)
    else
      var first := ReadTimerSpec(relative, v, report);
      var rest := ReadRepeatedly(relative, first.view, report, k - 1);
      Drained([first.report] + rest.reports, rest.view)
  }

  /** Reads deliver the waiting messages in the order they were enqueued
   *  (FIFO), one per read, and leave the rest waiting. */
  lemma {:induction false} DrainsInOrder(relative: bool, v: DeviceView, report: seq<byte>, k: nat)
    requires k <= |v.pending| && |report| >= InputReportSize(relative) + 1
    ensures var d := ReadRepeatedly(relative, v, report, k);
            && |d.reports| == k
            && d.view == v.(pending := v.pending[k..])
            && forall i :: 0 <= i < k ==>
                 |d.reports[i]| == |report|
                 && d.reports[i][..InputReportSize(relative) + 1] == InputReport(relative, v.pending[i])
    decreases k
  {
    if k > 0 {
      var first := ReadTimerSpec(relative, v, report);
      DrainOldest(relative, v, report);
      assert first.view.pending == v.pending[1..];
      DrainsInOrder(relative, first.view, report, k - 1);
      var rest := ReadRepeatedly(relative, first.view, report, k - 1);
      assert v.pending[1..][k - 1..] == v.pending[k..];
      forall i | 0 <= i < k
        ensures |ReadRepeatedly(relative, v, report, k).reports[i]| == |report|
        ensures ReadRepeatedly(relative, v, report, k).reports[i][..InputReportSize(relative) + 1]
                == InputReport(relative, v.pending[i])
      {
        if i > 0 {
          assert ReadRepeatedly(relative, v, report, k).reports[i] == rest.reports[i - 1];
          assert v.pending[1..][i - 1] == v.pending[i];
        }
      }
    }
  }

  /** What a reader emits is what the writer sent: in the relative build the
   *  buttons byte and the low bytes of X and Y of the move request, in the
   *  absolute build its buttons and both coordinates byte for byte. */
  lemma InputEchoesRequest(relative: bool, request: seq<byte>)
    requires |request| >= MOVE_REPORT_SIZE
    ensures var out := InputReport(relative, DecodeMove(request));
            && out[0] == POINTER_REPORT_ID
            && (relative ==> out[1..] == [request[2], request[3], request[5]])
            && (!relative ==> out[1..] == request[2..MOVE_REPORT_SIZE])
  {
    MoveRoundTrip(DecodeMove(request), request);
    assert EncodeMove(DecodeMove(request)) == request[..MOVE_REPORT_SIZE];
    I16RoundTrip(0, request[3], request[4]);
    I16RoundTrip(0, request[5], request[6]);
  }

  /** Two moves into an empty ring queue two messages; a read then returns
   *  the first and leaves the second, and the depth follows along. */
  lemma MoveThenRead(v: DeviceView, m1: seq<byte>, m2: seq<byte>, probe: seq<byte>, out: seq<byte>)
    requires v.pending == []
    requires |m1| >= MOVE_REPORT_SIZE && m1[1] == CODE_MOVE
    requires |m2| >= MOVE_REPORT_SIZE && m2[1] == CODE_MOVE
    requires |probe| >= DWORD_REPORT_SIZE && probe[1] == CODE_QUEUE_SIZE
    requires |out| >= InputReportSize(true) + 1
    ensures var s1 := GetFeatureSpec(true, v, CONTROL_REPORT_ID, m1).view;
            var s2 := GetFeatureSpec(true, s1, CONTROL_REPORT_ID, m2).view;
            var read1 := ReadTimerSpec(true, s2, out);
            && DecodeDword(GetFeatureSpec(true, s2, CONTROL_REPORT_ID, probe).report).value == 2
            && read1.report[..InputReportSize(true) + 1] == InputReport(true, DecodeMove(m1))
            && read1.view.pending == [DecodeMove(m2)]
            && DecodeDword(GetFeatureSpec(true, read1.view, CONTROL_REPORT_ID, probe).report).value == 1
  {
    MoveOutcome(true, v, m1);
    var s1 := GetFeatureSpec(true, v, CONTROL_REPORT_ID, m1).view;
    MoveOutcome(true, s1, m2);
    var s2 := GetFeatureSpec(true, s1, CONTROL_REPORT_ID, m2).view;
    assert s2.pending == [DecodeMove(m1), DecodeMove(m2)];
    QueueSizeAnswer(true, s2, probe);
    DrainOldest(true, s2, out);
    var read1 := ReadTimerSpec(true, s2, out);
    assert read1.view.pending == [DecodeMove(m2)];
    QueueSizeAnswer(true, read1.view, probe);
  }

  /** Two moves, a read that returns the first, a clear and an idle read,
   *  in the relative build. */
  lemma MoveReadClearScenario(v: DeviceView, m1: seq<byte>, m2: seq<byte>, clear: seq<byte>, probe: seq<byte>, out: seq<byte>)
    requires v.pending == []
    requires m1 == [CONTROL_REPORT_ID, CODE_MOVE, 0, 1, 0, 2, 0]
    requires m2 == [CONTROL_REPORT_ID, CODE_MOVE, 1, 3, 0, 4, 0]
    requires clear == [CONTROL_REPORT_ID, CODE_CLEAR_QUEUE]
    requires probe == [CONTROL_REPORT_ID, CODE_QUEUE_SIZE, 0, 0, 0, 0]
    requires |out| == 4
    ensures var s1 := GetFeatureSpec(true, v, CONTROL_REPORT_ID, m1).view;
            var s2 := GetFeatureSpec(true, s1, CONTROL_REPORT_ID, m2).view;
            var read1 := ReadTimerSpec(true, s2, out);
            var s4 := GetFeatureSpec(true, read1.view, CONTROL_REPORT_ID, clear).view;
            var read2 := ReadTimerSpec(true, s4, out);
            && DecodeDword(GetFeatureSpec(true, s2, CONTROL_REPORT_ID, probe).report).value == 2
            && read1.report == [POINTER_REPORT_ID, 0, 1, 2]
            && DecodeDword(GetFeatureSpec(true, read1.view, CONTROL_REPORT_ID, probe).report).value == 1
            && DecodeDword(GetFeatureSpec(true, s4, CONTROL_REPORT_ID, probe).report).value == 0
            && read2.report[0] == CONTROL_REPORT_ID && read2.view == s4
  {
    MoveThenRead(v, m1, m2, probe, out);
    InputEchoesRequest(true, m1);
    var s1 := GetFeatureSpec(true, v, CONTROL_REPORT_ID, m1).view;
    var s2 := GetFeatureSpec(true, s1, CONTROL_REPORT_ID, m2).view;
    var read1 := ReadTimerSpec(true, s2, out);
    ClearQueueEmpties(true, read1.view, clear, probe);
    var s4 := GetFeatureSpec(true, read1.view, CONTROL_REPORT_ID, clear).view;
    IdleRead(true, s4, out);
  }
}
