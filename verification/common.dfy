/** The control channel's wire format, shared by the driver and the client
 *  library: report ids, control codes and the packed (1-byte aligned)
 *  feature-report layouts, all little-endian. */
module Common {
  import opened Types

  const POINTER_REPORT_ID: byte := 0x01
  const CONTROL_REPORT_ID: byte := 0x02

  const CODE_MOVE: byte := 0x00
  const CODE_INFO: byte := 0x01
  const CODE_CLEAR_QUEUE: byte := 0x02
  const CODE_INTERVAL: byte := 0x03
  const CODE_QUEUE_SIZE: byte := 0x04
  const CODE_ERROR: byte := 0xFF

  const FLAG_RELATIVE: byte := 0x01

  /** `sizeof` of the packed structures. */
  const FEATURE_REPORT_SIZE: nat := 2
  const MOVE_REPORT_SIZE: nat := 7
  const INFO_REPORT_SIZE: nat := 7
  const DWORD_REPORT_SIZE: nat := 6

  /** Byte offset of the payload that follows the two-byte header. */
  const PAYLOAD_OFFSET: nat := 2

  datatype FeatureHeader = FeatureHeader(reportId: byte, controlCode: byte)
  datatype ShortPoint = ShortPoint(x: int16, y: int16)
  datatype MoveReport = MoveReport(header: FeatureHeader, buttons: byte, point: ShortPoint)
  datatype InfoReport = InfoReport(header: FeatureHeader, flags: byte, capacity: uint32)
  datatype DwordReport = DwordReport(header: FeatureHeader, value: uint32)

  // ---- little-endian scalars ----

  function EncodeU16(v: uint16): (r: seq<byte>)
    ensures |r| == 2 && r[0] as int + 0x100 * (r[1] as int) == v
  {
    [v % 0x100, v / 0x100]
  }

  function DecodeU16(lo: byte, hi: byte): uint16 {
    lo as int + 0x100 * (hi as int)
  }

  /** A `SHORT` is stored as the 16-bit two's complement pattern. */
  function EncodeI16(v: int16): (r: seq<byte>)
    ensures |r| == 2
    ensures r[0] == ToByte(v)
  {
    if v < 0 then
      var q := v / 0x100;
      assert v + 0x1_0000 == (q + 0x100) * 0x100 + v % 0x100;
      EncodeU16(v + 0x1_0000)
    else EncodeU16(v)
  }

  function DecodeI16(lo: byte, hi: byte): int16 {
    var u := DecodeU16(lo, hi);
    if u < 0x8000 then u else u - 0x1_0000
  }

  function EncodeU32(v: uint32): (r: seq<byte>)
    ensures |r| == 4
  {
    var q1 := v / 0x100;
    var q2 := q1 / 0x100;
    [v % 0x100, q1 % 0x100, q2 % 0x100, q2 / 0x100]
  }

  function DecodeU32(s: seq<byte>): uint32
    requires |s| == 4
  {
    s[0] as int + 0x100 * (s[1] as int + 0x100 * (s[2] as int + 0x100 * (s[3] as int)))
  }

  lemma U16RoundTrip(v: uint16, lo: byte, hi: byte)
    ensures var e := EncodeU16(v); DecodeU16(e[0], e[1]) == v
    ensures EncodeU16(DecodeU16(lo, hi)) == [lo, hi]
  {
    var w := lo as int + 0x100 * (hi as int);
    assert w / 0x100 == hi && w % 0x100 == lo by {
      assert w == hi as int * 0x100 + lo as int;
    }
  }

  lemma I16RoundTrip(v: int16, lo: byte, hi: byte)
    ensures var e := EncodeI16(v); DecodeI16(e[0], e[1]) == v
    ensures EncodeI16(DecodeI16(lo, hi)) == [lo, hi]
  {
    U16RoundTrip(if v < 0 then v + 0x1_0000 else v, lo, hi);
  }

  lemma U32RoundTrip(v: uint32, s: seq<byte>)
    requires |s| == 4
    ensures DecodeU32(EncodeU32(v)) == v
    ensures EncodeU32(DecodeU32(s)) == s
  {
  }

  // ---- packed reports ----

  function EncodeHeader(h: FeatureHeader): (r: seq<byte>)
    ensures |r| == FEATURE_REPORT_SIZE
  {
    [h.reportId, h.controlCode]
  }

  function DecodeHeader(s: seq<byte>): FeatureHeader
    requires |s| >= FEATURE_REPORT_SIZE
  {
    FeatureHeader(s[0], s[1])
  }

  /** AEM_MOVE_FEATURE_REPORT: header, Buttons at 2, X at 3-4, Y at 5-6. */
  function EncodeMove(m: MoveReport): (r: seq<byte>)
    ensures |r| == MOVE_REPORT_SIZE
    ensures r[0] == m.header.reportId && r[1] == m.header.controlCode
    ensures r[2] == m.buttons
    ensures DecodeI16(r[3], r[4]) == m.point.x && DecodeI16(r[5], r[6]) == m.point.y
  {
    I16RoundTrip(m.point.x, 0, 0);
    I16RoundTrip(m.point.y, 0, 0);
    EncodeHeader(m.header) + [m.buttons] + EncodeI16(m.point.x) + EncodeI16(m.point.y)
  }

  function DecodeMove(s: seq<byte>): MoveReport
    requires |s| >= MOVE_REPORT_SIZE
  {
    MoveReport(DecodeHeader(s), s[2], ShortPoint(DecodeI16(s[3], s[4]), DecodeI16(s[5], s[6])))
  }

  /** AEM_INFO_FEATURE_REPORT: header, Flags at 2, MessageQueueCapacity at 3-6. */
  function EncodeInfo(i: InfoReport): (r: seq<byte>)
    ensures |r| == INFO_REPORT_SIZE
    ensures r[0] == i.header.reportId && r[1] == i.header.controlCode
    ensures r[2] == i.flags && DecodeU32(r[3..7]) == i.capacity
  {
    U32RoundTrip(i.capacity, [0, 0, 0, 0]);
    var r := EncodeHeader(i.header) + [i.flags] + EncodeU32(i.capacity);
    assert r[3..7] == EncodeU32(i.capacity);
    r
  }

  function DecodeInfo(s: seq<byte>): InfoReport
    requires |s| >= INFO_REPORT_SIZE
  {
    InfoReport(DecodeHeader(s), s[2], DecodeU32(s[3..7]))
  }

  /** AEM_DWORD_FEATURE_REPORT: header, Value at 2-5. */
  function EncodeDword(d: DwordReport): (r: seq<byte>)
    ensures |r| == DWORD_REPORT_SIZE
    ensures r[0] == d.header.reportId && r[1] == d.header.controlCode
    ensures DecodeU32(r[2..6]) == d.value
  {
    U32RoundTrip(d.value, [0, 0, 0, 0]);
    var r := EncodeHeader(d.header) + EncodeU32(d.value);
    assert r[2..6] == EncodeU32(d.value);
    r
  }

  function DecodeDword(s: seq<byte>): DwordReport
    requires |s| >= DWORD_REPORT_SIZE
  {
    DwordReport(DecodeHeader(s), DecodeU32(s[2..6]))
  }

  lemma MoveRoundTrip(m: MoveReport, s: seq<byte>)
    requires |s| >= MOVE_REPORT_SIZE
    ensures DecodeMove(EncodeMove(m)) == m
    ensures EncodeMove(DecodeMove(s)) == s[..MOVE_REPORT_SIZE]
  {
    var d := DecodeMove(s);
    I16RoundTrip(0, s[3], s[4]);
    I16RoundTrip(0, s[5], s[6]);
    assert EncodeI16(d.point.x) == s[3..5] && EncodeI16(d.point.y) == s[5..7];
    assert s[..MOVE_REPORT_SIZE] == s[..2] + [s[2]] + s[3..5] + s[5..7];
  }

  lemma InfoRoundTrip(i: InfoReport, s: seq<byte>)
    requires |s| >= INFO_REPORT_SIZE
    ensures DecodeInfo(EncodeInfo(i)) == i
    ensures EncodeInfo(DecodeInfo(s)) == s[..INFO_REPORT_SIZE]
  {
    U32RoundTrip(0, s[3..7]);
  }

  lemma DwordRoundTrip(d: DwordReport, s: seq<byte>)
    requires |s| >= DWORD_REPORT_SIZE
    ensures DecodeDword(EncodeDword(d)) == d
    ensures EncodeDword(DecodeDword(s)) == s[..DWORD_REPORT_SIZE]
  {
    U32RoundTrip(0, s[2..6]);
  }

  /** The control codes are pairwise distinct, the error sentinel differs
   *  from all of them, and the two report ids differ. */
  lemma CodesDistinct()
    ensures |{CODE_MOVE, CODE_INFO, CODE_CLEAR_QUEUE, CODE_INTERVAL, CODE_QUEUE_SIZE}| == 5
    ensures CODE_ERROR !in {CODE_MOVE, CODE_INFO, CODE_CLEAR_QUEUE, CODE_INTERVAL, CODE_QUEUE_SIZE}
    ensures POINTER_REPORT_ID != CONTROL_REPORT_ID
  {
  }
}
