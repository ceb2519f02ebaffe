/** Build-time constants of the minidriver, the Plug and Play state
 *  enumeration with its single saved previous state, and the sizes of the
 *  HID structures the driver fills in. */
module AemConfig {
  import opened Types

  /** The shipped build reports relative motion. */
  const RELATIVE_MOTION_BUILD: bool := true

  /** Poll interval, in microseconds. */
  const DEFAULT_MESSAGE_CHECK_INTERVAL: uint32 := 8000
  const MINIMAL_MESSAGE_CHECK_INTERVAL: uint32 := 5000

  /** Slots of the move-report ring. */
  const QUEUE_SIZE: nat := 1024

  /** Payload bytes of one input report (the report id is extra). */
  function InputReportSize(relative: bool): nat {
    if relative then 0x3 else 0x5
  }

  /** `sizeof(HID_DESCRIPTOR)`: bLength, bDescriptorType, bcdHID (2), bCountry,
   *  bNumDescriptors, then one (bReportType, wReportLength (2)) entry. */
  const HID_DESCRIPTOR_SIZE: nat := 9
  /** Offset of `DescriptorList[0].wReportLength` inside HID_DESCRIPTOR. */
  const REPORT_LENGTH_OFFSET: nat := 7

  /** `sizeof(HID_DEVICE_ATTRIBUTES)`: Size (4), VendorID, ProductID,
   *  VersionNumber (2 each), Reserved[11] (22). */
  const HID_DEVICE_ATTRIBUTES_SIZE: nat := 32
  const PRODUCT_ID: uint16 := 0xDEAD
  const VENDOR_ID: uint16 := 0xF00D
  const VERSION: uint16 := 0x0102

  /** The default interval already satisfies the set-interval floor. */
  lemma DefaultIntervalMeetsFloor()
    ensures DEFAULT_MESSAGE_CHECK_INTERVAL >= MINIMAL_MESSAGE_CHECK_INTERVAL
  {
  }

  datatype PnpState =
    | NotStarted
    | Started
    | StopPending
    | Stopped
    | RemovePending
    | SurpriseRemovePending
    | Deleted

  /** `DevicePnPState` together with `PreviousPnPState`. */
  datatype PnpRecord = PnpRecord(current: PnpState, previous: PnpState)

  /** SET_NEW_PNP_STATE: remember the current state, then enter the new one. */
  function SetNewPnpState(r: PnpRecord, s: PnpState): PnpRecord {
    PnpRecord(s, r.current)
  }

  /** RESTORE_PREVIOUS_PNP_STATE: go back to the remembered state; the
   *  remembered state itself is kept. */
  function RestorePreviousPnpState(r: PnpRecord): PnpRecord {
    PnpRecord(r.previous, r.previous)
  }

  /** Entering any state and then restoring returns to where the device was. */
  lemma SetThenRestore(r: PnpRecord, s: PnpState)
    ensures RestorePreviousPnpState(SetNewPnpState(r, s)).current == r.current
  {
  }

  /** Restoring twice is the same as restoring once. */
  lemma RestoreIdempotent(r: PnpRecord)
    ensures RestorePreviousPnpState(RestorePreviousPnpState(r)) == RestorePreviousPnpState(r)
  {
  }

  /** Only one level of undo exists: after two nested transitions, two
   *  restores land on the first transition's state, not on the original. */
  lemma OneLevelOfUndo(r: PnpRecord, first: PnpState, second: PnpState)
    ensures var nested := SetNewPnpState(SetNewPnpState(r, first), second);
            RestorePreviousPnpState(RestorePreviousPnpState(nested)).current == first
  {
  }
}
