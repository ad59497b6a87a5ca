/** Wire format of the Microchip CAN BUS Analyzer USB protocol: byte-sized
    integer types, the constants and bit-packing macros the driver takes from
    its header (kept uninterpreted: they are fields of `Header`), the views of
    the fixed-size protocol records, and the encoders of the outbound commands. */
module Wire {

  /** `u8` and `u16` of the C source. */
  type Byte = bv8
  type U16 = bv16

  /** Eight payload bytes of a CAN frame (`u8 data[8]`). */
  type Payload = s: seq<Byte> | |s| == 8 witness [0, 0, 0, 0, 0, 0, 0, 0]

  datatype Option<T> = None | Some(value: T)

  /** Linux error numbers the driver compares against (errno-base.h / errno.h). */
  const ENOENT := 2
  const ENODEV := 19
  const EINVAL := 22
  const ESHUTDOWN := 108

  /** C `u32`, and the unsigned wrap-around of a `u32` computation. */
  const U32_MOD := 0x1_0000_0000
  type U32 = x: int | 0 <= x < U32_MOD

  function Wrap32(x: int): (r: U32)
    ensures 0 <= x < U32_MOD ==> r == x
    ensures r == x % U32_MOD
  {
    if 0 <= x < U32_MOD then x else x % U32_MOD
  }

  /** `struct can_frame` of the host CAN stack: identifier with its flag
      bits, the dlc byte and eight data bytes. */
  datatype CanFrame = CanFrame(canId: bv32, dlc: Byte, data: Payload)

  /** The fields of `struct mcba_usb_msg_can` the driver reads or writes;
      the same layout carries inbound frames and outbound transmit commands. */
  datatype CanMsg = CanMsg(sidh: Byte, sidl: Byte, eidh: Byte, eidl: Byte, dlc: Byte, data: Payload)

  /** The fields of the keep-alive report of the USB-side controller the driver uses. */
  datatype KeepAliveUsb = KeepAliveUsb(terminationState: Byte, softVerMajor: Byte, softVerMinor: Byte)

  /** The fields of the keep-alive report of the CAN-side controller the driver uses. */
  datatype KeepAliveCan = KeepAliveCan(txErrCnt: Byte, rxErrCnt: Byte, softVerMajor: Byte, softVerMinor: Byte)

  /** An outbound message, as the driver fills it before handing it to the
      transmit path. */
  datatype TxMsg =
    | CanTx(cmdId: Byte, frame: CanMsg)
    | ChangeBitrate(cmdId: Byte, bitrateHi: Byte, bitrateLo: Byte)
    | ReadFwVer(cmdId: Byte, pic: Byte)
    | Termination(cmdId: Byte, termination: Byte)

  /** What the driver takes from mcba_usb.h: command ids, record size, masks,
      pool constants, the bitrate codes of the 18 `MCBA_BITRATE_*` cases in
      switch order, and the id-packing and record-layout macros. */
  datatype Header = Header(
    cmdReceiveMessage: Byte,
    cmdTransmitMessageEv: Byte,
    cmdTransmitMessageRsp: Byte,
    cmdAliveFromCan: Byte,
    cmdAliveFromUsb: Byte,
    cmdNothingToSend: Byte,
    cmdChangeBitRate: Byte,
    cmdReadFwVersion: Byte,
    cmdSetupTermination: Byte,
    msgSize: nat,
    dlcMask: Byte,
    dlcRtrMask: Byte,
    canRtrMask: bv32,
    verUndefined: Byte,
    verReqUsb: Byte,
    verReqCan: Byte,
    canClock: nat,
    maxTxUrbs: nat,
    ctxFree: int,
    bitrates: seq<nat>,
    decodeCan: seq<Byte> -> CanMsg,
    decodeKeepAliveUsb: seq<Byte> -> KeepAliveUsb,
    decodeKeepAliveCan: seq<Byte> -> KeepAliveCan,
    rxIsExid: CanMsg -> bool,
    rxIsRtr: CanMsg -> bool,
    getEid: CanMsg -> bv32,
    getSid: CanMsg -> bv32,
    txIsExid: bv32 -> bool,
    txIsRtr: bv32 -> bool,
    setESidl: bv32 -> Byte,
    setESidh: bv32 -> Byte,
    setEidl: bv32 -> Byte,
    setEidh: bv32 -> Byte,
    setSSidl: bv32 -> Byte,
    setSSidh: bv32 -> Byte)
  {
    /** What C itself guarantees of these constants: the labels of the
        receive switch differ, a record is at least its command byte, the
        bitrate switch has 18 distinct labels, and the clock divisor
        `MCBA_CAN_CLOCK / 1000000` is not zero; and what the pool needs:
        the free marker is not a slot index. */
    predicate Valid() {
      && cmdAliveFromCan != cmdAliveFromUsb
      && cmdAliveFromCan != cmdReceiveMessage
      && cmdAliveFromCan != cmdNothingToSend
      && cmdAliveFromCan != cmdTransmitMessageRsp
      && cmdAliveFromUsb != cmdReceiveMessage
      && cmdAliveFromUsb != cmdNothingToSend
      && cmdAliveFromUsb != cmdTransmitMessageRsp
      && cmdReceiveMessage != cmdNothingToSend
      && cmdReceiveMessage != cmdTransmitMessageRsp
      && cmdNothingToSend != cmdTransmitMessageRsp
      && msgSize >= 1
      && |bitrates| == 18
      && Distinct(bitrates)
      && canClock >= 1000000
      && (ctxFree < 0 || ctxFree >= maxTxUrbs)
    }
  }

  predicate Distinct(s: seq<nat>) {
    forall i, j :: 0 <= i < j < |s| ==> s[i] != s[j]
  }

  /** High byte of the change-bitrate command: `(0xff00 & bitrate) >> 8`. */
  function BitrateHi(v: U16): (hi: Byte)
    ensures hi as U16 == v / 0x100
  {
    ((0xff00 & v) >> 8) as Byte
  }

  /** Low byte of the change-bitrate command: `0xff & bitrate`. */
  function BitrateLo(v: U16): (lo: Byte)
    ensures lo as U16 == v % 0x100
  {
    (0xff & v) as Byte
  }

  /** The 16-bit value the device reads back from the two bytes, high byte first. */
  function BitrateValue(hi: Byte, lo: Byte): U16 {
    (hi as U16) * 0x100 + (lo as U16)
  }

  /** `mcba_usb_xmit_change_bitrate`: the command with the value split big-endian. */
  function ChangeBitrateMsg(h: Header, v: U16): (m: TxMsg)
    ensures m.ChangeBitrate? && m.cmdId == h.cmdChangeBitRate
    ensures BitrateValue(m.bitrateHi, m.bitrateLo) == v
  {
    ChangeBitrate(h.cmdChangeBitRate, BitrateHi(v), BitrateLo(v))
  }

  /** The split is a bijection on 16-bit values: every byte pair is the
      encoding of exactly the value it denotes. */
  lemma ChangeBitrateBytesRoundTrip(h: Header, hi: Byte, lo: Byte)
    ensures ChangeBitrateMsg(h, BitrateValue(hi, lo)) == ChangeBitrate(h.cmdChangeBitRate, hi, lo)
  {
  }

  /** `mcba_usb_xmit_read_fw_ver`. */
  function ReadFwVerMsg(h: Header, pic: Byte): (m: TxMsg)
    ensures m.ReadFwVer? && m.cmdId == h.cmdReadFwVersion && m.pic == pic
  {
    ReadFwVer(h.cmdReadFwVersion, pic)
  }

  /** `mcba_usb_xmit_termination`. */
  function TerminationMsg(h: Header, termination: Byte): (m: TxMsg)
    ensures m.Termination? && m.cmdId == h.cmdSetupTermination && m.termination == termination
  {
    Termination(h.cmdSetupTermination, termination)
  }

  /** Field layout of `mcba_usb_start_xmit`: the transmit command carries the
      frame's data, the identifier packed by the extended or the standard
      macros (zero extended bytes for a standard id), and the frame's dlc
      byte with the RTR bit of the header or-ed in for a remote request. */
  function EncodeCanTx(h: Header, cf: CanFrame): (m: TxMsg)
    ensures m.CanTx? && m.cmdId == h.cmdTransmitMessageEv
    ensures m.frame.data == cf.data
    ensures h.txIsExid(cf.canId) ==>
              m.frame.sidl == h.setESidl(cf.canId) && m.frame.sidh == h.setESidh(cf.canId) &&
              m.frame.eidl == h.setEidl(cf.canId) && m.frame.eidh == h.setEidh(cf.canId)
    ensures !h.txIsExid(cf.canId) ==>
              m.frame.sidl == h.setSSidl(cf.canId) && m.frame.sidh == h.setSSidh(cf.canId) &&
              m.frame.eidl == 0 && m.frame.eidh == 0
    ensures m.frame.dlc == TxDlc(h, cf)
  {
    var id := cf.canId;
    var ext := h.txIsExid(id);
    var sidl := if ext then h.setESidl(id) else h.setSSidl(id);
    var sidh := if ext then h.setESidh(id) else h.setSSidh(id);
    var eidl := if ext then h.setEidl(id) else 0;
    var eidh := if ext then h.setEidh(id) else 0;
    CanTx(h.cmdTransmitMessageEv, CanMsg(sidh, sidl, eidh, eidl, TxDlc(h, cf), cf.data))
  }

  /** The dlc byte of the transmit command: the frame's dlc, with the
      device's RTR bit set for a remote request and every other bit kept. */
  function TxDlc(h: Header, cf: CanFrame): (dlc: Byte)
    ensures h.txIsRtr(cf.canId) ==>
              dlc & h.dlcRtrMask == h.dlcRtrMask && dlc & !h.dlcRtrMask == cf.dlc & !h.dlcRtrMask
    ensures !h.txIsRtr(cf.canId) ==> dlc == cf.dlc
  {
    if h.txIsRtr(cf.canId) then cf.dlc | h.dlcRtrMask else cf.dlc
  }
}
