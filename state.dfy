/** The per-adapter state `struct mcba_priv` as a value, the events the
    driver hands to the outside (echo-skb calls, `netif_rx`, submitted
    transfers, notices and warnings), and the handlers of the device state
    tracker: the CAN-frame receive handler and the two keep-alive handlers. */
module DriverState {
  import opened Wire
  import opened TxPool
  import opened BitTiming

  /** An observable effect of the driver. */
  datatype Event =
    | UsbVersionSeen(major: Byte, minor: Byte)   // "PIC USB version" notice
    | CanVersionSeen(major: Byte, minor: Byte)   // "PIC CAN version" notice
    | FrameReceived(frame: CanFrame)             // netif_rx
    | UnsupportedMsg(cmdId: Byte)                // "Unsupported msg" warning
    | FormatError                                // "format error"
    | EchoPut(ndx: int)                          // can_put_echo_skb
    | EchoGet(ndx: int)                          // can_get_echo_skb
    | EchoFree(ndx: int)                         // can_free_echo_skb
    | SkbFreed                                   // dev_kfree_skb of a frame
    | UrbSubmitted(ndx: int, msg: TxMsg)         // a write transfer handed to USB

  /** The fields of `struct mcba_priv` and of its net device the core reads
      or writes: the transmit contexts, the firmware versions, termination,
      the error counters `bec`, the interface statistics, whether the queue
      is stopped and the device present, the bit timing, and the events. */
  datatype Priv = Priv(
    txContext: seq<Ctx>,
    picUsbSwVerMajor: Byte,
    picUsbSwVerMinor: Byte,
    picCanSwVerMajor: Byte,
    picCanSwVerMinor: Byte,
    terminationState: Byte,
    txErr: Byte,
    rxErr: Byte,
    rxPackets: nat,
    rxBytes: nat,
    txPackets: nat,
    txBytes: nat,
    txDropped: nat,
    queueStopped: bool,
    present: bool,
    bittiming: CanBittiming,
    log: seq<Event>)

  /** Everything but the event log is the same. */
  predicate SameButLog(p: Priv, q: Priv) {
    p.(log := q.log) == q
  }

  /** Number of payload bytes `memcpy` can place in the 8-byte `cf->data`. */
  function CopyLen(dlc: Byte): (k: nat)
    ensures k <= 8
    ensures dlc <= 8 ==> k == dlc as int
    ensures dlc > 8 ==> k == 8
  {
    if dlc < 8 then dlc as int else 8
  }

  /** The frame `mcba_usb_process_can` builds from an inbound record: the
      extended or standard id (by the header's macros) with the host RTR
      flag or-ed in for a remote request, the dlc byte masked by
      `MCBA_DLC_MASK`, and that many payload bytes after a zeroed frame. */
  function RxFrame(h: Header, m: CanMsg): (cf: CanFrame)
    ensures cf.dlc == m.dlc & h.dlcMask
    ensures h.rxIsRtr(m) ==> cf.canId == RxBaseId(h, m) | h.canRtrMask
    ensures !h.rxIsRtr(m) ==> cf.canId == RxBaseId(h, m)
    ensures forall i :: 0 <= i < CopyLen(cf.dlc) ==> cf.data[i] == m.data[i]
    ensures forall i :: CopyLen(cf.dlc) <= i < 8 ==> cf.data[i] == 0
  {
    var dlc := m.dlc & h.dlcMask;
    CanFrame(RxId(h, m), dlc, RxData(m.data, CopyLen(dlc)))
  }

  /** The identifier of an inbound record, by the extended or the standard macro. */
  function RxBaseId(h: Header, m: CanMsg): bv32 {
    if h.rxIsExid(m) then h.getEid(m) else h.getSid(m)
  }

  /** The host identifier: the RTR flag or-ed in for a remote request. */
  function RxId(h: Header, m: CanMsg): bv32 {
    if h.rxIsRtr(m) then RxBaseId(h, m) | h.canRtrMask else RxBaseId(h, m)
  }

  /** The first `k` bytes of `data` over a zeroed payload. */
  function RxData(data: Payload, k: nat): (r: Payload)
    requires k <= 8
    ensures forall i :: 0 <= i < k ==> r[i] == data[i]
    ensures forall i :: k <= i < 8 ==> r[i] == 0
  {
    data[..k] + seq(8 - k, _ => 0)
  }

  /** `mcba_usb_process_can`; `skbOk` is whether `alloc_can_skb` succeeded. */
  function ProcessCan(h: Header, p: Priv, m: CanMsg, skbOk: bool): (r: Priv)
    ensures !skbOk ==> r == p
    ensures skbOk ==>
      && r.rxPackets == p.rxPackets + 1
      && r.rxBytes == p.rxBytes + (m.dlc & h.dlcMask) as int
      && r.log == p.log + [FrameReceived(RxFrame(h, m))]
      && SameButLog(r.(rxPackets := p.rxPackets, rxBytes := p.rxBytes), p)
  {
    if !skbOk then p
    else
      var cf := RxFrame(h, m);
      p.(rxPackets := p.rxPackets + 1,
         rxBytes := p.rxBytes + cf.dlc as int,
         log := p.log + [FrameReceived(cf)])
  }

  /** The USB-side version is still `MCBA_VER_UNDEFINED` in both bytes. */
  predicate UsbVersionUndefined(h: Header, p: Priv) {
    p.picUsbSwVerMajor == h.verUndefined && p.picUsbSwVerMinor == h.verUndefined
  }

  /** The CAN-side version is still `MCBA_VER_UNDEFINED` in both bytes. */
  predicate CanVersionUndefined(h: Header, p: Priv) {
    p.picCanSwVerMajor == h.verUndefined && p.picCanSwVerMinor == h.verUndefined
  }

  /** `mcba_usb_process_keep_alive_usb`: the USB version and termination
      state always follow the report; the version notice is given only
      while the stored version is undefined. */
  function KeepAliveUsbStep(h: Header, p: Priv, m: KeepAliveUsb): (r: Priv)
    ensures r.picUsbSwVerMajor == m.softVerMajor && r.picUsbSwVerMinor == m.softVerMinor
    ensures r.terminationState == m.terminationState
    ensures r.log == p.log + (if UsbVersionUndefined(h, p) then [UsbVersionSeen(m.softVerMajor, m.softVerMinor)] else [])
    ensures r.(picUsbSwVerMajor := p.picUsbSwVerMajor, picUsbSwVerMinor := p.picUsbSwVerMinor,
               terminationState := p.terminationState, log := p.log) == p
  {
    var log := if UsbVersionUndefined(h, p)
      then p.log + [UsbVersionSeen(m.softVerMajor, m.softVerMinor)] else p.log;
    p.(picUsbSwVerMajor := m.softVerMajor,
       picUsbSwVerMinor := m.softVerMinor,
       terminationState := m.terminationState,
       log := log)
  }

  /** `mcba_usb_process_keep_alive_can`: the error counters and the CAN
      version always follow the report; the version notice is given only
      while the stored version is undefined. */
  function KeepAliveCanStep(h: Header, p: Priv, m: KeepAliveCan): (r: Priv)
    ensures r.txErr == m.txErrCnt && r.rxErr == m.rxErrCnt
    ensures r.picCanSwVerMajor == m.softVerMajor && r.picCanSwVerMinor == m.softVerMinor
    ensures r.log == p.log + (if CanVersionUndefined(h, p) then [CanVersionSeen(m.softVerMajor, m.softVerMinor)] else [])
    ensures r.(txErr := p.txErr, rxErr := p.rxErr, picCanSwVerMajor := p.picCanSwVerMajor,
               picCanSwVerMinor := p.picCanSwVerMinor, log := p.log) == p
  {
    var log := if CanVersionUndefined(h, p)
      then p.log + [CanVersionSeen(m.softVerMajor, m.softVerMinor)] else p.log;
    p.(txErr := m.txErrCnt,
       rxErr := m.rxErrCnt,
       picCanSwVerMajor := m.softVerMajor,
       picCanSwVerMinor := m.softVerMinor,
       log := log)
  }
}
