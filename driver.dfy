/** `struct mcba_priv` as an object: its fields are updated in place by
    the driver's handlers as in the C code, the transmit contexts are a
    fixed array, and every method is proved to leave the object in the
    state the corresponding function of `Transmit`, `Receive` or
    `DriverState` describes. */
module Driver {
  import opened Wire
  import opened TxPool
  import opened BitTiming
  import opened DriverState
  import opened Receive
  import opened Transmit

  class McbaPriv {
    const hdr: Header
    const txContext: array<Ctx>
    var picUsbSwVerMajor: Byte
    var picUsbSwVerMinor: Byte
    var picCanSwVerMajor: Byte
    var picCanSwVerMinor: Byte
    var terminationState: Byte
    var txErr: Byte
    var rxErr: Byte
    var rxPackets: nat
    var rxBytes: nat
    var txPackets: nat
    var txBytes: nat
    var txDropped: nat
    var queueStopped: bool
    var present: bool
    var bittiming: CanBittiming
    var log: seq<Event>

    /** The object's fields as a value. */
    function State(): Priv
      reads this, txContext
    {
      Priv(txContext[..], picUsbSwVerMajor, picUsbSwVerMinor, picCanSwVerMajor, picCanSwVerMinor,
           terminationState, txErr, rxErr, rxPackets, rxBytes, txPackets, txBytes, txDropped,
           queueStopped, present, bittiming, log)
    }

    /** The header is consistent, the pool has `MCBA_MAX_TX_URBS` slots,
        and each slot is free or tagged with its own index. */
    ghost predicate Valid()
      reads this, txContext
    {
      && hdr.Valid()
      && txContext.Length == hdr.maxTxUrbs
      && WellFormed(txContext[..], hdr.ctxFree)
    }

    /** The adapter as `mcba_usb_probe` leaves it before the pool is
        initialised: zeroed memory from `alloc_candev`, both firmware
        versions `MCBA_VER_UNDEFINED`, the device present. */
    constructor (h: Header)
      ensures hdr == h && fresh(txContext) && txContext.Length == h.maxTxUrbs
      ensures forall i :: 0 <= i < txContext.Length ==> txContext[i] == Ctx(0, false, 0, false)
      ensures picUsbSwVerMajor == h.verUndefined && picUsbSwVerMinor == h.verUndefined
      ensures picCanSwVerMajor == h.verUndefined && picCanSwVerMinor == h.verUndefined
      ensures terminationState == 0 && txErr == 0 && rxErr == 0
      ensures rxPackets == 0 && rxBytes == 0 && txPackets == 0 && txBytes == 0 && txDropped == 0
      ensures !queueStopped && present && log == []
      ensures bittiming == CanBittiming(0, 0, 0, 0, 0, 0, 0, 0)
    {
      hdr := h;
      txContext := new Ctx[h.maxTxUrbs](_ => Ctx(0, false, 0, false));
      picUsbSwVerMajor, picUsbSwVerMinor := h.verUndefined, h.verUndefined;
      picCanSwVerMajor, picCanSwVerMinor := h.verUndefined, h.verUndefined;
      terminationState, txErr, rxErr := 0, 0, 0;
      rxPackets, rxBytes, txPackets, txBytes, txDropped := 0, 0, 0, 0, 0;
      queueStopped, present := false, true;
      bittiming := CanBittiming(0, 0, 0, 0, 0, 0, 0, 0);
      log := [];
    }

    /** `mcba_init_ctx`: every slot marked free, which makes the pool valid. */
    method InitCtx()
      requires hdr.Valid() && txContext.Length == hdr.maxTxUrbs
      modifies txContext
      ensures txContext[..] == Reset(old(txContext[..]), hdr.ctxFree)
      ensures Valid() && FreeCount(txContext[..], hdr.ctxFree) == txContext.Length
    {
      var i := 0;
      while i < txContext.Length
        invariant 0 <= i <= txContext.Length
        invariant forall j :: 0 <= j < i ==> txContext[j] == old(txContext[j]).(ndx := hdr.ctxFree)
        invariant forall j :: i <= j < txContext.Length ==> txContext[j] == old(txContext[j])
      {
        txContext[i] := txContext[i].(ndx := hdr.ctxFree);
        i := i + 1;
      }
      ResetAllFree(old(txContext[..]), hdr.ctxFree);
    }

    /** `mcba_usb_get_free_ctx`: the index of the taken slot, or `None`. */
    method GetFreeCtx() returns (slot: Option<nat>)
      modifies txContext
      ensures (txContext[..], slot) == Acquire(old(txContext[..]), hdr.ctxFree)
      ensures State() == old(State()).(txContext := txContext[..])
    {
      var i := 0;
      while i < txContext.Length
        invariant 0 <= i <= txContext.Length
        invariant forall j :: 0 <= j < i ==> txContext[j].ndx != hdr.ctxFree
        invariant FirstFreeFrom(txContext[..], hdr.ctxFree, i) == FirstFree(txContext[..], hdr.ctxFree)
        invariant txContext[..] == old(txContext[..])
      {
        if txContext[i].ndx == hdr.ctxFree {
          txContext[i] := txContext[i].(ndx := i, owned := true);
          return Some(i);
        }
        i := i + 1;
      }
      return None;
    }

    /** `mcba_usb_free_ctx`. */
    method FreeCtx(k: nat)
      requires k < txContext.Length
      modifies txContext
      ensures State() == old(State()).(txContext := Release(old(txContext[..]), k, hdr.ctxFree))
    {
      txContext[k] := Ctx(hdr.ctxFree, false, 0, false);
    }

    /** `mcba_usb_xmit`; `withSkb` says whether a frame is supplied. */
    method Xmit(msg: TxMsg, withSkb: bool, usb: UsbStep) returns (st: TxStatus)
      requires Valid() && (withSkb ==> msg.CanTx?)
      modifies this, txContext
      ensures (State(), st) == Transmit.Xmit(hdr, old(State()), msg, withSkb, usb)
      ensures Valid()
    {
      var slot := GetFreeCtx();
      if slot.None? {
        queueStopped := true;
        return TxBusy;
      }
      var k := slot.value;
      TagCtx(k, msg, withSkb);
      Submit(k, msg, withSkb, usb);
      return TxOk;
    }

    /** The slot remembers whether it carries a frame, and a frame's dlc
        byte, and the frame is handed to the echo queue under the slot's tag. */
    method TagCtx(k: nat, msg: TxMsg, withSkb: bool)
      requires k < txContext.Length && txContext[k].ndx == k && (withSkb ==> msg.CanTx?)
      modifies this, txContext
      ensures State() == Tag(old(State()), k, msg, withSkb)
    {
      if withSkb {
        txContext[k] := txContext[k].(dlc := msg.frame.dlc, can := true);
        log := log + [EchoPut(txContext[k].ndx)];
      } else {
        txContext[k] := txContext[k].(can := false);
      }
    }

    /** The transfer on slot `k` is handed to USB. */
    method Submit(k: nat, msg: TxMsg, withSkb: bool, usb: UsbStep)
      modifies this
      ensures State() == Submitted(old(State()), k, msg, withSkb, usb)
    {
      if usb.SubmitOk? {
        Emit(UrbSubmitted(k, msg));
      } else {
        DropTransfer(k, withSkb, usb);
      }
    }

    /** The failure path of `mcba_usb_xmit`: a `-ENODEV` detaches the
        device, the echo slot and the frame are freed, the drop is counted. */
    method DropTransfer(k: nat, withSkb: bool, usb: UsbStep)
      modifies this
      ensures State() == old(State()).(present := old(present) && usb != SubmitFailed(-ENODEV),
                                       txDropped := old(txDropped) + 1,
                                       log := old(log) + [EchoFree(k)] + (if withSkb then [SkbFreed] else []))
    {
      if usb == SubmitFailed(-ENODEV) {
        present := false;
      }
      log := log + [EchoFree(k)] + (if withSkb then [SkbFreed] else []);
      txDropped := txDropped + 1;
    }

    /** `mcba_usb_start_xmit`. */
    method StartXmit(cf: CanFrame, usb: UsbStep) returns (st: TxStatus)
      requires Valid()
      modifies this, txContext
      ensures (State(), st) == Transmit.StartXmit(hdr, old(State()), cf, usb)
      ensures Valid()
    {
      st := Xmit(EncodeCanTx(hdr, cf), true, usb);
    }

    /** `mcba_usb_xmit_cmd`. */
    method XmitCmd(msg: TxMsg, usb: UsbStep)
      requires Valid()
      modifies this, txContext
      ensures State() == Transmit.XmitCmd(hdr, old(State()), msg, usb)
      ensures Valid()
    {
      var _ := Xmit(msg, false, usb);
    }

    /** `mcba_usb_xmit_change_bitrate`. */
    method XmitChangeBitrate(bitrate: U16, usb: UsbStep)
      requires Valid()
      modifies this, txContext
      ensures State() == Transmit.XmitChangeBitrate(hdr, old(State()), bitrate, usb)
      ensures Valid()
    {
      XmitCmd(ChangeBitrateMsg(hdr, bitrate), usb);
    }

    /** `mcba_usb_xmit_read_fw_ver`. */
    method XmitReadFwVer(pic: Byte, usb: UsbStep)
      requires Valid()
      modifies this, txContext
      ensures State() == Transmit.XmitReadFwVer(hdr, old(State()), pic, usb)
      ensures Valid()
    {
      XmitCmd(ReadFwVer(hdr.cmdReadFwVersion, pic), usb);
    }

    /** `mcba_usb_xmit_termination`. */
    method XmitTermination(termination: Byte, usb: UsbStep)
      requires Valid()
      modifies this, txContext
      ensures State() == Transmit.XmitTermination(hdr, old(State()), termination, usb)
      ensures Valid()
    {
      XmitCmd(Termination(hdr.cmdSetupTermination, termination), usb);
    }

    /** `mcba_usb_write_bulk_callback` for the transfer on slot `k`. */
    method WriteBulkCallback(k: nat)
      requires Valid() && k < txContext.Length
      modifies this, txContext
      ensures State() == WriteDone(hdr, old(State()), k)
      ensures Valid()
    {
      var ctx := txContext[k];
      if ctx.can && !present {
        return;
      }
      if ctx.can {
        CountEcho(ctx);
      }
      FreeCtx(k);
    }

    /** The statistics and echo part of the write completion of a frame. */
    method CountEcho(ctx: Ctx)
      modifies this
      ensures State() == old(State()).(txPackets := old(txPackets) + 1,
                                       txBytes := old(txBytes) + ctx.dlc as int,
                                       log := old(log) + [EchoGet(ctx.ndx)],
                                       queueStopped := false)
    {
      txPackets := txPackets + 1;
      txBytes := txBytes + ctx.dlc as int;
      log := log + [EchoGet(ctx.ndx)];
      queueStopped := false;
    }

    /** `mcba_usb_process_can`; `allocOk` is whether `alloc_can_skb` succeeded. */
    method ProcessCan(m: CanMsg, allocOk: bool)
      modifies this
      ensures State() == DriverState.ProcessCan(hdr, old(State()), m, allocOk)
    {
      if !allocOk {
        return;
      }
      var cf := RxFrame(hdr, m);
      CountRx(cf.dlc);
      Emit(FrameReceived(cf));
    }

    /** One more received frame of `dlc` bytes in the interface statistics. */
    method CountRx(dlc: Byte)
      modifies this
      ensures State() == old(State()).(rxPackets := old(rxPackets) + 1, rxBytes := old(rxBytes) + dlc as int)
    {
      rxPackets := rxPackets + 1;
      rxBytes := rxBytes + dlc as int;
    }

    /** `mcba_usb_process_keep_alive_usb`. */
    method ProcessKeepAliveUsb(m: KeepAliveUsb)
      modifies this
      ensures State() == KeepAliveUsbStep(hdr, old(State()), m)
    {
      if picUsbSwVerMajor == hdr.verUndefined && picUsbSwVerMinor == hdr.verUndefined {
        Emit(UsbVersionSeen(m.softVerMajor, m.softVerMinor));
      }
      SetUsbState(m);
    }

    /** The USB-side version and the termination state the keep-alive reports. */
    method SetUsbState(m: KeepAliveUsb)
      modifies this
      ensures State() == old(State()).(picUsbSwVerMajor := m.softVerMajor, picUsbSwVerMinor := m.softVerMinor,
                                       terminationState := m.terminationState)
    {
      picUsbSwVerMajor, picUsbSwVerMinor := m.softVerMajor, m.softVerMinor;
      terminationState := m.terminationState;
    }

    /** `mcba_usb_process_keep_alive_can`. */
    method ProcessKeepAliveCan(m: KeepAliveCan)
      modifies this
      ensures State() == KeepAliveCanStep(hdr, old(State()), m)
    {
      if picCanSwVerMajor == hdr.verUndefined && picCanSwVerMinor == hdr.verUndefined {
        Emit(CanVersionSeen(m.softVerMajor, m.softVerMinor));
      }
      SetCanState(m);
    }

    /** The error counters and the CAN-side version the keep-alive reports. */
    method SetCanState(m: KeepAliveCan)
      modifies this
      ensures State() == old(State()).(txErr := m.txErrCnt, rxErr := m.rxErrCnt,
                                       picCanSwVerMajor := m.softVerMajor, picCanSwVerMinor := m.softVerMinor)
    {
      txErr, rxErr := m.txErrCnt, m.rxErrCnt;
      picCanSwVerMajor, picCanSwVerMinor := m.softVerMajor, m.softVerMinor;
    }

    /** One event handed to the outside. */
    method Emit(e: Event)
      modifies this
      ensures State() == old(State()).(log := old(log) + [e])
    {
      log := log + [e];
    }

    /** `mcba_usb_process_rx`. */
    method ProcessRx(rec: seq<Byte>, allocOk: bool)
      requires |rec| > 0
      modifies this
      ensures State() == Receive.ProcessRx(hdr, old(State()), rec, allocOk)
    {
      var cmd := rec[0];
      if cmd == hdr.cmdAliveFromCan {
        ProcessKeepAliveCan(hdr.decodeKeepAliveCan(rec));
      } else if cmd == hdr.cmdAliveFromUsb {
        ProcessKeepAliveUsb(hdr.decodeKeepAliveUsb(rec));
      } else if cmd == hdr.cmdReceiveMessage {
        ProcessCan(hdr.decodeCan(rec), allocOk);
      } else if cmd == hdr.cmdNothingToSend || cmd == hdr.cmdTransmitMessageRsp {
      } else {
        Emit(UnsupportedMsg(cmd));
      }
    }

    /** `mcba_usb_read_bulk_callback` for a read of `data` (the first
        `actual_length` bytes of the buffer) with completion `status`;
        `allocOk(i)` is whether the skb for record `i` can be allocated and
        `resubmitErr` what resubmitting the read returns. */
    method ReadBulkCallback(status: int, data: seq<Byte>, allocOk: nat -> bool, resubmitErr: int)
      requires hdr.Valid()
      modifies this
      ensures State() == ReadCallback(hdr, old(State()), status, data, allocOk, resubmitErr)
      ensures old(Valid()) ==> Valid()
    {
      if !present {
        return;
      }
      if status == -ENOENT || status == -ESHUTDOWN {
        return;
      }
      if status == 0 {
        ParseRecords(data, allocOk);
      }
      if resubmitErr == -ENODEV {
        present := false;
      }
    }

    /** The parse loop of `mcba_usb_read_bulk_callback`: whole records
        are dispatched in order; a partial record ends the loop with a
        format error. */
    method ParseRecords(data: seq<Byte>, allocOk: nat -> bool)
      requires hdr.msgSize > 0
      modifies this
      ensures State() == ParseBuffer(hdr, old(State()), data, allocOk)
    {
      var size := hdr.msgSize;
      ghost var p0 := State();
      ghost var recs := Records(data, size);
      var pos, j := 0, 0;
      while pos < |data|
        invariant pos == j * size && pos <= |data| && j <= |recs|
        invariant State() == ApplyRecords(hdr, p0, recs[..j], allocOk)
        decreases |data| - pos
      {
        if pos + size > |data| {
          ParseEnd(hdr, p0, data, allocOk, j, State());
          Emit(FormatError);
          return;
        }
        ghost var s := State();
        ProcessRx(data[pos..pos + size], allocOk(j));
        ApplyNext(hdr, p0, data, allocOk, j, s, State());
        pos := pos + size;
        j := j + 1;
      }
      ParseEnd(hdr, p0, data, allocOk, j, State());
    }

    /** `mcba_net_set_bittiming` on the requested `bt->bitrate`. */
    method SetBittiming(usb: UsbStep) returns (err: int)
      requires Valid() && ClockFitsTable(hdr.canClock)
      modifies this, txContext
      ensures (State(), err) == SetBittimingOp(hdr, old(State()), usb)
      ensures Valid()
    {
      match BitTiming.SetBittiming(hdr, bittiming.bitrate)
      case Unsupported =>
        return -EINVAL;
      case Applied(bt, kbps) =>
        bittiming := bt;
        XmitChangeBitrate(kbps, usb);
        return 0;
    }

    /** `mcba_net_get_berr_counter`. */
    method GetBerrCounter() returns (txerr: Byte, rxerr: Byte)
      ensures txerr == txErr && rxerr == rxErr
    {
      txerr, rxerr := txErr, rxErr;
    }

    /** `termination_store` with the byte `sscanf` parsed. */
    method TerminationStore(v: Byte, count: nat, usb: UsbStep) returns (n: nat)
      requires Valid()
      modifies this, txContext
      ensures (State(), n) == Transmit.TerminationStore(hdr, old(State()), v, count, usb)
      ensures Valid()
    {
      if v == 0 || v == 1 {
        terminationState := v;
        XmitTermination(terminationState, usb);
      }
      return count;
    }
  }
}
