/** The transmit path: `mcba_usb_xmit` over the context pool, its two
    callers (`mcba_usb_start_xmit` for frames, `mcba_usb_xmit_cmd` for
    device commands), the write-completion handler, and the commands built
    on it: bit timing, firmware-version request and bus termination. */
module Transmit {
  import opened Wire
  import opened TxPool
  import opened BitTiming
  import opened DriverState

  /** What the USB core does with one write request: no URB, no coherent
      buffer, a submit error, or an accepted submission. */
  datatype UsbStep = NoUrb | NoBuffer | SubmitFailed(err: int) | SubmitOk

  /** `NETDEV_TX_OK` / `NETDEV_TX_BUSY`. */
  datatype TxStatus = TxOk | TxBusy

  /** No slot of the pool is free. */
  predicate PoolFull(h: Header, p: Priv) {
    forall i :: 0 <= i < |p.txContext| ==> p.txContext[i].ndx != h.ctxFree
  }

  /** What the device reported and the host configured is the same. */
  predicate DeviceSideUnchanged(p: Priv, r: Priv) {
    && r.picUsbSwVerMajor == p.picUsbSwVerMajor && r.picUsbSwVerMinor == p.picUsbSwVerMinor
    && r.picCanSwVerMajor == p.picCanSwVerMajor && r.picCanSwVerMinor == p.picCanSwVerMinor
    && r.terminationState == p.terminationState && r.bittiming == p.bittiming
    && r.txErr == p.txErr && r.rxErr == p.rxErr
    && r.rxPackets == p.rxPackets && r.rxBytes == p.rxBytes
  }

  /** The echo-skb event of a frame transfer on slot `k`. */
  function EchoOf(withSkb: bool, k: nat): seq<Event> {
    if withSkb then [EchoPut(k)] else []
  }

  /** `mcba_usb_xmit` once slot `k` is taken: for a frame the message's
      dlc byte is recorded and the frame becomes the slot's echo skb; then
      the transfer is handed to USB, or on any failure the echo slot and
      the frame are freed and the frame counted as dropped, a `-ENODEV`
      detaching the device. The slot itself is not released. */
  function Send(h: Header, p: Priv, k: nat, msg: TxMsg, withSkb: bool, usb: UsbStep): (r: Priv)
    requires k < |p.txContext|
    requires withSkb ==> msg.CanTx?
    ensures |r.txContext| == |p.txContext|
    ensures forall i :: 0 <= i < |p.txContext| ==> r.txContext[i].ndx == p.txContext[i].ndx
    ensures r.txPackets == p.txPackets && r.txBytes == p.txBytes
    ensures DeviceSideUnchanged(p, r)
  {
    Submitted(Tag(p, k, msg, withSkb), k, msg, withSkb, usb)
  }

  /** The slot records whether it carries a frame and, for a frame, the
      message's dlc byte; the frame becomes the slot's echo skb. */
  function Tag(p: Priv, k: nat, msg: TxMsg, withSkb: bool): (r: Priv)
    requires k < |p.txContext|
    requires withSkb ==> msg.CanTx?
    ensures |r.txContext| == |p.txContext|
    ensures r.txContext[k].ndx == p.txContext[k].ndx && r.txContext[k].owned == p.txContext[k].owned
    ensures r.txContext[k].can == withSkb
    ensures withSkb ==> r.txContext[k].dlc == msg.frame.dlc
    ensures forall i :: 0 <= i < |p.txContext| && i != k ==> r.txContext[i] == p.txContext[i]
    ensures r.log == p.log + EchoOf(withSkb, k)
    ensures r.txPackets == p.txPackets && r.txBytes == p.txBytes
    ensures r.txDropped == p.txDropped && r.present == p.present
    ensures DeviceSideUnchanged(p, r)
  {
    var c := p.txContext[k];
    p.(txContext := p.txContext[k := if withSkb then c.(dlc := msg.frame.dlc, can := true) else c.(can := false)],
       log := p.log + EchoOf(withSkb, k))
  }

  /** The transfer handed to USB; on any failure the echo slot and the
      frame are freed and the frame counted as dropped, a `-ENODEV`
      detaching the device. The slot itself is not released. */
  function Submitted(p: Priv, k: nat, msg: TxMsg, withSkb: bool, usb: UsbStep): (r: Priv)
    ensures r.txContext == p.txContext
    ensures usb.SubmitOk? ==> r.log == p.log + [UrbSubmitted(k, msg)] && r.txDropped == p.txDropped && r.present == p.present
    ensures !usb.SubmitOk? ==>
      && r.log == p.log + [EchoFree(k)] + (if withSkb then [SkbFreed] else [])
      && r.txDropped == p.txDropped + 1
      && r.present == (p.present && usb != SubmitFailed(-ENODEV))
    ensures r.txPackets == p.txPackets && r.txBytes == p.txBytes
    ensures DeviceSideUnchanged(p, r)
  {
    if usb.SubmitOk? then
      p.(log := p.log + [UrbSubmitted(k, msg)])
    else
      p.(present := p.present && usb != SubmitFailed(-ENODEV),
         txDropped := p.txDropped + 1,
         log := p.log + [EchoFree(k)] + (if withSkb then [SkbFreed] else []))
  }

  /** Free counts depend on the tags alone. */
  lemma {:induction false} FreeCountTags(s: seq<Ctx>, t: seq<Ctx>, free: int)
    requires |s| == |t| && forall i :: 0 <= i < |s| ==> s[i].ndx == t[i].ndx
    ensures FreeCount(s, free) == FreeCount(t, free)
  {
    if |s| > 0 {
      FreeCountTags(s[..|s| - 1], t[..|t| - 1], free);
    }
  }

  /** `mcba_usb_xmit`: with no free slot the queue is stopped and the
      caller told to retry; otherwise the lowest free slot is taken and the
      message sent on it, and the caller is told the frame was dealt with
      whatever USB did. */
  function Xmit(h: Header, p: Priv, msg: TxMsg, withSkb: bool, usb: UsbStep): (r: (Priv, TxStatus))
    requires withSkb ==> msg.CanTx?
    ensures r.1 == TxBusy <==> PoolFull(h, p)
    ensures r.1 == TxBusy ==> r.0 == p.(queueStopped := true)
    ensures |r.0.txContext| == |p.txContext|
    ensures WellFormed(p.txContext, h.ctxFree) ==> WellFormed(r.0.txContext, h.ctxFree)
    ensures r.0.txPackets == p.txPackets && r.0.txBytes == p.txBytes
    ensures DeviceSideUnchanged(p, r.0)
  {
    var (s, slot) := Acquire(p.txContext, h.ctxFree);
    match slot
    case None => (p.(queueStopped := true), TxBusy)
    case Some(k) => (Send(h, p.(txContext := s), k, msg, withSkb, usb), TxOk)
  }

  /** Every accepted transmit takes exactly one free slot, whatever USB does. */
  lemma XmitTakesOne(h: Header, p: Priv, msg: TxMsg, withSkb: bool, usb: UsbStep)
    requires withSkb ==> msg.CanTx?
    requires FreeMarker(p.txContext, h.ctxFree)
    ensures var (r, st) := Xmit(h, p, msg, withSkb, usb);
      st == TxOk ==> FreeCount(r.txContext, h.ctxFree) == FreeCount(p.txContext, h.ctxFree) - 1
  {
    var (s, slot) := Acquire(p.txContext, h.ctxFree);
    AcquireTakesOne(p.txContext, h.ctxFree);
    if slot.Some? {
      var r := Send(h, p.(txContext := s), slot.value, msg, withSkb, usb);
      FreeCountTags(r.txContext, s, h.ctxFree);
    }
  }

  /** Whatever USB does, the lowest free slot is tagged and marked as
      carrying a frame exactly when there is one, and a frame's echo skb is
      the first event. */
  lemma XmitTags(h: Header, p: Priv, msg: TxMsg, withSkb: bool, usb: UsbStep)
    requires withSkb ==> msg.CanTx?
    requires !PoolFull(h, p)
    ensures var k := FirstFree(p.txContext, h.ctxFree);
      var (r, st) := Xmit(h, p, msg, withSkb, usb);
      && st == TxOk && k.Some? && k.value < |r.txContext|
      && r.txContext[k.value].ndx == k.value && r.txContext[k.value].can == withSkb
      && (withSkb ==> r.txContext[k.value].dlc == msg.frame.dlc)
      && (withSkb ==> |p.log| < |r.log| && r.log[|p.log|] == EchoPut(k.value))
  {
  }

  /** The transfer is handed to USB on the lowest free slot, now tagged and
      marked as carrying a frame exactly when there is one; the events are
      the echo skb, if any, then the submission; nothing is dropped. */
  lemma XmitSubmits(h: Header, p: Priv, msg: TxMsg, withSkb: bool)
    requires withSkb ==> msg.CanTx?
    requires !PoolFull(h, p)
    ensures var k := FirstFree(p.txContext, h.ctxFree);
      var (r, st) := Xmit(h, p, msg, withSkb, SubmitOk);
      && st == TxOk && k.Some?
      && r.txContext[k.value].ndx == k.value && r.txContext[k.value].can == withSkb
      && (withSkb ==> r.txContext[k.value].dlc == msg.frame.dlc)
      && (forall j :: 0 <= j < |p.txContext| && j != k.value ==> r.txContext[j] == p.txContext[j])
      && r.log == p.log + EchoOf(withSkb, k.value) + [UrbSubmitted(k.value, msg)]
      && r.txDropped == p.txDropped && r.present == p.present
  {
  }

  /** On every failure path the frame is dropped but the slot it took is
      never given back: it stays tagged with its index. The echo slot is
      freed and the frame freed again; only `-ENODEV` detaches. */
  lemma XmitFailureKeepsSlot(h: Header, p: Priv, msg: TxMsg, withSkb: bool, usb: UsbStep)
    requires withSkb ==> msg.CanTx?
    requires !PoolFull(h, p) && !usb.SubmitOk?
    ensures var k := FirstFree(p.txContext, h.ctxFree);
      var (r, st) := Xmit(h, p, msg, withSkb, usb);
      && st == TxOk && k.Some?
      && r.txContext[k.value].ndx == k.value
      && r.txDropped == p.txDropped + 1
      && r.log == p.log + EchoOf(withSkb, k.value) + [EchoFree(k.value)] + (if withSkb then [SkbFreed] else [])
      && r.present == (p.present && usb != SubmitFailed(-ENODEV))
      && r.txPackets == p.txPackets && r.txBytes == p.txBytes
      && (forall j :: 0 <= j < |p.txContext| && j != k.value ==> r.txContext[j] == p.txContext[j])
  {
  }

  /** `mcba_usb_start_xmit`: the frame encoded and sent with its skb. A
      full pool refuses it as busy; otherwise the lowest free slot records
      the command's dlc byte and becomes the frame's echo slot. */
  function StartXmit(h: Header, p: Priv, cf: CanFrame, usb: UsbStep): (r: (Priv, TxStatus))
    ensures r.1 == TxBusy <==> PoolFull(h, p)
    ensures r.1 == TxBusy ==> r.0 == p.(queueStopped := true)
    ensures r.1 == TxOk ==>
      var k := FirstFree(p.txContext, h.ctxFree);
      && k.Some? && k.value < |r.0.txContext|
      && r.0.txContext[k.value].ndx == k.value && r.0.txContext[k.value].can
      && r.0.txContext[k.value].dlc == TxDlc(h, cf)
      && |p.log| < |r.0.log| && r.0.log[|p.log|] == EchoPut(k.value)
  {
    if !PoolFull(h, p) then XmitTags(h, p, EncodeCanTx(h, cf), true, usb); Xmit(h, p, EncodeCanTx(h, cf), true, usb)
    else Xmit(h, p, EncodeCanTx(h, cf), true, usb)
  }

  /** `mcba_usb_xmit_cmd`: a command sent without skb; the status is dropped. */
  function XmitCmd(h: Header, p: Priv, msg: TxMsg, usb: UsbStep): (r: Priv)
    ensures PoolFull(h, p) ==> r == p.(queueStopped := true)
    ensures r.txPackets == p.txPackets && r.txBytes == p.txBytes
    ensures DeviceSideUnchanged(p, r)
  {
    Xmit(h, p, msg, false, usb).0
  }

  /** One write request: the message, whether it carries an skb, and what USB does. */
  datatype Request = Request(msg: TxMsg, withSkb: bool, usb: UsbStep)

  predicate WellTyped(reqs: seq<Request>) {
    forall i :: 0 <= i < |reqs| ==> (reqs[i].withSkb ==> reqs[i].msg.CanTx?)
  }

  /** Requests sent in order, with no completion in between. */
  function XmitAll(h: Header, p: Priv, reqs: seq<Request>): (r: Priv)
    requires WellTyped(reqs)
    ensures |r.txContext| == |p.txContext|
    decreases |reqs|
  {
    if |reqs| == 0 then p
    else
      var n := |reqs| - 1;
      var q := XmitAll(h, p, reqs[..n]);
      Xmit(h, q, reqs[n].msg, reqs[n].withSkb, reqs[n].usb).0
  }

  /** Failed submissions never complete, so their slots never come back:
      as many failures as there are free slots leave the pool full, and
      from then on every transmit, frame or command, is refused as busy. */
  lemma {:induction false} FailuresExhaustPool(h: Header, p: Priv, reqs: seq<Request>)
    requires WellTyped(reqs)
    requires FreeMarker(p.txContext, h.ctxFree) && WellFormed(p.txContext, h.ctxFree)
    requires forall i :: 0 <= i < |reqs| ==> !reqs[i].usb.SubmitOk?
    ensures var r := XmitAll(h, p, reqs);
      var c := FreeCount(p.txContext, h.ctxFree);
      && WellFormed(r.txContext, h.ctxFree)
      && FreeCount(r.txContext, h.ctxFree) == (if |reqs| >= c then 0 else c - |reqs|)
      && (|reqs| >= c ==> PoolFull(h, r))
    decreases |reqs|
  {
    if |reqs| == 0 {
      FreeCountZero(p.txContext, h.ctxFree);
    } else {
      var n := |reqs| - 1;
      var pre := reqs[..n];
      assert forall i :: 0 <= i < n ==> pre[i] == reqs[i];
      FailuresExhaustPool(h, p, pre);
      var q := XmitAll(h, p, pre);
      var (r, st) := Xmit(h, q, reqs[n].msg, reqs[n].withSkb, reqs[n].usb);
      assert XmitAll(h, p, reqs) == r;
      FreeCountZero(q.txContext, h.ctxFree);
      XmitTakesOne(h, q, reqs[n].msg, reqs[n].withSkb, reqs[n].usb);
      FreeCountZero(r.txContext, h.ctxFree);
    }
  }

  /** `mcba_usb_write_bulk_callback` for the transfer on slot `k`: a frame
      transfer completing while the device is absent is dropped on the
      floor, slot and all; otherwise a frame is counted and its echo skb
      looped back, the queue woken, and the slot released. */
  function WriteDone(h: Header, p: Priv, k: nat): (r: Priv)
    requires k < |p.txContext|
    ensures p.txContext[k].can && !p.present ==> r == p
    ensures !(p.txContext[k].can && !p.present) ==> r.txContext == Release(p.txContext, k, h.ctxFree)
    ensures p.txContext[k].can && p.present ==>
      && r.txPackets == p.txPackets + 1
      && r.txBytes == p.txBytes + p.txContext[k].dlc as int
      && r.log == p.log + [EchoGet(p.txContext[k].ndx)]
      && !r.queueStopped
    ensures !p.txContext[k].can ==> r == p.(txContext := Release(p.txContext, k, h.ctxFree))
  {
    var c := p.txContext[k];
    if c.can && !p.present then p
    else
      var q := if c.can then
        p.(txPackets := p.txPackets + 1,
           txBytes := p.txBytes + c.dlc as int,
           log := p.log + [EchoGet(c.ndx)],
           queueStopped := false)
      else p;
      q.(txContext := Release(q.txContext, k, h.ctxFree))
  }

  /** A submitted transfer followed by its completion: the slot is back in
      the pool, freshly cleared, the free count is what it was, a frame is
      counted once with the dlc byte it was sent with, and the events are
      echo put, submission and echo get, in that order. */
  lemma XmitThenComplete(h: Header, p: Priv, msg: TxMsg, withSkb: bool)
    requires withSkb ==> msg.CanTx?
    requires FreeMarker(p.txContext, h.ctxFree) && p.present && !PoolFull(h, p)
    ensures var k := FirstFree(p.txContext, h.ctxFree);
      var (p1, st) := Xmit(h, p, msg, withSkb, SubmitOk);
      && k.Some? && st == TxOk
      && var p2 := WriteDone(h, p1, k.value);
      && p2.txContext == p.txContext[k.value := Ctx(h.ctxFree, false, 0, false)]
      && FreeCount(p2.txContext, h.ctxFree) == FreeCount(p.txContext, h.ctxFree)
      && p2.txPackets == p.txPackets + (if withSkb then 1 else 0)
      && p2.txBytes == p.txBytes + (if withSkb then msg.frame.dlc as int else 0)
      && p2.txDropped == p.txDropped
      && p2.log == p.log + EchoOf(withSkb, k.value) + [UrbSubmitted(k.value, msg)]
                         + (if withSkb then [EchoGet(k.value)] else [])
  {
    var k := FirstFree(p.txContext, h.ctxFree).value;
    var (p1, st) := Xmit(h, p, msg, withSkb, SubmitOk);
    var p2 := WriteDone(h, p1, k);
    assert p2.txContext == p.txContext[k := Ctx(h.ctxFree, false, 0, false)];
    FreeCountUpdate(p.txContext, h.ctxFree, k, Ctx(h.ctxFree, false, 0, false));
  }

  /** A frame sent on a freshly initialised pool of an attached device and
      then completed: it takes slot 0, the slot is free again afterwards,
      the frame is counted once with the dlc byte of its transmit command,
      which is the frame's own dlc unless it is a remote request, and the
      events are echo put, submission and echo get on slot 0. */
  lemma FreshPoolFrameRoundTrip(h: Header, p: Priv, cf: CanFrame)
    requires FreeMarker(p.txContext, h.ctxFree) && p.present && |p.txContext| > 0
    requires forall i :: 0 <= i < |p.txContext| ==> p.txContext[i].ndx == h.ctxFree
    ensures var (p1, st) := StartXmit(h, p, cf, SubmitOk);
      var p2 := WriteDone(h, p1, 0);
      && st == TxOk && FirstFree(p.txContext, h.ctxFree) == Some(0)
      && p2.txContext[0].ndx == h.ctxFree
      && FreeCount(p2.txContext, h.ctxFree) == FreeCount(p.txContext, h.ctxFree)
      && p2.txPackets == p.txPackets + 1
      && p2.txBytes == p.txBytes + TxDlc(h, cf) as int
      && (!h.txIsRtr(cf.canId) ==> p2.txBytes == p.txBytes + cf.dlc as int)
      && p2.log == p.log + [EchoPut(0), UrbSubmitted(0, EncodeCanTx(h, cf)), EchoGet(0)]
  {
    assert p.txContext[0].ndx == h.ctxFree;
    XmitThenComplete(h, p, EncodeCanTx(h, cf), true);
  }

  /** Disjoint bits or-ed into a byte make it strictly larger. */
  lemma OrDisjointGrows(d: Byte, m: Byte)
    requires d & m == 0 && m != 0
    ensures (d | m) as int > d as int
  {
  }

  /** The dlc byte of the transmit command of a remote request exceeds
      the frame's own dlc when the RTR bit is not already part of it. */
  lemma RtrInflatesDlc(h: Header, cf: CanFrame)
    requires h.txIsRtr(cf.canId) && cf.dlc & h.dlcRtrMask == 0 && h.dlcRtrMask != 0
    ensures EncodeCanTx(h, cf).frame.dlc as int > cf.dlc as int
  {
    assert EncodeCanTx(h, cf).frame.dlc == cf.dlc | h.dlcRtrMask;
    OrDisjointGrows(cf.dlc, h.dlcRtrMask);
  }

  /** A frame sent and completed adds to `tx_bytes` the dlc byte of the
      transmit command, which for a remote request carries the device's RTR
      bit: `tx_bytes` then grows by more than the frame's length. */
  lemma StartXmitTxBytes(h: Header, p: Priv, cf: CanFrame)
    requires FreeMarker(p.txContext, h.ctxFree) && p.present && !PoolFull(h, p)
    ensures var (p1, st) := StartXmit(h, p, cf, SubmitOk);
      var k := FirstFree(p.txContext, h.ctxFree).value;
      var p2 := WriteDone(h, p1, k);
      && p2.txPackets == p.txPackets + 1
      && p2.txBytes == p.txBytes + EncodeCanTx(h, cf).frame.dlc as int
      && (h.txIsRtr(cf.canId) && cf.dlc & h.dlcRtrMask == 0 && h.dlcRtrMask != 0 ==>
            p2.txBytes > p.txBytes + cf.dlc as int)
  {
    XmitThenComplete(h, p, EncodeCanTx(h, cf), true);
    if h.txIsRtr(cf.canId) && cf.dlc & h.dlcRtrMask == 0 && h.dlcRtrMask != 0 {
      RtrInflatesDlc(h, cf);
    }
  }

  /** A command on a free slot is submitted as it was built, with no skb,
      and nothing else is recorded. */
  lemma CommandSubmitted(h: Header, p: Priv, msg: TxMsg)
    requires !PoolFull(h, p)
    ensures var k := FirstFree(p.txContext, h.ctxFree).value;
      XmitCmd(h, p, msg, SubmitOk).log == p.log + [UrbSubmitted(k, msg)]
  {
    XmitSubmits(h, p, msg, false);
  }

  /** `mcba_usb_xmit_change_bitrate`: on a free slot the change-bitrate
      command for `bitrate` is submitted; a full pool only stops the queue. */
  function XmitChangeBitrate(h: Header, p: Priv, bitrate: U16, usb: UsbStep): (r: Priv)
    ensures PoolFull(h, p) ==> r == p.(queueStopped := true)
    ensures !PoolFull(h, p) && usb.SubmitOk? ==>
      r.log == p.log + [UrbSubmitted(FirstFree(p.txContext, h.ctxFree).value, ChangeBitrateMsg(h, bitrate))]
  {
    var msg := ChangeBitrateMsg(h, bitrate);
    if !PoolFull(h, p) && usb.SubmitOk? then
      CommandSubmitted(h, p, msg);
      XmitCmd(h, p, msg, usb)
    else XmitCmd(h, p, msg, usb)
  }

  /** `mcba_usb_xmit_read_fw_ver`: on a free slot the firmware-version
      request for controller `pic` is submitted; a full pool only stops the queue. */
  function XmitReadFwVer(h: Header, p: Priv, pic: Byte, usb: UsbStep): (r: Priv)
    ensures PoolFull(h, p) ==> r == p.(queueStopped := true)
    ensures !PoolFull(h, p) && usb.SubmitOk? ==>
      r.log == p.log + [UrbSubmitted(FirstFree(p.txContext, h.ctxFree).value, ReadFwVer(h.cmdReadFwVersion, pic))]
  {
    var msg := ReadFwVerMsg(h, pic);
    if !PoolFull(h, p) && usb.SubmitOk? then
      CommandSubmitted(h, p, msg);
      XmitCmd(h, p, msg, usb)
    else XmitCmd(h, p, msg, usb)
  }

  /** `mcba_usb_xmit_termination`: on a free slot the termination command
      carrying `termination` is submitted; a full pool only stops the queue. */
  function XmitTermination(h: Header, p: Priv, termination: Byte, usb: UsbStep): (r: Priv)
    ensures PoolFull(h, p) ==> r == p.(queueStopped := true)
    ensures !PoolFull(h, p) && usb.SubmitOk? ==>
      r.log == p.log + [UrbSubmitted(FirstFree(p.txContext, h.ctxFree).value, Termination(h.cmdSetupTermination, termination))]
  {
    var msg := TerminationMsg(h, termination);
    if !PoolFull(h, p) && usb.SubmitOk? then
      CommandSubmitted(h, p, msg);
      XmitCmd(h, p, msg, usb)
    else XmitCmd(h, p, msg, usb)
  }

  /** `mcba_net_set_bittiming`: a requested bitrate among the 18 codes
      stores the row's timing and sends the row's kbps value; any other is
      refused with `-EINVAL`, with nothing stored and nothing sent. */
  function SetBittimingOp(h: Header, p: Priv, usb: UsbStep): (r: (Priv, int))
    requires h.Valid() && ClockFitsTable(h.canClock)
    ensures r.1 == 0 <==> p.bittiming.bitrate in h.bitrates
    ensures r.1 != 0 ==> r == (p, -EINVAL)
    ensures r.1 == 0 ==> exists i :: (0 <= i < |Table| && h.bitrates[i] == p.bittiming.bitrate &&
              r.0 == XmitChangeBitrate(h, p.(bittiming := Entry(h.canClock, i)), Table[i].kbps, usb))
  {
    match SetBittiming(h, p.bittiming.bitrate)
    case Unsupported => (p, -EINVAL)
    case Applied(bt, kbps) => (XmitChangeBitrate(h, p.(bittiming := bt), kbps, usb), 0)
  }

  /** Setting a supported bitrate on a free slot sends exactly one
      change-bitrate command whose two bytes spell the row's kbps value,
      and the stored sample point is below 1000 permille. */
  lemma SetBittimingSendsOneCommand(h: Header, p: Priv, i: nat)
    requires h.Valid() && ClockFitsTable(h.canClock) && i < |Table|
    requires p.bittiming.bitrate == h.bitrates[i] && !PoolFull(h, p)
    ensures var (r, err) := SetBittimingOp(h, p, SubmitOk);
      var k := FirstFree(p.txContext, h.ctxFree).value;
      && err == 0
      && |r.log| == |p.log| + 1 && r.log[..|p.log|] == p.log
      && r.log[|p.log|].UrbSubmitted? && r.log[|p.log|].ndx == k
      && r.log[|p.log|].msg.ChangeBitrate? && r.log[|p.log|].msg.cmdId == h.cmdChangeBitRate
      && BitrateValue(r.log[|p.log|].msg.bitrateHi, r.log[|p.log|].msg.bitrateLo) == Table[i].kbps
      && r.bittiming == Entry(h.canClock, i) && r.bittiming.samplePoint < 1000
  {
    SetBittimingRow(h, i);
    TableSamplePoints(h.canClock, i);
    var p' := p.(bittiming := Entry(h.canClock, i));
    assert PoolFull(h, p') == PoolFull(h, p);
    CommandSubmitted(h, p', ChangeBitrateMsg(h, Table[i].kbps));
  }

  /** `termination_store` on the byte `sscanf` parsed: only 0 and 1 are
      accepted, stored and sent to the device; any other value changes
      nothing. The whole buffer is always reported consumed. */
  function TerminationStore(h: Header, p: Priv, v: Byte, count: nat, usb: UsbStep): (r: (Priv, nat))
    ensures r.1 == count
    ensures v != 0 && v != 1 ==> r.0 == p
    ensures v == 0 || v == 1 ==>
      && r.0.terminationState == v
      && r.0 == XmitTermination(h, p.(terminationState := v), v, usb)
  {
    if v == 0 || v == 1 then
      var q := p.(terminationState := v);
      (XmitTermination(h, q, q.terminationState, usb), count)
    else (p, count)
  }

  /** An accepted termination value on a free slot is sent as one
      termination command carrying that value. */
  lemma TerminationSent(h: Header, p: Priv, v: Byte, count: nat)
    requires (v == 0 || v == 1) && !PoolFull(h, p)
    ensures var k := FirstFree(p.txContext, h.ctxFree).value;
      TerminationStore(h, p, v, count, SubmitOk).0.log
        == p.log + [UrbSubmitted(k, Termination(h.cmdSetupTermination, v))]
  {
    var q := p.(terminationState := v);
    assert PoolFull(h, q) == PoolFull(h, p);
    CommandSubmitted(h, q, TerminationMsg(h, v));
  }
}
