/** The receive path: the dispatch of one inbound record on its command
    byte (`mcba_usb_process_rx`), the split of a completed read buffer into
    fixed-size records, and the read-completion handler. */
module Receive {
  import opened Wire
  import opened DriverState

  /** The transmit side and the device flags are the same. */
  predicate TxSideUnchanged(p: Priv, r: Priv) {
    && r.txContext == p.txContext
    && r.txPackets == p.txPackets && r.txBytes == p.txBytes && r.txDropped == p.txDropped
    && r.queueStopped == p.queueStopped && r.present == p.present
    && r.bittiming == p.bittiming
  }

  /** The command ids the receive switch knows. */
  predicate Known(h: Header, cmd: Byte) {
    cmd == h.cmdAliveFromCan || cmd == h.cmdAliveFromUsb || cmd == h.cmdReceiveMessage
    || cmd == h.cmdNothingToSend || cmd == h.cmdTransmitMessageRsp
  }

  /** `mcba_usb_process_rx`: one record, dispatched on its first byte;
      `allocOk` is whether a receive skb can be allocated for it. */
  function ProcessRx(h: Header, p: Priv, rec: seq<Byte>, allocOk: bool): (r: Priv)
    requires |rec| > 0
    ensures |p.log| <= |r.log| && r.log[..|p.log|] == p.log
    ensures FormatError !in r.log[|p.log|..]
    ensures TxSideUnchanged(p, r)
    ensures (rec[0] != h.cmdAliveFromCan && rec[0] != h.cmdAliveFromUsb && rec[0] != h.cmdReceiveMessage)
              ==> SameButLog(r, p)
    ensures r.log == p.log + [UnsupportedMsg(rec[0])] <==> !Known(h, rec[0])
    ensures (Known(h, rec[0]) && rec[0] != h.cmdAliveFromCan && rec[0] != h.cmdAliveFromUsb && rec[0] != h.cmdReceiveMessage)
              ==> r == p
    ensures rec[0] == h.cmdAliveFromCan ==> r == KeepAliveCanStep(h, p, h.decodeKeepAliveCan(rec))
    ensures h.Valid() && rec[0] == h.cmdAliveFromUsb ==> r == KeepAliveUsbStep(h, p, h.decodeKeepAliveUsb(rec))
    ensures h.Valid() && rec[0] == h.cmdReceiveMessage ==> r == ProcessCan(h, p, h.decodeCan(rec), allocOk)
  {
    var cmd := rec[0];
    if cmd == h.cmdAliveFromCan then KeepAliveCanStep(h, p, h.decodeKeepAliveCan(rec))
    else if cmd == h.cmdAliveFromUsb then KeepAliveUsbStep(h, p, h.decodeKeepAliveUsb(rec))
    else if cmd == h.cmdReceiveMessage then ProcessCan(h, p, h.decodeCan(rec), allocOk)
    else if cmd == h.cmdNothingToSend || cmd == h.cmdTransmitMessageRsp then p
    else p.(log := p.log + [UnsupportedMsg(cmd)])
  }

  /** The whole records of a buffer, in order; a partial tail is dropped. */
  function Records(data: seq<Byte>, size: nat): (rs: seq<seq<Byte>>)
    requires size > 0
    ensures forall i :: 0 <= i < |rs| ==> |rs[i]| == size
    decreases |data|
  {
    if |data| < size then [] else [data[..size]] + Records(data[size..], size)
  }

  /** Euclidean quotient and remainder are unique. */
  lemma DivUnique(n: int, d: int, q: int, m: int)
    requires d > 0 && 0 <= m < d && n == q * d + m
    ensures n / d == q && n % d == m
  {
    var q', m' := n / d, n % d;
    assert n == q' * d + m';
    if q > q' {
      MulMonoLe(1, q - q', d);
    } else if q < q' {
      MulMonoLe(1, q' - q, d);
    }
  }

  /** Multiplying by a natural keeps a non-strict order. */
  lemma MulMonoLe(a: int, b: int, c: nat)
    requires a <= b
    ensures a * c <= b * c
  {
    assert b * c - a * c == (b - a) * c;
  }

  /** A buffer holds as many whole records as fit, so `|data| / size` of
      them, and the bytes left over are `|data| % size`. */
  lemma {:induction false} RecordsCount(data: seq<Byte>, size: nat)
    requires size > 0
    ensures var c := |Records(data, size)|;
      c * size <= |data| < c * size + size && c == |data| / size && |data| % size == |data| - c * size
    decreases |data|
  {
    var c := |Records(data, size)|;
    if |data| >= size {
      RecordsCount(data[size..], size);
      assert c * size == (c - 1) * size + size;
    }
    DivUnique(|data|, size, c, |data| - c * size);
  }

  /** Record `k` of a buffer is the `size` bytes at offset `k * size`. */
  lemma {:induction false} RecordAt(data: seq<Byte>, size: nat, k: nat)
    requires size > 0 && k * size + size <= |data|
    ensures k < |Records(data, size)| && Records(data, size)[k] == data[k * size .. k * size + size]
    decreases k
  {
    if k > 0 {
      var rest := data[size..];
      var a := (k - 1) * size;
      assert a + size == k * size;
      RecordAt(rest, size, k - 1);
      assert Records(data, size)[k] == Records(rest, size)[k - 1];
      assert rest[a .. a + size] == data[size + a .. size + a + size];
    }
  }

  /** Records in order, through the dispatcher; record `i` of the buffer
      is given `allocOk(i)`. */
  function ApplyRecords(h: Header, p: Priv, recs: seq<seq<Byte>>, allocOk: nat -> bool): (r: Priv)
    requires forall i :: 0 <= i < |recs| ==> |recs[i]| > 0
    ensures |p.log| <= |r.log| && r.log[..|p.log|] == p.log
    ensures FormatError !in r.log[|p.log|..]
    ensures TxSideUnchanged(p, r)
    decreases |recs|
  {
    if |recs| == 0 then p
    else
      var n := |recs| - 1;
      var q := ApplyRecords(h, p, recs[..n], allocOk);
      var r := ProcessRx(h, q, recs[n], allocOk(n));
      SuffixSplit(p.log, q.log, r.log);
      r
  }

  /** One more whole record at offset `j * size`: it is record `j`, and
      dispatching it from the state after the first `j` records gives the
      state after the first `j + 1`. */
  lemma ApplyNext(h: Header, p: Priv, data: seq<Byte>, allocOk: nat -> bool, j: nat, s: Priv, t: Priv)
    requires h.msgSize > 0 && j * h.msgSize + h.msgSize <= |data|
    requires j <= |Records(data, h.msgSize)|
    requires s == ApplyRecords(h, p, Records(data, h.msgSize)[..j], allocOk)
    requires t == ProcessRx(h, s, data[j * h.msgSize .. j * h.msgSize + h.msgSize], allocOk(j))
    ensures var recs := Records(data, h.msgSize);
      && j < |recs| && (j + 1) * h.msgSize == j * h.msgSize + h.msgSize
      && t == ApplyRecords(h, p, recs[..j + 1], allocOk)
  {
    var recs := Records(data, h.msgSize);
    RecordAt(data, h.msgSize, j);
    ApplyOneMore(h, p, recs, allocOk, j);
    assert (j + 1) * h.msgSize == j * h.msgSize + h.msgSize;
  }

  /** The records up to `k + 1` are those up to `k` and then record `k`. */
  lemma ApplyOneMore(h: Header, p: Priv, recs: seq<seq<Byte>>, allocOk: nat -> bool, k: nat)
    requires forall i :: 0 <= i < |recs| ==> |recs[i]| > 0
    requires k < |recs|
    ensures ApplyRecords(h, p, recs[..k + 1], allocOk)
         == ProcessRx(h, ApplyRecords(h, p, recs[..k], allocOk), recs[k], allocOk(k))
  {
    var pre := recs[..k + 1];
    assert pre[..k] == recs[..k];
    assert pre[k] == recs[k];
  }

  /** When fewer than `size` bytes are left after `j` records, those `j`
      records are all of them, and a nonzero rest is a partial record. */
  lemma ParseEnd(h: Header, p: Priv, data: seq<Byte>, allocOk: nat -> bool, j: nat, s: Priv)
    requires h.msgSize > 0 && j * h.msgSize <= |data| < j * h.msgSize + h.msgSize
    requires j <= |Records(data, h.msgSize)|
    requires s == ApplyRecords(h, p, Records(data, h.msgSize)[..j], allocOk)
    ensures ParseBuffer(h, p, data, allocOk) == if |data| == j * h.msgSize then s else s.(log := s.log + [FormatError])
  {
    var recs := Records(data, h.msgSize);
    RecordsCount(data, h.msgSize);
    DivUnique(|data|, h.msgSize, j, |data| - j * h.msgSize);
    assert recs[..j] == recs;
  }

  /** The parse loop of `mcba_usb_read_bulk_callback` over the `|data|`
      received bytes: every whole record dispatched, then one format error
      when a partial record is left. */
  function ParseBuffer(h: Header, p: Priv, data: seq<Byte>, allocOk: nat -> bool): (r: Priv)
    requires h.msgSize > 0
    ensures |p.log| <= |r.log| && r.log[..|p.log|] == p.log
    ensures TxSideUnchanged(p, r)
    ensures var tail := r.log[|p.log|..];
      && (FormatError in tail <==> |data| % h.msgSize != 0)
      && (|data| % h.msgSize != 0 ==> tail[|tail| - 1] == FormatError && FormatError !in tail[..|tail| - 1])
  {
    var q := ApplyRecords(h, p, Records(data, h.msgSize), allocOk);
    if |data| % h.msgSize != 0 then
      var r := q.(log := q.log + [FormatError]);
      assert r.log[|p.log|..] == q.log[|p.log|..] + [FormatError];
      r
    else q
  }

  /** The whole records of a buffer are those of its first `k * size`
      bytes, for `k` the number of whole records. */
  lemma {:induction false} RecordsOfWholePart(data: seq<Byte>, size: nat)
    requires size > 0
    ensures var k := |Records(data, size)|;
      k * size <= |data| && Records(data[..k * size], size) == Records(data, size)
    decreases |data|
  {
    var k := |Records(data, size)|;
    if |data| >= size {
      var rest := data[size..];
      RecordsOfWholePart(rest, size);
      var w := data[..k * size];
      assert k * size == size + (k - 1) * size;
      assert w[..size] == data[..size];
      assert w[size..] == rest[..(k - 1) * size];
    } else {
      assert data[..0] == [];
    }
  }

  /** The bytes of a trailing partial record are never dispatched: the
      buffer has the effect of its whole records alone, plus the format error. */
  lemma PartialTailIgnored(h: Header, p: Priv, data: seq<Byte>, allocOk: nat -> bool)
    requires h.msgSize > 0
    ensures var whole := |data| / h.msgSize * h.msgSize;
      var q := ParseBuffer(h, p, data[..whole], allocOk);
      && whole <= |data|
      && ParseBuffer(h, p, data, allocOk) == if whole == |data| then q else q.(log := q.log + [FormatError])
  {
    var size := h.msgSize;
    RecordsCount(data, size);
    RecordsOfWholePart(data, size);
    var k := |Records(data, size)|;
    var w := data[..k * size];
    assert |w| == k * size;
    DivUnique(|w|, size, k, 0);
  }

  /** `mcba_usb_read_bulk_callback`: nothing while the device is detached
      or the transfer was cancelled (`-ENOENT`, `-ESHUTDOWN`); the buffer
      is parsed only on success; otherwise, and after parsing, the read is
      resubmitted, and a `-ENODEV` from the resubmit detaches the device. */
  function ReadCallback(h: Header, p: Priv, status: int, data: seq<Byte>, allocOk: nat -> bool, resubmitErr: int): (r: Priv)
    requires h.msgSize > 0
    ensures !p.present ==> r == p
    ensures status == -ENOENT || status == -ESHUTDOWN ==> r == p
    ensures p.present && status != 0 && status != -ENOENT && status != -ESHUTDOWN ==>
              r == p.(present := resubmitErr != -ENODEV)
    ensures p.present && status == 0 ==>
              r == ParseBuffer(h, p, data, allocOk).(present := resubmitErr != -ENODEV)
  {
    if !p.present then p
    else if status == -ENOENT || status == -ESHUTDOWN then p
    else
      var q := if status == 0 then ParseBuffer(h, p, data, allocOk) else p;
      if resubmitErr == -ENODEV then q.(present := false) else q
  }

  /** The last error counters a CAN keep-alive among `recs` reported, or
      `init` when there is none. */
  function LastBerr(h: Header, recs: seq<seq<Byte>>, init: (Byte, Byte)): (Byte, Byte) {
    if |recs| == 0 then init
    else
      var n := |recs| - 1;
      if |recs[n]| > 0 && recs[n][0] == h.cmdAliveFromCan then
        var ka := h.decodeKeepAliveCan(recs[n]);
        (ka.txErrCnt, ka.rxErrCnt)
      else LastBerr(h, recs[..n], init)
  }

  /** The error counters `mcba_usb_get_berr_counter` reports are those of
      the most recent CAN keep-alive. */
  lemma {:induction false} BerrFollowsLastKeepAlive(h: Header, p: Priv, recs: seq<seq<Byte>>, allocOk: nat -> bool)
    requires forall i :: 0 <= i < |recs| ==> |recs[i]| > 0
    ensures var r := ApplyRecords(h, p, recs, allocOk);
      (r.txErr, r.rxErr) == LastBerr(h, recs, (p.txErr, p.rxErr))
    decreases |recs|
  {
    if |recs| > 0 {
      var n := |recs| - 1;
      BerrFollowsLastKeepAlive(h, p, recs[..n], allocOk);
    }
  }

  /** Two CAN keep-alives in a row while the CAN version is undefined: the
      error counters follow each report, and the version notice is given
      for the first one only. */
  lemma TwoCanKeepAlives(h: Header, p: Priv, r1: seq<Byte>, r2: seq<Byte>, a1: bool, a2: bool)
    requires IsKeepAlive(h, r1, false) && IsKeepAlive(h, r2, false)
    requires CanVersionUndefined(h, p) && Reported(h, r1, false) != (h.verUndefined, h.verUndefined)
    ensures var ka1, ka2 := h.decodeKeepAliveCan(r1), h.decodeKeepAliveCan(r2);
      var q1 := ProcessRx(h, p, r1, a1);
      var q2 := ProcessRx(h, q1, r2, a2);
      && (q1.txErr, q1.rxErr) == (ka1.txErrCnt, ka1.rxErrCnt)
      && (q2.txErr, q2.rxErr) == (ka2.txErrCnt, ka2.rxErrCnt)
      && q2.log == p.log + [CanVersionSeen(ka1.softVerMajor, ka1.softVerMinor)]
  {
  }

  /** Which side a version notice, a keep-alive and a stored version belong to. */
  predicate IsNotice(e: Event, usb: bool) {
    if usb then e.UsbVersionSeen? else e.CanVersionSeen?
  }

  predicate IsKeepAlive(h: Header, rec: seq<Byte>, usb: bool) {
    |rec| > 0 && rec[0] == (if usb then h.cmdAliveFromUsb else h.cmdAliveFromCan)
  }

  function Version(p: Priv, usb: bool): (Byte, Byte) {
    if usb then (p.picUsbSwVerMajor, p.picUsbSwVerMinor) else (p.picCanSwVerMajor, p.picCanSwVerMinor)
  }

  /** The version a keep-alive record reports. */
  function Reported(h: Header, rec: seq<Byte>, usb: bool): (Byte, Byte) {
    if usb then
      var ka := h.decodeKeepAliveUsb(rec);
      (ka.softVerMajor, ka.softVerMinor)
    else
      var ka := h.decodeKeepAliveCan(rec);
      (ka.softVerMajor, ka.softVerMinor)
  }

  function Notices(log: seq<Event>, usb: bool): nat {
    if |log| == 0 then 0
    else Notices(log[..|log| - 1], usb) + (if IsNotice(log[|log| - 1], usb) then 1 else 0)
  }

  lemma {:induction false} NoticesAppend(a: seq<Event>, b: seq<Event>, usb: bool)
    ensures Notices(a + b, usb) == Notices(a, usb) + Notices(b, usb)
    decreases |b|
  {
    if |b| > 0 {
      var n := |b| - 1;
      assert (a + b)[..|a + b| - 1] == a + b[..n];
      NoticesAppend(a, b[..n], usb);
    } else {
      assert a + b == a;
    }
  }

  /** For logs that extend one another, the events added over two steps
      are those of the first step followed by those of the second. */
  lemma SuffixSplit(a: seq<Event>, b: seq<Event>, c: seq<Event>)
    requires |a| <= |b| <= |c| && b[..|a|] == a && c[..|b|] == b
    ensures c[..|a|] == a
    ensures c[|a|..] == b[|a|..] + c[|b|..]
  {
    assert forall i :: 0 <= i < |b| ==> c[i] == b[i];
  }

  lemma NoticesSingle(e: Event, usb: bool)
    ensures Notices([e], usb) == (if IsNotice(e, usb) then 1 else 0)
  {
    assert [e][..0] == [];
  }

  lemma KeepAliveCanNotice(h: Header, p: Priv, ka: KeepAliveCan, usb: bool)
    ensures var r := KeepAliveCanStep(h, p, ka);
      Notices(r.log[|p.log|..], usb) == (if !usb && CanVersionUndefined(h, p) then 1 else 0)
  {
    var r := KeepAliveCanStep(h, p, ka);
    if CanVersionUndefined(h, p) {
      NoticesSingle(CanVersionSeen(ka.softVerMajor, ka.softVerMinor), usb);
    } else {
      assert r.log[|p.log|..] == [];
    }
  }

  lemma KeepAliveUsbNotice(h: Header, p: Priv, ka: KeepAliveUsb, usb: bool)
    ensures var r := KeepAliveUsbStep(h, p, ka);
      Notices(r.log[|p.log|..], usb) == (if usb && UsbVersionUndefined(h, p) then 1 else 0)
  {
    var r := KeepAliveUsbStep(h, p, ka);
    if UsbVersionUndefined(h, p) {
      NoticesSingle(UsbVersionSeen(ka.softVerMajor, ka.softVerMinor), usb);
    } else {
      assert r.log[|p.log|..] == [];
    }
  }

  /** A record that is no keep-alive gives no version notice and leaves
      both stored versions alone. */
  lemma OtherRecordNoNotice(h: Header, p: Priv, rec: seq<Byte>, allocOk: bool, usb: bool)
    requires |rec| > 0 && rec[0] != h.cmdAliveFromCan && rec[0] != h.cmdAliveFromUsb
    ensures var r := ProcessRx(h, p, rec, allocOk);
      Notices(r.log[|p.log|..], usb) == 0 && Version(r, usb) == Version(p, usb)
  {
    var r := ProcessRx(h, p, rec, allocOk);
    var tail := r.log[|p.log|..];
    if rec[0] == h.cmdReceiveMessage && allocOk {
      assert tail == [FrameReceived(RxFrame(h, h.decodeCan(rec)))];
      NoticesSingle(tail[0], usb);
    } else if Known(h, rec[0]) {
      assert tail == [];
    } else {
      assert tail == [UnsupportedMsg(rec[0])];
      NoticesSingle(tail[0], usb);
    }
  }

  /** One record gives a version notice of a side exactly when it is that
      side's keep-alive and the stored version is still undefined. */
  lemma ProcessRxNotice(h: Header, p: Priv, rec: seq<Byte>, allocOk: bool, usb: bool)
    requires h.Valid() && |rec| > 0
    ensures var r := ProcessRx(h, p, rec, allocOk);
      Notices(r.log[|p.log|..], usb)
        == (if IsKeepAlive(h, rec, usb) && Version(p, usb) == (h.verUndefined, h.verUndefined) then 1 else 0)
  {
    if rec[0] == h.cmdAliveFromCan {
      KeepAliveCanNotice(h, p, h.decodeKeepAliveCan(rec), usb);
    } else if rec[0] == h.cmdAliveFromUsb {
      KeepAliveUsbNotice(h, p, h.decodeKeepAliveUsb(rec), usb);
    } else {
      OtherRecordNoNotice(h, p, rec, allocOk, usb);
    }
  }

  /** Only a keep-alive of a side changes that side's stored version, to
      the version it reports. */
  lemma ProcessRxVersion(h: Header, p: Priv, rec: seq<Byte>, allocOk: bool, usb: bool)
    requires h.Valid() && |rec| > 0
    ensures var r := ProcessRx(h, p, rec, allocOk);
      Version(r, usb) == (if IsKeepAlive(h, rec, usb) then Reported(h, rec, usb) else Version(p, usb))
  {
    var r := ProcessRx(h, p, rec, allocOk);
    var want := if IsKeepAlive(h, rec, usb) then Reported(h, rec, usb) else Version(p, usb);
    if rec[0] == h.cmdAliveFromCan {
      assert Version(r, usb) == want by {
        assert r == KeepAliveCanStep(h, p, h.decodeKeepAliveCan(rec));
      }
    } else if rec[0] == h.cmdAliveFromUsb {
      assert Version(r, usb) == want by {
        assert r == KeepAliveUsbStep(h, p, h.decodeKeepAliveUsb(rec));
      }
    } else {
      OtherRecordNoNotice(h, p, rec, allocOk, usb);
    }
  }

  /** Whether some record of `recs` is a keep-alive of the given side. */
  predicate KeepAliveSeen(h: Header, recs: seq<seq<Byte>>, usb: bool) {
    |recs| > 0 && (IsKeepAlive(h, recs[|recs| - 1], usb) || KeepAliveSeen(h, recs[..|recs| - 1], usb))
  }

  /** While every keep-alive of a side reports a defined version, the
      stored version of that side is defined after the first such
      keep-alive, and unchanged until then. */
  lemma {:induction false} VersionDefinedAfterKeepAlive(h: Header, p: Priv, recs: seq<seq<Byte>>, allocOk: nat -> bool, usb: bool)
    requires h.Valid()
    requires forall i :: 0 <= i < |recs| ==> |recs[i]| > 0
    requires forall i :: 0 <= i < |recs| && IsKeepAlive(h, recs[i], usb) ==>
               Reported(h, recs[i], usb) != (h.verUndefined, h.verUndefined)
    ensures var r := ApplyRecords(h, p, recs, allocOk);
      && (KeepAliveSeen(h, recs, usb) ==> Version(r, usb) != (h.verUndefined, h.verUndefined))
      && (!KeepAliveSeen(h, recs, usb) ==> Version(r, usb) == Version(p, usb))
    decreases |recs|
  {
    if |recs| > 0 {
      var n := |recs| - 1;
      var pre := recs[..n];
      assert forall i :: 0 <= i < n ==> pre[i] == recs[i];
      VersionDefinedAfterKeepAlive(h, p, pre, allocOk, usb);
      ProcessRxVersion(h, ApplyRecords(h, p, pre, allocOk), recs[n], allocOk(n), usb);
    }
  }

  /** The inductive step of `VersionNoticedOnce`: one more record after
      a run whose notices and stored version are known. */
  lemma VersionNoticeStep(h: Header, p: Priv, q: Priv, rec: seq<Byte>, allocOk: bool, usb: bool, seenPre: bool)
    requires h.Valid() && |rec| > 0
    requires |p.log| <= |q.log| && q.log[..|p.log|] == p.log
    requires Notices(q.log[|p.log|..], usb)
               == (if seenPre && Version(p, usb) == (h.verUndefined, h.verUndefined) then 1 else 0)
    requires seenPre ==> Version(q, usb) != (h.verUndefined, h.verUndefined)
    requires !seenPre ==> Version(q, usb) == Version(p, usb)
    ensures var r := ProcessRx(h, q, rec, allocOk);
      Notices(r.log[|p.log|..], usb)
        == (if (IsKeepAlive(h, rec, usb) || seenPre) && Version(p, usb) == (h.verUndefined, h.verUndefined) then 1 else 0)
  {
    var r := ProcessRx(h, q, rec, allocOk);
    ProcessRxNotice(h, q, rec, allocOk, usb);
    SuffixSplit(p.log, q.log, r.log);
    NoticesAppend(q.log[|p.log|..], r.log[|q.log|..], usb);
  }

  /** While every keep-alive of a side reports a defined version, the
      version notice of that side is given at most once: exactly once if
      the stored version was undefined and a keep-alive of the side came. */
  lemma {:induction false} VersionNoticedOnce(h: Header, p: Priv, recs: seq<seq<Byte>>, allocOk: nat -> bool, usb: bool)
    requires h.Valid()
    requires forall i :: 0 <= i < |recs| ==> |recs[i]| > 0
    requires forall i :: 0 <= i < |recs| && IsKeepAlive(h, recs[i], usb) ==>
               Reported(h, recs[i], usb) != (h.verUndefined, h.verUndefined)
    ensures var r := ApplyRecords(h, p, recs, allocOk);
      Notices(r.log[|p.log|..], usb)
        == (if KeepAliveSeen(h, recs, usb) && Version(p, usb) == (h.verUndefined, h.verUndefined) then 1 else 0)
    decreases |recs|
  {
    if |recs| == 0 {
      assert p.log[|p.log|..] == [];
    } else {
      var n := |recs| - 1;
      var pre := recs[..n];
      assert forall i :: 0 <= i < n ==> pre[i] == recs[i];
      VersionNoticedOnce(h, p, pre, allocOk, usb);
      VersionDefinedAfterKeepAlive(h, p, pre, allocOk, usb);
      VersionNoticeStep(h, p, ApplyRecords(h, p, pre, allocOk), recs[n], allocOk(n), usb, KeepAliveSeen(h, pre, usb));
    }
  }
}
