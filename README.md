# Microchip CAN BUS Analyzer driver: a Dafny model

This project models the bookkeeping of `mcba_usb.c`, the SocketCAN driver
for the Microchip CAN BUS Analyzer USB adapter, and proves what that
bookkeeping guarantees. It covers:

- the transmit context pool: `mcba_init_ctx`, `mcba_usb_get_free_ctx`, `mcba_usb_free_ctx`;
- the transmit path with its backpressure: `mcba_usb_xmit`, `mcba_usb_start_xmit`, `mcba_usb_xmit_cmd`;
- the write completion: `mcba_usb_write_bulk_callback`;
- the receive path: the fixed-stride parse loop of `mcba_usb_read_bulk_callback`, the command switch `mcba_usb_process_rx`, the two keep-alive handlers and `mcba_usb_process_can`;
- the bitrate table of `mcba_net_set_bittiming` and the `u32` arithmetic of `mcba_net_calc_bittiming`;
- the command encoders (change bitrate, firmware-version request, termination) and the field layout of a transmitted frame;
- the accessors `termination_store` and `mcba_net_get_berr_counter`.

The model has two layers:

- **Functional core.** `struct mcba_priv` is the value `DriverState.Priv`. Every handler is a function on it:
  - pool operations are in `TxPool`, on the contents of the context array;
  - the transmit side is in `Transmit`;
  - the receive side is in `Receive` and `DriverState`;
  - bit timing is in `BitTiming`.

  The lemmas about the driver's behaviour are stated at this level.
- **Imperative shell.** `Driver.McbaPriv` is a class with the same fields and the contexts in an `array`. It updates them in place as the C code does. Every handler method is proved to leave the object in exactly the state the corresponding function computes. The pool invariant says every slot is free or tagged with its own index. `InitCtx` establishes it, as `mcba_init_ctx` does, and every entry-point method keeps it. A freshly constructed object stands for the adapter before `mcba_init_ctx`, so it need not satisfy the invariant.

Some effects of the driver become entries of an event log (`Event`) rather than state:

- the echo-skb calls and `netif_rx`;
- transfers handed to USB;
- the version notices, the "unsupported message" warning and the format error.

The header `mcba_usb.h` is not part of this model. Everything the driver takes from it is a field of `Wire.Header` and stays uninterpreted: command ids, record size, masks, the pool constants, the CAN clock, the 18 `MCBA_BITRATE_*` codes, the id-packing macros and the record layouts. `Header.Valid()` demands only what C itself guarantees of those constants (distinct `case` labels, a nonzero divisor, a record of at least one byte), plus that the free marker is not a slot index.

Everything the driver cannot decide itself is an explicit parameter:

- what USB does with a write request (`Transmit.UsbStep`);
- whether a receive skb can be allocated, given per record;
- the status of a read completion;
- the result of resubmitting the read.

The model keeps three behaviours of the code exactly as written:

- A failed submission frees the echo skb but never the context slot. The slot stays taken for good (`Transmit.XmitFailureKeepsSlot`, `Transmit.FailuresExhaustPool`).
- `tx_bytes` grows by the dlc byte of the transmit command. For a remote request that byte carries the device's RTR bit (`Transmit.StartXmitTxBytes`).
- On a failed submission the frame is released twice: once as the echo skb and once by `dev_kfree_skb` (`EchoFree` then `SkbFreed` in the log).

## Model

| member | source | states |
|---|---|---|
| TxPool.FirstFree | mcba_usb.c:372-384 | the scan of the whole pool finds the lowest free slot, and finds none iff every slot is occupied |
| TxPool.FirstFreeFrom | mcba_usb.c:374-381 | the scan from slot `i` stops at the lowest free slot at or after `i`; none is found iff no slot from `i` on is free |
| TxPool.Acquire | mcba_usb.c:369-384 | taking a slot returns the lowest free slot and tags it with its index and the owner; none is returned iff every slot is occupied, and then the pool is unchanged; no other slot changes; the pool invariant is kept |
| TxPool.Release | mcba_usb.c:387-393 | freeing resets exactly that slot to free, no owner, dlc 0 and no frame; the invariant is kept |
| TxPool.Reset | mcba_usb.c:359-366 | initialisation marks every slot free and leaves the other fields alone |
| TxPool.LiveIdsUnique | mcba_usb.c:374-378 | under the invariant, two occupied slots carry distinct tags, each its own index |
| TxPool.FreeCountUpdate | mcba_usb.c:377 | replacing one slot changes the free count by the difference of the two tags |
| TxPool.FreeCountZero | mcba_usb.c:374-383 | the free count is zero iff the scan finds no free slot |
| TxPool.AcquireTakesOne | mcba_usb.c:369-384 | an acquire succeeds iff some slot is free, and then lowers the free count by one |
| TxPool.ReleaseFreesOne | mcba_usb.c:387-393 | releasing an occupied slot raises the free count by one |
| TxPool.AcquireUntilExhausted | mcba_usb.c:369-384 | with `c` free slots, `c` acquires in a row all succeed, keep the invariant and leave no free slot, so the next acquire fails |
| TxPool.ResetAllFree | mcba_usb.c:359-366 | after initialisation every slot is free |
| TxPool.FreshAcquiresFrom | mcba_usb.c:374-379 | on a pool whose first `done` slots are taken and whose other slots are free, `m` acquires take the next `m` slots |
| TxPool.FreshAcquiresInOrder | mcba_usb.c:374-379 | on the same pool, those acquires hand out `done`, `done + 1`, ... in order |
| TxPool.AcquireNext | mcba_usb.c:374-379 | one acquire on such a pool hands out slot `done` and extends the taken prefix by one |
| TxPool.FreshPoolExhausts | mcba_usb.c:359-384 | after initialisation, `n` acquires hand out 0 to n-1 and the (n+1)-th fails |
| TxPool.ReleaseOnFullPool | mcba_usb.c:369-393 | on a full pool, releasing slot `k` lets exactly one more acquire succeed, and it returns `k` |
| Wire.Wrap32 | mcba_usb.c:674-678 | `u32` arithmetic: a value in range is kept, any other is reduced modulo 2^32 |
| Wire.BitrateHi | mcba_usb.c:553 | the high byte is the value divided by 256 |
| Wire.BitrateLo | mcba_usb.c:554 | the low byte is the value modulo 256 |
| Wire.ChangeBitrateMsg | mcba_usb.c:548-557 | the change-bitrate command carries its command id, and its two bytes read back high byte first give the value |
| Wire.ChangeBitrateBytesRoundTrip | mcba_usb.c:553-554 | every byte pair is the encoding of the value it denotes, so the split is a bijection on 16-bit values |
| Wire.ReadFwVerMsg | mcba_usb.c:559-567 | the firmware-version request carries its command id and the requested controller |
| Wire.TerminationMsg | mcba_usb.c:569-577 | the termination command carries its command id and the termination value |
| Wire.EncodeCanTx | mcba_usb.c:429-456 | the transmit command carries the frame's data bytes; the id is packed by the extended macros, or by the standard macros with zero extended bytes; the dlc byte is `TxDlc` |
| Wire.TxDlc | mcba_usb.c:452-455 | the command's dlc is the frame's dlc; for a remote request the RTR bit is set and every other bit kept |
| DriverState.CopyLen | mcba_usb.c:115 | exactly dlc bytes are copied when dlc is at most 8, and the 8 bytes of `cf->data` for a larger dlc |
| DriverState.RxFrame | mcba_usb.c:105-115 | a received frame has the extended or standard id, with the host RTR flag set for a remote request, the dlc byte masked by `MCBA_DLC_MASK`, and the payload prefix copied over a zeroed frame |
| DriverState.RxData | mcba_usb.c:115 | the first `k` payload bytes are those of the record; the rest are zero |
| DriverState.ProcessCan | mcba_usb.c:94-120 | with no skb nothing changes; otherwise `rx_packets` grows by one, `rx_bytes` by the masked dlc, the frame is delivered, and nothing else changes |
| DriverState.KeepAliveUsbStep | mcba_usb.c:122-151 | a USB keep-alive always sets the USB version and the termination state; the version notice is given iff both stored version bytes were undefined; nothing else changes |
| DriverState.KeepAliveCanStep | mcba_usb.c:153-192 | a CAN keep-alive always sets both error counters and the CAN version; the notice is given iff both stored version bytes were undefined; nothing else changes |
| Receive.ProcessRx | mcba_usb.c:194-227 | a CAN keep-alive, a USB keep-alive and a received frame each run their handler (`KeepAliveCanStep`, `KeepAliveUsbStep`, `ProcessCan`); only those three ids change state; nothing-to-send and transmit-response leave everything unchanged; an unknown id only adds the warning, and the warning is added iff the id is unknown; the transmit side is never touched |
| Receive.Records | mcba_usb.c:261-272 | the buffer is cut into whole records of the record size |
| Receive.RecordsCount | mcba_usb.c:261-273 | a buffer of length L holds floor(L/S) whole records, with L mod S bytes left over |
| Receive.RecordAt | mcba_usb.c:269-272 | record `k` is the `S` bytes at offset `k * S` |
| Receive.ApplyRecords | mcba_usb.c:261-273 | dispatching records in order only extends the log, never reports a format error and never touches the transmit side |
| Receive.ApplyNext | mcba_usb.c:264-272 | one more whole record at offset `j * S` is record `j`, and dispatching it gives the state after the first `j + 1` records |
| Receive.ParseEnd | mcba_usb.c:261-273 | when fewer than `S` bytes are left after `j` records, those are all the records, and the loop ends with one format error iff bytes are left |
| Receive.ParseBuffer | mcba_usb.c:261-273 | a format error is reported iff L mod S is not zero, exactly once and as the last event |
| Receive.RecordsOfWholePart | mcba_usb.c:261-273 | the whole records of a buffer are those of its whole-record prefix |
| Receive.PartialTailIgnored | mcba_usb.c:264-267 | a trailing partial record is never dispatched: the buffer acts as its whole records do, plus the format error |
| Receive.ReadCallback | mcba_usb.c:234-288 | nothing changes while the device is absent or after `-ENOENT`/`-ESHUTDOWN`; the buffer is parsed only on success; otherwise, and after parsing, a `-ENODEV` on resubmit detaches the device |
| Receive.BerrFollowsLastKeepAlive | mcba_usb.c:187-188 | after a run of records, the error counters are those of the last CAN keep-alive, or unchanged if none came |
| Receive.TwoCanKeepAlives | mcba_usb.c:171-191 | two CAN keep-alives while the version is undefined: the counters follow each report, and only the first gives the version notice |
| Receive.NoticesAppend | mcba_usb.c:133-137 | notices of a concatenated log add up |
| Receive.KeepAliveCanNotice | mcba_usb.c:171-176 | a CAN keep-alive gives one CAN notice iff the CAN version was undefined, and no USB notice |
| Receive.KeepAliveUsbNotice | mcba_usb.c:133-137 | a USB keep-alive gives one USB notice iff the USB version was undefined, and no CAN notice |
| Receive.OtherRecordNoNotice | mcba_usb.c:209-225 | any other record gives no notice and leaves both versions alone |
| Receive.ProcessRxNotice | mcba_usb.c:194-227 | one record gives a notice of a side iff it is that side's keep-alive and the stored version is undefined |
| Receive.ProcessRxVersion | mcba_usb.c:194-227 | only a side's keep-alive changes that side's version, to the one it reports |
| Receive.VersionDefinedAfterKeepAlive | mcba_usb.c:148-149 | while keep-alives report defined versions, a side's version is defined after its first keep-alive and unchanged before it |
| Receive.VersionNoticeStep | mcba_usb.c:133-149 | one more record after a run whose notice count and version are known keeps the count right |
| Receive.VersionNoticedOnce | mcba_usb.c:133-149 | while keep-alives report defined versions, a side's notice is given once if its version was undefined and a keep-alive came, and never otherwise |
| BitTiming.CalcBittiming | mcba_usb.c:665-679 | the segments and prescaler are stored as given; time quantum, bitrate and sample point are the `u32` quotients of the source |
| BitTiming.TableComputable | mcba_usb.c:674-678 | for every row, at any clock of 1 to 2000 MHz, neither division by zero nor wrap-around occurs |
| BitTiming.RowComputable | mcba_usb.c:674-678 | a row with prescaler 2 to 100 and 8 to 25 quanta per bit can be computed |
| BitTiming.IndexOf | mcba_usb.c:689-799 | the lowest position of the rate among the codes, or none iff the rate is not one of them |
| BitTiming.SetBittiming | mcba_usb.c:684-809 | the request succeeds iff the rate is one of the 18 codes; then it gives that row's timing and kbps value |
| BitTiming.SetBittimingRow | mcba_usb.c:689-798 | since the codes are distinct, the code of row `i` selects exactly row `i` |
| BitTiming.TableKbps | mcba_usb.c:694-796 | the kbps values sent are 20, 33, 50, 80, 83, 100, 125, 150, 175, 200, 225, 250, 275, 300, 500, 625, 800 and 1000 |
| BitTiming.SamplePointBelowPermille | mcba_usb.c:677-678 | with a nonempty phase segment 2 and no wrap-around, the sample point is below 1000 |
| BitTiming.PermilleBelow | mcba_usb.c:677-678 | `a * 1000 / n` in `u32` is below 1000 when `a < n` and `n * 1000` fits |
| BitTiming.TableSamplePoints | mcba_usb.c:677-678 | every row's sample point is below 1000 |
| BitTiming.RowAt40MHz | mcba_usb.c:674-676 | at 40 MHz a row's bitrate is `10^9 / (quanta * tq)` with no wrap-around |
| BitTiming.ReportedBitrateEntry | mcba_usb.c:689-797 | at 40 MHz each row reports the rate listed in `ReportedRates40MHz` |
| BitTiming.ReportedBitrateLow | mcba_usb.c:691-743 | the same, for rows 0 to 8 |
| BitTiming.ReportedBitrateHigh | mcba_usb.c:745-797 | the same, for rows 9 to 17 |
| BitTiming.ReportedBitrateAt40MHz | mcba_usb.c:689-803 | at 40 MHz each row reports at least the rate the error message lists, at most about 1% more, and exactly that rate for 13 of the 18 rows |
| Transmit.Tag | mcba_usb.c:486-492 | a frame's slot records the message's dlc byte and is marked as carrying a frame, and the frame becomes its echo skb; a command's slot is marked as not carrying one; nothing else changes |
| Transmit.Submitted | mcba_usb.c:495-545 | a successful submit records the transfer; on any failure the echo skb and the frame are freed, the drop is counted, only `-ENODEV` detaches, and the pool is unchanged |
| Transmit.Send | mcba_usb.c:486-545 | after taking a slot, no slot tag, `tx_packets`, `tx_bytes` or device-side field changes |
| Transmit.FreeCountTags | mcba_usb.c:375 | the free count depends on the tags alone |
| Transmit.Xmit | mcba_usb.c:468-546 | busy iff no slot is free, and then only the queue is stopped; the pool keeps its size and invariant; `tx_packets`, `tx_bytes` and the device-side fields are never touched |
| Transmit.XmitTakesOne | mcba_usb.c:478-545 | an accepted transmit takes exactly one slot, whatever USB does |
| Transmit.XmitTags | mcba_usb.c:478-512 | for every USB outcome an accepted transmit tags the lowest free slot, marks it as carrying a frame iff an skb was given, records the message's dlc byte for a frame, and logs that frame's echo skb first |
| Transmit.XmitSubmits | mcba_usb.c:478-525 | a successful transmit uses the lowest free slot, tagged, carrying a frame iff an skb was given, with the message's dlc byte; no other slot changes; the log is the echo put, then the submission |
| Transmit.XmitFailureKeepsSlot | mcba_usb.c:527-545 | on every failure the slot stays taken and no other slot changes, the drop is counted, the echo skb and the frame are freed, and only `-ENODEV` detaches |
| Transmit.XmitCmd | mcba_usb.c:461-465 | a command on a full pool only stops the queue; `tx_packets`, `tx_bytes` and the device-side fields never change |
| Transmit.XmitAll | mcba_usb.c:468-546 | transmits in a row keep the pool size |
| Transmit.FailuresExhaustPool | mcba_usb.c:527-545 | failed submissions never give back their slots: as many failures as free slots leave the pool full, and every later transmit is busy |
| Transmit.WriteDone | mcba_usb.c:395-426 | a frame completing while the device is absent changes nothing, slot included; otherwise a frame is counted with its dlc byte, echoed and the queue woken; the slot is then released; a command is released without touching the counters |
| Transmit.XmitThenComplete | mcba_usb.c:395-546 | send then completion: the slot is free again, the free count is restored, a frame is counted once with its dlc byte, and the log is echo put, submission, echo get |
| Transmit.FreshPoolFrameRoundTrip | mcba_usb.c:395-458 | a frame on a freshly initialised pool takes slot 0, completes, frees slot 0, and adds its dlc (the frame's own for a data frame) to `tx_bytes` |
| Transmit.OrDisjointGrows | mcba_usb.c:455 | or-ing in disjoint bits enlarges a byte |
| Transmit.RtrInflatesDlc | mcba_usb.c:452-455 | a remote request's command dlc exceeds the frame's dlc when the RTR bit was not part of it |
| Transmit.StartXmitTxBytes | mcba_usb.c:409-455 | a sent and completed frame adds its command dlc to `tx_bytes`, which for a remote request exceeds the frame's length |
| Transmit.StartXmit | mcba_usb.c:429-458 | a frame is refused as busy iff the pool is full, and then only the queue stops; otherwise the lowest free slot is tagged, marked as carrying a frame, records the command's dlc byte (`TxDlc`, RTR bit included) and is the frame's echo slot |
| Transmit.XmitChangeBitrate | mcba_usb.c:548-557 | a full pool only stops the queue; on a free slot the change-bitrate command for the value is submitted and nothing else is logged |
| Transmit.XmitReadFwVer | mcba_usb.c:559-567 | a full pool only stops the queue; on a free slot the firmware-version request for the controller is submitted and nothing else is logged |
| Transmit.XmitTermination | mcba_usb.c:569-577 | a full pool only stops the queue; on a free slot the termination command carrying the value is submitted and nothing else is logged |
| Transmit.CommandSubmitted | mcba_usb.c:461-465 | a command on a free slot is submitted as built, and nothing else is logged |
| Transmit.SetBittimingOp | mcba_usb.c:684-809 | success iff the rate is one of the codes, and then the row's timing is stored and its kbps sent; otherwise `-EINVAL` with nothing stored and nothing sent |
| Transmit.SetBittimingSendsOneCommand | mcba_usb.c:689-798 | a supported rate on a free slot sends exactly one change-bitrate command whose bytes spell the row's kbps, and stores a timing whose sample point is below 1000 |
| Transmit.TerminationStore | mcba_usb.c:66-83 | only 0 and 1 are stored and sent; any other value changes nothing; the whole buffer is reported consumed |
| Transmit.TerminationSent | mcba_usb.c:76-80 | an accepted value on a free slot is sent as one termination command carrying it |
| Driver.McbaPriv.constructor | mcba_usb.c:821-836 | the adapter before `mcba_init_ctx`: zeroed fields and both versions undefined; the device is taken as present (see Left out) |
| Driver.McbaPriv.InitCtx | mcba_usb.c:359-366 | the loop marks every slot free in place; the pool becomes valid with every slot free |
| Driver.McbaPriv.GetFreeCtx | mcba_usb.c:369-384 | the in-place scan does what `TxPool.Acquire` does, and changes nothing but the array |
| Driver.McbaPriv.FreeCtx | mcba_usb.c:387-393 | the slot is reset in place as `TxPool.Release` says |
| Driver.McbaPriv.Xmit | mcba_usb.c:468-546 | the in-place transmit gives the state and status of `Transmit.Xmit` and keeps the object valid |
| Driver.McbaPriv.TagCtx | mcba_usb.c:486-492 | the slot is tagged in place as `Transmit.Tag` says |
| Driver.McbaPriv.Submit | mcba_usb.c:516-545 | the submission and its failure path, as `Transmit.Submitted` says |
| Driver.McbaPriv.DropTransfer | mcba_usb.c:527-545 | a failure detaches on `-ENODEV`, frees the echo skb and the frame, and counts the drop |
| Driver.McbaPriv.StartXmit | mcba_usb.c:429-458 | as `Transmit.StartXmit`, keeping the object valid |
| Driver.McbaPriv.XmitCmd | mcba_usb.c:461-465 | as `Transmit.XmitCmd`, keeping the object valid |
| Driver.McbaPriv.XmitChangeBitrate | mcba_usb.c:548-557 | as `Transmit.XmitChangeBitrate`, keeping the object valid |
| Driver.McbaPriv.XmitReadFwVer | mcba_usb.c:559-567 | as `Transmit.XmitReadFwVer`, keeping the object valid |
| Driver.McbaPriv.XmitTermination | mcba_usb.c:569-577 | as `Transmit.XmitTermination`, keeping the object valid |
| Driver.McbaPriv.WriteBulkCallback | mcba_usb.c:395-426 | the completion in place gives the state of `Transmit.WriteDone` and keeps the object valid |
| Driver.McbaPriv.CountEcho | mcba_usb.c:408-413 | one more sent frame of the slot's dlc, its echo returned, the queue woken |
| Driver.McbaPriv.ProcessCan | mcba_usb.c:94-120 | as `DriverState.ProcessCan` |
| Driver.McbaPriv.CountRx | mcba_usb.c:117-118 | one more received frame of `dlc` bytes |
| Driver.McbaPriv.ProcessKeepAliveUsb | mcba_usb.c:122-151 | as `DriverState.KeepAliveUsbStep` |
| Driver.McbaPriv.SetUsbState | mcba_usb.c:148-150 | the USB version and termination state as reported |
| Driver.McbaPriv.ProcessKeepAliveCan | mcba_usb.c:153-192 | as `DriverState.KeepAliveCanStep` |
| Driver.McbaPriv.SetCanState | mcba_usb.c:187-191 | the error counters and CAN version as reported |
| Driver.McbaPriv.ProcessRx | mcba_usb.c:194-227 | as `Receive.ProcessRx` |
| Driver.McbaPriv.ReadBulkCallback | mcba_usb.c:234-288 | as `Receive.ReadCallback`; it needs only a valid header, since a read can complete before `mcba_init_ctx` sets up the pool, and it keeps the object valid when it was |
| Driver.McbaPriv.ParseRecords | mcba_usb.c:261-273 | the `pos` loop gives the state of `Receive.ParseBuffer` |
| Driver.McbaPriv.SetBittiming | mcba_usb.c:684-809 | as `Transmit.SetBittimingOp`, keeping the object valid |
| Driver.McbaPriv.GetBerrCounter | mcba_usb.c:647-656 | the stored error counters are reported, which `Receive.BerrFollowsLastKeepAlive` shows are those of the last CAN keep-alive |
| Driver.McbaPriv.TerminationStore | mcba_usb.c:66-83 | as `Transmit.TerminationStore`, keeping the object valid |

## Left out

- USB transport: URB allocation, fill, anchoring, submission, killing and the coherent buffers. Their outcome is the parameter `UsbStep` or the resubmit result. The transfer's bytes are the `TxMsg` value, not a memory copy.
- Device lifecycle and registration are not modelled: `mcba_usb_start`, its calls of `mcba_init_ctx` and of the firmware-version request, probe, disconnect, open, close, `mcba_net_set_mode`, the module table and the sysfs attribute. They are hooks of the USB and netdev cores.
- Echo-skb internals, `netif_rx` and `alloc_can_skb` are log events and parameters. Queue stopping and waking is the flag `queueStopped`.
- The header `mcba_usb.h` is not part of this model: its constants and macros stay uninterpreted, so no concrete id-packing round trip is claimed.
- Logging has no state effect and is left out. This covers the debug printouts, the debug-only `rx_lost` expression, the firmware-version warning and its condition, and the logging of a failed write completion's status. The version notices, the unsupported-message warning and the format error are kept as events.
- `sscanf` in `termination_store`: the model takes the parsed byte. When parsing fails, the C code sees its initial 0.
- Concurrency between the completion handlers and the transmit path: the source has no locking, and the model runs calls one at a time.
- DriverState.RxFrame: copies at most the 8 payload bytes. For a masked dlc above 8, the C `memcpy` runs past `cf->data`, and the model does not capture that overrun.
- Driver.McbaPriv.constructor: stands for the zeroed memory `alloc_candev` returns. It also sets `present`. In the kernel the present bit is set only when `register_candev` registers the device, after `mcba_usb_start`. Registration is part of the lifecycle, which is not modelled.
- `Wire.TxMsg` and the command encoders carry only the fields the driver assigns. The C command structures live on the stack, and their other bytes are copied to USB unassigned. The model does not capture those bytes.
- `netif_device_detach` also stops the transmit queue in the kernel. Its calls after a `-ENODEV` from a write or read submission only clear `present` in the model, so `queueStopped` does not reflect that stop.
- BitTiming.ClockFitsTable is an assumption about the header's clock: `MCBA_CAN_CLOCK / 1000000` is at most 2000. `SetBittiming` and the methods that use it require it. With a larger clock, the rows with prescaler 2 get a time quantum of 0, and the bitrate computation divides by zero. The model does not capture that case.
- Driver.McbaPriv.Xmit: the interface statistics are unbounded `nat` counters, so the wrap-around of the kernel's `unsigned long` counters is not modelled. This applies to every counter of `Priv` as well.
