# Models of the drivers, daemons and I2C tools of a teaching collection

The repository collects drivers and user programs written for teaching.  This project models the ones that carry real
state machines, heap structures, parsers or arithmetic, and proves what they are for.

`dafny verify dfyconfig.toml` checks everything.

## The parts

**USB skeleton driver** (`UsbSkel.dfy`, `UsbSkelSafety.dfy`, `UsbSkelErrors.dfy`, `UsbSkelCalls.dfy`,
`UsbSkelDevice.dfy`).  `UsbSkel` is a
transition system: any number of threads inside open, read, write and flush, each at a statement of the source; the two
completion callbacks; the core's disconnect and reset; release.  A step is one statement or one critical section.
`UsbSkelSafety` proves the invariant and the theorems over whole runs, `UsbSkelErrors` how errors reach callers,
and `UsbSkelCalls` what the calls do.
`UsbSkelDevice` is `struct usb_skel` as a class, with the callbacks and a whole `skel_read` as methods.  Trusted about the
USB core: a URB that was submitted completes once, with at most the bytes asked for; a kill, or waiting for an empty anchor,
returns only when no such URB is active; `usb_deregister_dev` waits for threads inside `skel_open`.  `skel_suspend` only
draws down, that is, lets URBs complete early, which any URB may do at any time.

**RCU demo** (`Rcu.dfy`, `RcuPointer.dfy`, `RcuList.dfy`).  Readers, updater and reclaimer of both halves, one access to
shared memory a step, from the end of module init on.  The 100 turns are any number of turns, and there are any number of
readers.  Trusted about RCU: a grace period waits for the readers that were inside a critical section at its start, and
publication orders the stores before it.  An access outside the allocated objects is the outcome `Fault`; it is proved never
to occur.

**Netlink interface registry** (`ListOp.dfy`, `NetlinkWalk.dfy`, `NetifTable.dfy`, `NetifMessage.dfy`, `NetifRegistry.dfy`).
An intrusive circular list on the heap; the walk over messages and attributes; the table of records a run of events leaves;
messages as bytes; and the registry as a class whose list refines the table.  It starts after the list head has been
initialised.

**SPD CRC and hexdump reader** (`SpdCrc.dfy`, `HexText.dfy`, `HexDump.dfy`, `HexLines.dfy`).
Polynomials over GF(2) as the reference for the CRC of
Annex K, section 4.1.2.11 of JEDEC Standard 21-C; the accumulator is an unbounded number, of which the source keeps at least
the low 16 bits.  `HexText` has the two patterns of the reader as functions on the text of a line.

**EEPROM programs** (`EepromChip.dfy`, `Eepromer.dfy`, `Eeprog.dfy`).  The chip is an array with 15 address bits, and
either page rolling or flat; for the byte programmer it is an array with an auto-incrementing pointer.

**Dumps and lists** (`RegisterDump.dfy`, `DumpRows.dfy`, `DumpImage.dfy`, `BusList.dfy`, `BusLines.dfy`,
`Parts.dfy`).  The dump printer and the parser that restores dumps,
and the printer and the parser of the bus list, on text.

**SMBus cache** (`SmbusCache.dfy`), **RAM disks** (`RamDisk.dfy`), **touch screen** (`TouchScreen.dfy`).

`Bytes.dfy` holds bytes and little-endian numbers.

## Findings

- A comment in `skel_read` says that any error is reported once.  The reader tests and clears the error in two steps without
  the lock.  A writer that comes in between reports the same error (`UsbSkelErrors.ReportedTwice`), and if another error is
  stored in between, the reader clears one that nobody is told (`UsbSkelErrors.TwiceAndNever`).  Exactly when an error is
  told twice, or lost, is `UsbSkelErrors.ToldTwice` and `UsbSkelErrors.WhenLost`; errors are also lost when a newer one
  overwrites them.
- With an 8-byte `time_t` the inode of the EEPROM file store has 72 bytes and blocks straddle pages: on a chip with page
  rolling files are then not read back (`Eepromer.WhenFilesReadBack`, `Eepromer.RollingLoses`).
- `content_read` takes every answer of the bus but 0 for a failure, although `I2C_RDWR` answers with the number of messages;
  then it prints nothing (`Eepromer.Store.ContentRead`).  The comment before `block_read` says it returns a length; the code
  returns that answer.
- The SMBus object caches an address whose `I2C_SLAVE` failed, and keeps its cache over a second open
  (`SmbusCache.FailureIsCached`, `SmbusCache.ReopenKeepsCache`).  Which calls do harm is `SmbusCache.WhenHarmless`.
- `process_dump` silently skips every row that the range of the dump cuts (`RegisterDump.RowReadsBack`).
- The sampler uses four of every five conversions: the fifth only triggers the report (`TouchScreen.Driver.AdcIrq`).

## Model

| member | source | states |
|---|---|---|
| UsbSkelSafety.InvKept | linux驱动/7-usb/usb_skeleton.c:83-466 | every step of any thread, callback, disconnect or reset keeps the joint invariant: mutual exclusion, exact reference count, read-buffer conservation, quiescence, credits and buffers |
| UsbSkelSafety.MutexMove | linux驱动/7-usb/usb_skeleton.c:136-158 | a thread changes who holds io_mutex only by taking it when free or releasing its own; between the two it is the holder, and nobody else |
| UsbSkelSafety.CountExact | linux驱动/7-usb/usb_skeleton.c:83-134 | in every reachable state kref is the number of open handles plus one while the interface is bound, skel_delete has run at most once, and has run exactly when the count is zero |
| UsbSkelSafety.DeletedIsFinal | linux驱动/7-usb/usb_skeleton.c:72-81 | after skel_delete no step of any kind is possible, so no callback or file operation can touch the deleted device |
| UsbSkelSafety.KilledForGood | linux驱动/7-usb/usb_skeleton.c:561-584 | from the two kills in skel_disconnect on, no read or write URB is in flight in any later state of the run |
| UsbSkelSafety.ResetIsQuiet | linux驱动/7-usb/usb_skeleton.c:611-630 | no URB is in flight from the end of skel_pre_reset to the end of skel_post_reset |
| UsbSkelSafety.NoByteLost | linux驱动/7-usb/usb_skeleton.c:224-330 | what readers were handed followed by the unread part of the buffer is the concatenation of all successful transfers; copied <= filled <= buffer size |
| UsbSkelSafety.HandedGrows | linux驱动/7-usb/usb_skeleton.c:286-321 | bytes that were handed out are never taken back or reordered later in the run |
| UsbSkelSafety.SubmittedIdle | linux驱动/7-usb/usb_skeleton.c:187-222 | the read URB is submitted only while idle, and a write URB only with a buffer that is allocated and not in flight |
| UsbSkelSafety.CreditsConserved | linux驱动/7-usb/usb_skeleton.c:359-466 | limit_sem plus write URBs in flight plus writers between down and hand-over is always eight, so at most eight transfer buffers exist |
| UsbSkelSafety.BuffersFreed | linux驱动/7-usb/usb_skeleton.c:332-357 | no transfer buffer is freed twice or while in flight, and when no write is under way every buffer allocated has been freed once |
| UsbSkelSafety.ConservedCallback | linux驱动/7-usb/usb_skeleton.c:160-185 | the read callback keeps the conservation of bytes and gives the read URB back, whatever the status and however short the data |
| UsbSkelSafety.QuiescedMove | linux驱动/7-usb/usb_skeleton.c:136-158 | no move of a thread submits a URB after disconnect or between draw-down and the end of a flush or reset |
| UsbSkelDevice.Skel.ReadBulkCallback | linux驱动/7-usb/usb_skeleton.c:160-185 | on the fields: errors on failure, filled on success, ongoing_read cleared, the transferred bytes at the front of the buffer |
| UsbSkelDevice.Skel.WriteBulkCallback | linux驱动/7-usb/usb_skeleton.c:332-357 | on the fields: the error is kept and one credit returned |
| UsbSkelDevice.Skel.DoReadIo | linux驱动/7-usb/usb_skeleton.c:187-222 | filled and copied are zero, ongoing_read is set exactly if the submission succeeded, the length is min(buffer size, count), and any error but -ENOMEM becomes -EIO |
| UsbSkelDevice.Skel.HandOver | linux驱动/7-usb/usb_skeleton.c:286-316 | hands over min(available, count) bytes from the front of the unread data, and starts a read of the rest of count exactly if that was less than count |
| UsbSkelDevice.Skel.ReadLocked | linux驱动/7-usb/usb_skeleton.c:243-330 | a whole skel_read: what it waits for, when it gives up with -EAGAIN or -ERESTARTSYS, which error it returns and clears, which bytes it hands over and with which result, in each of the cases that a transfer is under way, data is there, or nothing is; old unread bytes plus arrived bytes are handed bytes plus unread bytes |
| UsbSkelErrors.ToldTwice | linux驱动/7-usb/usb_skeleton.c:243-275 | in every run an error is told to at most two callers, and to two if and only if a skel_write took its error branch on it while a reader that had tested it had not cleared it, and that reader has cleared |
| UsbSkelErrors.WhenLost | linux驱动/7-usb/usb_skeleton.c:145-180 | in every run an error is told to nobody, and never will be, if and only if a completion or reset overwrote it before a reader had tested it, or a reader that had tested another error cleared it |
| UsbSkelErrors.ToldTruly | linux驱动/7-usb/usb_skeleton.c:266-275 | whatever a caller is told is an error that was stored, as -EPIPE if it was -EPIPE and as -EIO otherwise |
| UsbSkelErrors.ReportedTwice | linux驱动/7-usb/usb_skeleton.c:266-275 | a concrete run in which one error is reported to a reader and to a writer |
| UsbSkelErrors.TwiceAndNever | linux驱动/7-usb/usb_skeleton.c:266-275 | a concrete run with two write URBs in which the first error is told twice and the second to nobody |
| UsbSkelCalls.ReadHandsOver | linux驱动/7-usb/usb_skeleton.c:279-318 | in every run, a read that has come to the data hands over the next unread bytes, the smaller of what is there and what is wanted, and goes on to start a transfer for the rest exactly if it was left short; with nothing unread it starts one for all it wants |
| UsbSkelCalls.ReadArrives | linux驱动/7-usb/usb_skeleton.c:160-185 | in every run, a transfer without error leaves its data at the front of the buffer as all that is there; a failure leaves its status as the error |
| UsbSkelCalls.WriteArrives | linux驱动/7-usb/usb_skeleton.c:332-357 | in every run, a write that ends gives its credit back and frees its buffer, and a failure is stored |
| UsbSkelCalls.OpenCounts | linux驱动/7-usb/usb_skeleton.c:83-134 | in every run, opening adds the handle and one reference, and releasing takes both away |
| UsbSkelCalls.FlushClears | linux驱动/7-usb/usb_skeleton.c:148-153 | in every run, the step of a flush at the errors leaves none stored, and has told the one that was |
| UsbSkelCalls.CanHappen | linux驱动/7-usb/usb_skeleton.c:83-466 | in every run, what the hardware and the callers can do at each point: a read completes exactly while its URB is active and with no more than was asked, a write only from its own buffer, a release only without calls on the handle, an open only before the disconnect |
| UsbSkelCalls.ThreadWaits | linux驱动/7-usb/usb_skeleton.c:83-466 | a thread waits exactly at its waiting points: for the mutex, the completion, a credit or its URBs; at every other point it goes on |
| UsbSkelCalls.CoreWaits | linux驱动/7-usb/usb_skeleton.c:561-630 | in every run, the core waits exactly for the open calls under way, the mutex, the read URB or the writes in flight |
| UsbSkelCalls.ReadEnough | linux驱动/7-usb/usb_skeleton.c:224-330 | an undisturbed read that finds all it wants hands over exactly that, and changes nothing else |
| UsbSkelCalls.ReadShort | linux驱动/7-usb/usb_skeleton.c:224-330 | an undisturbed read that finds less hands over all of it, and starts a transfer for the rest without waiting, or tries to |
| UsbSkelCalls.ReadNone | linux驱动/7-usb/usb_skeleton.c:224-330 | an undisturbed read that finds nothing starts a transfer of what it wants, and waits for it with the mutex held, unless it may not wait or the transfer is refused |
| UsbSkelCalls.ReadUnderWay | linux驱动/7-usb/usb_skeleton.c:252-264 | with a transfer under way a nonblocking read returns at once and a blocking one waits until it is over or a signal comes |
| UsbSkelCalls.ReadError | linux驱动/7-usb/usb_skeleton.c:266-275 | an undisturbed read that finds an error tells it, clears it and does nothing else |
| UsbSkelCalls.ReadGone | linux驱动/7-usb/usb_skeleton.c:243-246 | a read of a disconnected device changes nothing |
| UsbSkelCalls.WriteSends | linux驱动/7-usb/usb_skeleton.c:359-466 | an undisturbed write leaves one more URB in flight, with a buffer and a credit of its own; one that is refused frees its buffer and gives the credit back |
| UsbSkelCalls.WriteError | linux驱动/7-usb/usb_skeleton.c:392-401 | an undisturbed write that finds an error tells it, clears it and sends nothing |
| UsbSkelCalls.WriteGone | linux驱动/7-usb/usb_skeleton.c:422-427 | a write to a disconnected device frees its buffer, gives the credit back and sends nothing |
| UsbSkelCalls.WriteNoMemory | linux驱动/7-usb/usb_skeleton.c:402-414 | an undisturbed write that gets no URB or buffer gives its credit back and changes nothing |
| UsbSkelCalls.WriteNoData | linux驱动/7-usb/usb_skeleton.c:416-419 | an undisturbed write whose data cannot be copied frees its buffer and gives its credit back |
| UsbSkelCalls.FlushTells | linux驱动/7-usb/usb_skeleton.c:136-158 | a flush with nothing in flight tells and clears an error, whatever it is |
| UsbSkelCalls.Disconnects | linux驱动/7-usb/usb_skeleton.c:561-592 | a disconnect with nothing in flight marks the device and drops the reference of the interface |
| UsbSkelCalls.Resets | linux驱动/7-usb/usb_skeleton.c:611-630 | a reset with nothing in flight stores -EPIPE as a new error |
| RcuPointer.NoUseAfterFree | linux内核/rcu机制/rcu_demo.c:26-81 | in every run no access of a reader, the updater or the reclaimer is to a freed object, and every object a reader is on is still allocated |
| RcuPointer.WholeAndForward | linux内核/rcu机制/rcu_demo.c:26-42 | each critical section prints one whole version, all zero or v, v+1, v+2, and the versions one reader prints never go back |
| RcuPointer.ReplacedAreFreedOnce | linux内核/rcu机制/rcu_demo.c:44-81 | between updates every replaced object is either waiting for its grace period or freed exactly once; allocated = freed + waiting + 1 |
| RcuPointer.InvKept | linux内核/rcu机制/rcu_demo.c:26-81 | every step keeps the invariant, in particular that a callback still waits for every reader on its object |
| RcuPointer.ReclaimGrace | linux内核/rcu机制/rcu_demo.c:44-50 | when a callback runs no reader is on its object |
| RcuPointer.ExitPrints | linux内核/rcu机制/rcu_demo.c:33-39 | in every run, each critical section prints the object g_pfoo pointed at when it dereferenced it, one whole version, not older than the one current when it was entered |
| RcuPointer.OnlyExitPrints | linux内核/rcu机制/rcu_demo.c:33-39 | nothing else is ever printed by a reader |
| RcuPointer.UpdaterGoesOn | linux内核/rcu机制/rcu_demo.c:52-81 | in every reachable state the updater can take its next access, which fills, publishes or retires as the source does; call_rcu waits for exactly the readers there are |
| RcuPointer.ReaderGoesOn | linux内核/rcu机制/rcu_demo.c:33-39 | in every reachable state a reader can take its next access and no other |
| RcuPointer.ExitReleases | linux内核/rcu机制/rcu_demo.c:33-50 | in every run, a reader that leaves its critical section is waited for no longer by any callback, and nobody else is let go |
| RcuPointer.ReclaimWhenDue | linux内核/rcu机制/rcu_demo.c:44-50 | a callback can run exactly when all readers it waits for have left, and then frees its object |
| RcuList.NoUseAfterFree | linux内核/rcu机制/rcu_demo.c:84-130 | in every run no access follows a poisoned pointer or touches a freed entry |
| RcuList.OneEntryAWalk | linux内核/rcu机制/rcu_demo.c:84-100 | each walk of the list prints exactly one entry, whole, and no reader ever goes back to an older one |
| RcuList.OneRetired | linux内核/rcu机制/rcu_demo.c:103-130 | at most one entry is retired and not freed, all before it were freed once, and between updates head and current entry point at each other |
| RcuList.InvKept | linux内核/rcu机制/rcu_demo.c:84-130 | every access, each of the five pointer stores of list_replace_rcu among them, keeps the invariant |
| RcuList.ExitPrints | linux内核/rcu机制/rcu_demo.c:90-97 | in every run, each walk prints the entry that was first on the list when it took it, and only that, whole, and not older than the one that was first when the critical section was entered |
| RcuList.ExitReleases | linux内核/rcu机制/rcu_demo.c:90-97 | in every run, a reader that leaves its critical section is waited for no longer, and nobody else is let go |
| RcuList.UpdaterGoesOn | linux内核/rcu机制/rcu_demo.c:103-130 | in every reachable state the updater can take its next access unless it waits for a reader; the new entry is first after the store into the head, and the old one is freed at the end of the turn |
| RcuList.ReaderGoesOn | linux内核/rcu机制/rcu_demo.c:90-97 | in every reachable state a reader can take its next access and no other |
| ListOp.ListAdd | linux应用/网络高级编程/网络事件通知-网络接口信息及路由信息-netlink方式/src/list_op.c:12-18 | linking a node in between the last and first node of a ring appends it to the ring |
| ListOp.ListDel | linux应用/网络高级编程/网络事件通知-网络接口信息及路由信息-netlink方式/src/list_op.c:27-31 | linking the neighbours of a node removes it from the ring |
| ListOp.CommonListEmpty | linux应用/网络高级编程/网络事件通知-网络接口信息及路由信息-netlink方式/src/list_op.c:39-42 | true exactly for the list without nodes |
| ListOp.CommonListAdd | linux应用/网络高级编程/网络事件通知-网络接口信息及路由信息-netlink方式/src/list_op.c:51-54 | the list becomes the new node followed by the old ones |
| ListOp.CommonListAddTail | linux应用/网络高级编程/网络事件通知-网络接口信息及路由信息-netlink方式/src/list_op.c:63-66 | the list becomes the old nodes followed by the new one |
| ListOp.CommonListDel | linux应用/网络高级编程/网络事件通知-网络接口信息及路由信息-netlink方式/src/list_op.c:97-100 | node i is removed and keeps its stale links |
| ListOp.CommonListDelInit | linux应用/网络高级编程/网络事件通知-网络接口信息及路由信息-netlink方式/src/list_op.c:108-112 | node i is removed and left an empty list of its own |
| ListOp.CommonListSplice | linux应用/网络高级编程/网络事件通知-网络接口信息及路由信息-netlink方式/src/list_op.c:75-89 | the list becomes the spliced nodes followed by its own; the emptied head keeps its stale links |
| ListOp.InitListHead | linux应用/网络高级编程/网络事件通知-网络接口信息及路由信息-netlink方式/include/list_op.h:23-25 | a head that points at itself is an empty list |
| ListOp.FreeList | linux应用/网络高级编程/网络事件通知-网络接口信息及路由信息-netlink方式/include/list_op.h:34-42 | COMMON_FREE_LIST terminates, frees every node once in list order and leaves an empty list |
| ListOp.ListUnique | linux应用/网络高级编程/网络事件通知-网络接口信息及路由信息-netlink方式/include/list_op.h:79-80 | the links determine the sequence of nodes a walk meets |
| ListOp.AnyNodeIsHead | linux应用/网络高级编程/网络事件通知-网络接口信息及路由信息-netlink方式/src/list_op.c:97-100 | a ring has no first node: any node may be taken as the head of the others |
| NetlinkWalk.WalkInside | linux应用/网络高级编程/网络事件通知-网络接口信息及路由信息-netlink方式/src/netif_event.c:28-32 | every record a walk visits lies wholly inside the given length |
| NetlinkWalk.WalkExact | linux应用/网络高级编程/网络事件通知-网络接口信息及路由信息-netlink方式/src/netif_event.c:85-96 | a sequence of records is the walk if and only if it is a chain of well-formed records from the start at whose end none is well-formed |
| NetlinkWalk.WalkLaidOut | linux应用/网络高级编程/网络事件通知-网络接口信息及路由信息-netlink方式/src/netif_event.c:33-36 | records laid out by the LENGTH and SPACE macros are walked back one by one, each with its type, header and payload |
| NetlinkWalk.LastOfMeaning | linux应用/网络高级编程/网络事件通知-网络接口信息及路由信息-netlink方式/src/netif_event.c:158-165 | the slot of a type is its last well-formed attribute, and empty exactly if there is none |
| NetlinkWalk.ParseRtattr | linux应用/网络高级编程/网络事件通知-网络接口信息及路由信息-netlink方式/src/netif_event.c:158-165 | terminates for every buffer; tb[t] becomes the last attribute of type t up to max and other slots keep their value |
| NetifTable.TableIsMap | linux应用/网络高级编程/网络事件通知-网络接口信息及路由信息-netlink方式/src/netif_event.c:459-545 | after any run of events there is one record per interface ever named: its state is what the last of its events announces, its flags are those of its last link event, each byte of mtu and hardware address is from the last attribute that had it, and its address is that of the last address event or zero after a deletion that does not directly follow one |
| NetifTable.StoreThenNotify | linux应用/网络高级编程/网络事件通知-网络接口信息及路由信息-netlink方式/src/netif_event.c:425-456 | storing the fields and then notifying is one step of the table; RTM_DELADDR stores the address first and wipes it unless the previous state was already IF_DELADDR |
| NetifTable.WithoutMeaning | linux应用/网络高级编程/网络事件通知-网络接口信息及路由信息-netlink方式/src/netif_list.c:34-52 | deletion removes the record with the name and no other |
| NetifTable.RunConcat | linux应用/网络高级编程/网络事件通知-网络接口信息及路由信息-netlink方式/src/netif_event.c:555-585 | serving two runs of events one after the other is serving their concatenation |
| NetifMessage.EventReadsBack | linux应用/网络高级编程/网络事件通知-网络接口信息及路由信息-netlink方式/src/netif_event.c:459-545 | a message that carries an event is read back as that event, whatever else is in its header, its fixed part and its other attributes |
| NetifMessage.EventsReadBack | linux应用/网络高级编程/网络事件通知-网络接口信息及路由信息-netlink方式/src/netif_event.c:547-586 | a buffer of such messages delivers exactly their events, in order |
| NetifMessage.SlotInside | linux应用/网络高级编程/网络事件通知-网络接口信息及路由信息-netlink方式/src/netif_event.c:405-416 | the data dispatch_rta copies lies inside the message |
| NetifRegistry.Registry.constructor | linux应用/网络高级编程/网络事件通知-网络接口信息及路由信息-netlink方式/src/netif_event.c:715-716 | the registry starts as an empty list with count zero |
| NetifRegistry.Registry.NodeFind | linux应用/网络高级编程/网络事件通知-网络接口信息及路由信息-netlink方式/src/netif_list.c:54-70 | the node with the name, or null exactly if the table has none |
| NetifRegistry.Registry.NodeAdd | linux应用/网络高级编程/网络事件通知-网络接口信息及路由信息-netlink方式/src/netif_list.c:9-32 | a zeroed record with the name goes to the front of list and table, and is counted; names stay distinct exactly if the name was new |
| NetifRegistry.Registry.NodeDel | linux应用/网络高级编程/网络事件通知-网络接口信息及路由信息-netlink方式/src/netif_list.c:34-52 | the record with the name is removed and counted out; -1 exactly if there was none |
| NetifRegistry.Registry.DispatchRta | linux应用/网络高级编程/网络事件通知-网络接口信息及路由信息-netlink方式/src/netif_event.c:405-416 | the data of the slot overlays the front of the field |
| NetifRegistry.Registry.EventNotify | linux应用/网络高级编程/网络事件通知-网络接口信息及路由信息-netlink方式/src/netif_event.c:425-456 | the table with the record notified: address wiped on a change to IF_DELADDR, state set |
| NetifRegistry.Registry.IfinfomsgHandle | linux应用/网络高级编程/网络事件通知-网络接口信息及路由信息-netlink方式/src/netif_event.c:459-503 | one link message is one step of the table, and none if it names no interface |
| NetifRegistry.Registry.IfaddrmsgHandle | linux应用/网络高级编程/网络事件通知-网络接口信息及路由信息-netlink方式/src/netif_event.c:505-545 | one address message is one step of the table |
| NetifRegistry.Registry.MessageHandle | linux应用/网络高级编程/网络事件通知-网络接口信息及路由信息-netlink方式/src/netif_event.c:562-583 | messages of other types change nothing |
| NetifRegistry.Registry.EventHandle | linux应用/网络高级编程/网络事件通知-网络接口信息及路由信息-netlink方式/src/netif_event.c:557-584 | each well-formed message before the first malformed one is handled once, in order |
| NetifRegistry.Registry.Serve | linux应用/网络高级编程/网络事件通知-网络接口信息及路由信息-netlink方式/src/netif_event.c:547-586 | over any run of received buffers the heap list is the fold of all delivered events: from the start, one record per interface named, made by its own events |
| SpdCrc.CheckCrc | linux驱动/4-iic/i2c/i2c_user-space/i2c-tools-3.1.0/eeprom/decode-dimms:1607-1633 | computed is the division remainder of the covered bytes, stored is bytes 127 and 126, and the answer is whether they agree |
| SpdCrc.Accumulate | linux驱动/4-iic/i2c/i2c_user-space/i2c-tools-3.1.0/eeprom/decode-dimms:1615-1625 | for messages of any length the unmasked accumulator agrees in its low 16 bits with the division remainder |
| SpdCrc.RegisterIsRemainder | linux驱动/4-iic/i2c/i2c_user-space/i2c-tools-3.1.0/eeprom/decode-dimms:1615-1625 | shift and xor over all bits is division of M(x)x^16 by x^16+x^12+x^5+1 |
| SpdCrc.RemainderUnique | linux驱动/4-iic/i2c/i2c_user-space/i2c-tools-3.1.0/eeprom/decode-dimms:1615-1625 | the remainder and the quotient of that division are unique |
| SpdCrc.PassesIsDivision | linux驱动/4-iic/i2c/i2c_user-space/i2c-tools-3.1.0/eeprom/decode-dimms:1628-1632 | the check passes exactly if the stored bytes are the remainder of the covered ones |
| SpdCrc.RemainderLinear | linux驱动/4-iic/i2c/i2c_user-space/i2c-tools-3.1.0/eeprom/decode-dimms:1616-1623 | the remainder of an xor is the xor of the remainders |
| SpdCrc.BurstDetected | linux驱动/4-iic/i2c/i2c_user-space/i2c-tools-3.1.0/eeprom/decode-dimms:1611-1630 | a changed burst of at most 16 bits in the covered bytes that leaves bit 7 of byte 0 alone makes the check fail |
| SpdCrc.ShiftStepLow16 | linux驱动/4-iic/i2c/i2c_user-space/i2c-tools-3.1.0/eeprom/decode-dimms:1617-1622 | one step of the unmasked shift is one step of the 16-bit register |
| EepromChip.AddressWraps | linux驱动/4-iic/i2c/i2c_user-space/i2c-tools-3.1.0/eepromer/eepromer.c:341-354 | the two address bytes point at the address modulo 32768 |
| EepromChip.WrittenPlain | linux驱动/4-iic/i2c/i2c_user-space/i2c-tools-3.1.0/eepromer/eepromer.c:217-271 | a write that stays in its page, or on a flat chip in the memory, replaces exactly its bytes |
| Eepromer.StoreThenRead | linux驱动/4-iic/i2c/i2c_user-space/i2c-tools-3.1.0/eepromer/eepromer.c:395-501 | every file up to EEPROM_SIZE - HEAD_SIZE, multiples of 64 and the empty one included, is read back as stored, and nothing behind it changes |
| Eepromer.RollingAgrees | linux驱动/4-iic/i2c/i2c_user-space/i2c-tools-3.1.0/eepromer/eepromer.c:395-456 | with a 4-byte time_t a page-rolling chip and a flat one end up with the same memory |
| Eepromer.WhenFilesReadBack | linux驱动/4-iic/i2c/i2c_user-space/i2c-tools-3.1.0/eepromer/eepromer.c:395-501 | all files are read back on all chips if and only if the chip is flat or time_t has 4 bytes |
| Eepromer.RollingLoses | linux驱动/4-iic/i2c/i2c_user-space/i2c-tools-3.1.0/eepromer/eepromer.c:395-456 | with an 8-byte time_t byte 56 of a short file is read from a page that was not written |
| Eepromer.InodeReadsBack | linux驱动/4-iic/i2c/i2c_user-space/i2c-tools-3.1.0/eepromer/eepromer.c:584-690 | an inode that was written is read back, all its fields |
| Eepromer.ErasedIsEmpty | linux驱动/4-iic/i2c/i2c_user-space/i2c-tools-3.1.0/eepromer/eepromer.c:505-534 | an erased chip holds an empty file |
| Eepromer.Store.BlockWrite | linux驱动/4-iic/i2c/i2c_user-space/i2c-tools-3.1.0/eepromer/eepromer.c:217-271 | one block at the masked address, or error 1 and no change |
| Eepromer.Store.BlockRead | linux驱动/4-iic/i2c/i2c_user-space/i2c-tools-3.1.0/eepromer/eepromer.c:276-323 | 64 bytes from the masked address on |
| Eepromer.Store.InodeWrite | linux驱动/4-iic/i2c/i2c_user-space/i2c-tools-3.1.0/eepromer/eepromer.c:584-636 | the inode with time and length goes to address 0 |
| Eepromer.Store.InodeRead | linux驱动/4-iic/i2c/i2c_user-space/i2c-tools-3.1.0/eepromer/eepromer.c:641-690 | the inode in memory becomes the one on the chip, or stays if the read fails |
| Eepromer.Store.ContentWrite | linux驱动/4-iic/i2c/i2c_user-space/i2c-tools-3.1.0/eepromer/eepromer.c:395-456 | standard input is stored block by block with its length in the inode; 1 and no change if the bus fails |
| Eepromer.Store.ContentRead | linux驱动/4-iic/i2c/i2c_user-space/i2c-tools-3.1.0/eepromer/eepromer.c:461-501 | prints the stored file if the bus answers 0; any other answer to a block read prints nothing and returns 1 |
| Eepromer.Store.Erase | linux驱动/4-iic/i2c/i2c_user-space/i2c-tools-3.1.0/eepromer/eepromer.c:505-534 | every byte becomes zero |
| Eepromer.Store.WriteThenRead | linux驱动/4-iic/i2c/i2c_user-space/i2c-tools-3.1.0/eepromer/eepromer.c:395-501 | content_write and then content_read: what went in comes out, on a flat chip or with a 4-byte time_t |
| Eepromer.Store.EraseThenRead | linux驱动/4-iic/i2c/i2c_user-space/i2c-tools-3.1.0/eepromer/eepromer.c:461-534 | erase and then content_read prints nothing |
| Eeprog.WordInOrder | linux驱动/4-iic/i2c/i2c_user-space/i2c-tools-3.1.0/eepromer/24cXX.c:48-60 | the word packing puts address high, address low and data on the wire in that order |
| Eeprog.AddressRoundTrip | linux驱动/4-iic/i2c/i2c_user-space/i2c-tools-3.1.0/eepromer/24cXX.c:149-181 | the address bytes set the pointer to the address modulo the size of the chip |
| Eeprog.ProgramThenDump | linux驱动/4-iic/i2c/i2c_user-space/i2c-tools-3.1.0/eepromer/eeprog.c:122-166 | up to Size bytes written from any address, wrap included, are read back from there |
| Eeprog.ProgramTooMuch | linux驱动/4-iic/i2c/i2c_user-space/i2c-tools-3.1.0/eepromer/eeprog.c:122-166 | one byte more is read back if and only if the first and the last byte agree |
| Eeprog.Eeprom.WriteByte | linux驱动/4-iic/i2c/i2c_user-space/i2c-tools-3.1.0/eepromer/24cXX.c:169-181 | exactly the addressed cell changes; -1 for an unknown type |
| Eeprog.Eeprom.ReadByte | linux驱动/4-iic/i2c/i2c_user-space/i2c-tools-3.1.0/eepromer/24cXX.c:147-167 | the addressed cell, and the pointer is left behind it |
| Eeprog.Eeprom.ReadFromEeprom | linux驱动/4-iic/i2c/i2c_user-space/i2c-tools-3.1.0/eepromer/eeprog.c:122-153 | one addressed read and then current reads give the cells in order, wrapping at the end |
| Eeprog.Eeprom.WriteToEeprom | linux驱动/4-iic/i2c/i2c_user-space/i2c-tools-3.1.0/eepromer/eeprog.c:155-166 | the input is programmed byte by byte from the address on |
| Eeprog.Eeprom.WriteThenRead | linux驱动/4-iic/i2c/i2c_user-space/i2c-tools-3.1.0/eepromer/eeprog.c:122-166 | the program's write and read, one after the other, give the data back |
| RamDisk.Disk.MakeRequest | linux驱动/2-block_device/blk_hard/blk_hard.c:39-71 | a bio cut into any segments: a write patches the disk with their concatenation, a read makes their concatenation what the disk has there; -EIO for a kind the driver does not know |
| RamDisk.Disk.WriteThenRead | linux驱动/2-block_device/blk_mid/blk_mid.c:25-61 | a write and a read with different segmentations, in other pages or the same, give the data back and leave the rest of the disk alone |
| RamDisk.HoldUnique | linux驱动/2-block_device/blk_hard/blk_hard.c:46-68 | segments have exactly one concatenation, so any two cuts of the same data have the same effect |
| RamDisk.SimpleDisk.DoRequest | linux驱动/2-block_device/blk_simp/blk_simp.c:30-43 | a write patches the disk with the buffer, a read makes the buffer what the disk has there, and any other kind changes nothing |
| RamDisk.ServeBoth | linux驱动/2-block_device/blk_simp/blk_simp.c:30-43 | from equal disks, a segmented device and a single-copy one given the same data end up with equal disks and the same data |
| RamDisk.SimpleDisk.DoQueue | linux驱动/2-block_device/blk_simp/blk_simp.c:25-45 | requests are served in order, each on the disk the one before it left |
| SmbusCache.CacheIsInvisible | linux驱动/4-iic/i2c/i2c_user-space/i2c-tools-3.1.0/py-smbus/smbusmodule.c:153-163 | in every run of proper calls from a fresh object each transfer goes to the same address with the same PEC flag as without a cache |
| SmbusCache.WhenInvisible | linux驱动/4-iic/i2c/i2c_user-space/i2c-tools-3.1.0/py-smbus/smbusmodule.c:153-163 | all proper continuations agree with the uncached object if and only if the cache agrees with the kernel, or on a closed object with what the next file starts with |
| SmbusCache.WhenHarmless | linux驱动/4-iic/i2c/i2c_user-space/i2c-tools-3.1.0/py-smbus/smbusmodule.c:153-163 | after any call all proper continuations agree if and only if the call met its guard: open on a closed object or one on which nothing was set, a transfer whose address is the cached one or is accepted, or does no harm |
| SmbusCache.GuardedRun | linux驱动/4-iic/i2c/i2c_user-space/i2c-tools-3.1.0/py-smbus/smbusmodule.c:73-127 | after any run of calls that met their guards all proper continuations agree |
| SmbusCache.FailureIsCached | linux驱动/4-iic/i2c/i2c_user-space/i2c-tools-3.1.0/py-smbus/smbusmodule.c:158-159 | after a failed I2C_SLAVE the next transfer to that address goes elsewhere |
| SmbusCache.ReopenKeepsCache | linux驱动/4-iic/i2c/i2c_user-space/i2c-tools-3.1.0/py-smbus/smbusmodule.c:120-123 | after open on an open object the cached address is stale |
| SmbusCache.SMBus.SetSlave | linux驱动/4-iic/i2c/i2c_user-space/i2c-tools-3.1.0/py-smbus/smbusmodule.c:153-163 | the ioctl is issued only for a new address, which is cached even if it fails |
| SmbusCache.SMBus.SetPecFlag | linux驱动/4-iic/i2c/i2c_user-space/i2c-tools-3.1.0/py-smbus/smbusmodule.c:602-628 | the ioctl is issued only for a new value, which is cached only if it succeeds |
| SmbusCache.SMBus.OpenBus | linux驱动/4-iic/i2c/i2c_user-space/i2c-tools-3.1.0/py-smbus/smbusmodule.c:103-127 | a new file; the cache stays |
| SmbusCache.SMBus.CloseBus | linux驱动/4-iic/i2c/i2c_user-space/i2c-tools-3.1.0/py-smbus/smbusmodule.c:73-86 | the object is fresh again, unless close fails |
| SmbusCache.SMBus.Access | linux驱动/4-iic/i2c/i2c_user-space/i2c-tools-3.1.0/py-smbus/smbusmodule.c:165-170 | a transfer goes to the kernel's address once setting it has succeeded |
| TouchScreen.Driver.AdcIrq | linux驱动/3-input_event/touch_screen/my_ts.c:90-127 | four samples with the pen down are summed; at the fifth conversion their average is reported and the sums start anew; a release does not reset them |
| TouchScreen.Driver.TsIrq | linux驱动/3-input_event/touch_screen/my_ts.c:72-89 | ends in auto mode with a conversion started, or reports the release and waits for the pen |
| TouchScreen.Driver.TimerFunc | linux驱动/3-input_event/touch_screen/my_ts.c:58-69 | ends in auto mode with a conversion started, or waits for the pen |
| TouchScreen.Driver.Serve | linux驱动/3-input_event/touch_screen/my_ts.c:42-127 | over any sequence of interrupts the touches reported are the rounded-down averages of exactly the groups of four samples, in order, each at most 0x3ff |
| TouchScreen.OneMore | linux驱动/3-input_event/touch_screen/my_ts.c:94-116 | how one more sample changes what has been reported and what is pending |
| TouchScreen.ConversionsAre | linux驱动/3-input_event/touch_screen/my_ts.c:97-98 | the samples are the low ten bits of the two data registers, in order, of the conversions with bit 15 of the first clear |
| TouchScreen.PointsInRange | linux驱动/3-input_event/touch_screen/my_ts.c:97-98 | every reported coordinate is at most 0x3ff |
| HexText.RowDecided | linux驱动/4-iic/i2c/i2c_user-space/i2c-tools-3.1.0/eeprom/decode-dimms:1491 | the scanner finds a match of the row pattern if and only if there is one, with the only possible address and start of the cells |
| HexDump.ReadHexdump | linux驱动/4-iic/i2c/i2c_user-space/i2c-tools-3.1.0/eeprom/decode-dimms:1473-1527 | from the text of the lines, the loop computes the fold of its turns: `*` lines, rows, closing line, skipped header, death on garbage |
| HexDump.RowRecognised | linux驱动/4-iic/i2c/i2c_user-space/i2c-tools-3.1.0/eeprom/decode-dimms:1487-1506 | a printed row, with any blanks between the cells and anything behind them, is recognised as its address and its cells |
| HexDump.DumpReadsBack | linux驱动/4-iic/i2c/i2c_user-space/i2c-tools-3.1.0/eeprom/decode-dimms:1473-1527 | the text of a squeezed dump of any image of whole rows, with addresses of two to eight digits that are enough for it, is read back as the image, whether rows show bytes or 16-bit words of the order the reader was told |
| HexLines.WhenDies | linux驱动/4-iic/i2c/i2c_user-space/i2c-tools-3.1.0/eeprom/decode-dimms:1486-1519 | for any lines: the reader dies if and only if none has an address, or one that matches neither pattern comes behind one with an address and before any that closes |
| HexLines.LeadingSkipped | linux驱动/4-iic/i2c/i2c_user-space/i2c-tools-3.1.0/eeprom/decode-dimms:1493 | a dump is read back whatever lines without an address come before it |
| HexLines.RowsAnywhere | linux驱动/4-iic/i2c/i2c_user-space/i2c-tools-3.1.0/eeprom/decode-dimms:1498-1516 | rows at any addresses, in any order: every byte is found as the last row has it that covers it, and nothing where there is no row |
| DumpImage.DumpIsHexdump | linux驱动/4-iic/i2c/i2c_user-space/i2c-tools-3.1.0/eeprom/decode-dimms:1468-1527 | the output of i2cdump for all registers, with its line over the columns, is read as exactly the registers |
| HexDump.ExpandDecided | linux驱动/4-iic/i2c/i2c_user-space/i2c-tools-3.1.0/eeprom/decode-dimms:1499-1503 | whatever rows came before, each whole row between a `*` and the next address becomes the row before the `*`, what is left of the gap is cleared, and nothing else changes |
| HexDump.ExpandRun | linux驱动/4-iic/i2c/i2c_user-space/i2c-tools-3.1.0/eeprom/decode-dimms:1499-1503 | a `*` is expanded to the rows that were left out |
| HexText.HexOfDigits | linux驱动/4-iic/i2c/i2c_user-space/i2c-tools-3.1.0/eeprom/decode-dimms:1498-1516 | hex undoes printing in hex |
| RegisterDump.ReadBlocks | linux驱动/4-iic/i2c/i2c_user-space/i2c-tools-3.1.0/tools/i2cdump.c:341-361 | for any chunk sizes the loop ends, stays inside cblock and leaves the registers in block; an error or empty chunk ends it at once |
| RegisterDump.PrintDump | linux驱动/4-iic/i2c/i2c_user-space/i2c-tools-3.1.0/tools/i2cdump.c:373-481 | the line over the columns, and then the rows of the range, with blank cells outside it and X for registers that could not be read |
| RegisterDump.DumpShows | linux驱动/4-iic/i2c/i2c_user-space/i2c-tools-3.1.0/tools/i2cdump.c:383-456 | each register is shown on the line for its row and in its column: blanks outside the range, X if it could not be read, its value in hex, and in a byte dump also as a character, a point for 0 and 0xff or a question mark |
| RegisterDump.WordHeader | linux驱动/4-iic/i2c/i2c_user-space/i2c-tools-3.1.0/tools/i2cdump.c:459 | in a word dump the numbers of the two registers of a column stand over the middle of its cells |
| RegisterDump.ByteHeader | linux驱动/4-iic/i2c/i2c_user-space/i2c-tools-3.1.0/tools/i2cdump.c:373-374 | the number of a column stands over the last digit of its cells and over its characters |
| RegisterDump.ProcessDump | linux驱动/4-iic/i2c/i2c_user-space/i2c-tools-3.1.0/stub/i2c-stub-from-dump:121-180 | one command for every value on a matching line, in order, up to and including the first that fails; 3 on failure, 1 for only garbage |
| DumpRows.RowDecided | linux驱动/4-iic/i2c/i2c_user-space/i2c-tools-3.1.0/stub/i2c-stub-from-dump:130-145 | for any line: a pattern matches if and only if the line is an address, a colon, the right number of values of hex digits or X, each behind a blank, and anything after them |
| DumpRows.LineRestores | linux驱动/4-iic/i2c/i2c_user-space/i2c-tools-3.1.0/stub/i2c-stub-from-dump:130-160 | for any line: the known values of such a row are restored in order, each to its register, and nothing is restored from any other line |
| RegisterDump.RowReadsBack | linux驱动/4-iic/i2c/i2c_user-space/i2c-tools-3.1.0/stub/i2c-stub-from-dump:130-160 | a printed row is turned into the commands for exactly its values if no cell is blank, and into nothing otherwise |
| RegisterDump.MatchesOwn | linux驱动/4-iic/i2c/i2c_user-space/i2c-tools-3.1.0/stub/i2c-stub-from-dump:130-145 | a row matches its pattern if and only if no register in it was skipped |
| RegisterDump.MatchesNoOther | linux驱动/4-iic/i2c/i2c_user-space/i2c-tools-3.1.0/stub/i2c-stub-from-dump:130-145 | a byte row never matches the word pattern nor a word row the byte pattern |
| RegisterDump.RowOfDump | linux驱动/4-iic/i2c/i2c_user-space/i2c-tools-3.1.0/tools/i2cdump.c:383-429 | of a dump of a range, a row inside it restores all its registers and a row it cuts restores none |
| RegisterDump.DumpRestores | linux驱动/4-iic/i2c/i2c_user-space/i2c-tools-3.1.0/stub/i2c-stub-from-dump:121-180 | a dump of complete rows, byte or word, with the line over the columns, is restored with exactly one write per register read and none for XX |
| RegisterDump.SetsValue | linux驱动/4-iic/i2c/i2c_user-space/i2c-tools-3.1.0/stub/i2c-stub-from-dump:137-154 | the hex text handed to i2cset is the value of the register |
| BusList.Rtrim | linux驱动/4-iic/i2c/i2c_user-space/i2c-tools-3.1.0/tools/i2cbusses.c:91-98 | trailing blanks and newlines become NULs in place; the result is the length with the NUL |
| BusList.ParseInPlace | linux驱动/4-iic/i2c/i2c_user-space/i2c-tools-3.1.0/tools/i2cbusses.c:146-182 | one line is cut into its three fields from the back, packed without overlap in one allocation of the exact size |
| BusList.MoreAdapters | linux驱动/4-iic/i2c/i2c_user-space/i2c-tools-3.1.0/tools/i2cbusses.c:115-127 | the same entries, with eight empty ones behind them |
| BusList.Gather | linux驱动/4-iic/i2c/i2c_user-space/i2c-tools-3.1.0/tools/i2cbusses.c:145-186 | the array holds the adapters of the list in order, ends in an empty entry, and its size is the next multiple of eight above the count |
| BusList.LineReadsBack | linux驱动/4-iic/i2c/i2c_user-space/i2c-tools-3.1.0/tools/i2cdetect.c:176-180 | a printed line is parsed back if and only if its fields have no tab and no trailing blank |
| BusLines.LineDecided | linux驱动/4-iic/i2c/i2c_user-space/i2c-tools-3.1.0/tools/i2cbusses.c:146-163 | for any line: it is taken for an adapter if and only if it is "i2c-", a number, anything, and behind its last three tabs the fields, which lose the blanks at their ends |
| BusLines.NumberDecided | linux驱动/4-iic/i2c/i2c_user-space/i2c-tools-3.1.0/tools/i2cbusses.c:163 | for any text: a bus number is read if and only if the text is blanks, a sign or none, and digits, and it is the number the digits stand for |
| BusList.ListReadsBack | linux驱动/4-iic/i2c/i2c_user-space/i2c-tools-3.1.0/tools/i2cbusses.c:144-186 | a printed list of such adapters whose lines fit the 120-byte buffer is gathered back |
| BusList.PrintBuses | linux驱动/4-iic/i2c/i2c_user-space/i2c-tools-3.1.0/tools/i2cdetect.c:165-183 | the text is the printed list of the entries |
| BusList.LookupByName | linux驱动/4-iic/i2c/i2c_user-space/i2c-tools-3.1.0/tools/i2cbusses.c:295-327 | the last bus with the name, or -1 if there is none, unless one before it has a number that is not negative, which gives -4 |
| BusList.PickedUnique | linux驱动/4-iic/i2c/i2c_user-space/i2c-tools-3.1.0/tools/i2cbusses.c:295-327 | where bus numbers are not negative: the number exactly if one bus has the name, -1 for none, -4 for several |

## Left out

- UsbSkelDevice.Skel.ReadLocked: one thread's call; other threads and interleavings are in the transition system. A thread
  that has used up the given turns is taken to be interrupted.
- UsbSkelSafety.NoByteLost: a chunk that copy_to_user could not store counts as handed over, because bulk_in_copied advances.
- UsbSkelDevice.Skel.WriteBulkCallback: the transfer buffer is freed in the transition system, not in the object.
- USB driver: liveness and fairness of waits, probe, autosuspend counts, and the contents of
  written data.
- RcuPointer.NoUseAfterFree: module init and exit are not modelled; kzalloc succeeds, and the counter does not overflow.
- RcuList.InvKept: the five stores of list_replace_rcu follow the kernel's list header, which is not part of this model.
- NetifRegistry.Registry.IfinfomsgHandle: requires that attribute data fits the field it is copied to, because the program
  copies without looking and would write past the field; the same holds for names and for address messages.
- NetifRegistry.Registry.NodeAdd: allocation succeeds; the mutex is not modelled, since one thread handles all events.
- Netlink program: sockets, epoll, threads, logging, routes and the printers. IFLA_MAX and IFA_MAX are parameters. Hosts are
  little-endian.
- ListOp.FreeList: free is recorded in a ghost result; memory is not reused.
- SpdCrc.Accumulate: the loop bound is a parameter, at least that of the source's two; 64-bit truncation of the accumulator
  is not modelled, as it cannot reach the low 16 bits.
- Eepromer.Store.ContentRead: chips whose inode holds a length below minus the inode size are excluded, as the loop bound
  then wraps in size_t; the bus gives the same answer to every transfer.
- Eepromer: prompts, the header printer, and the interpretation of the time stamp.
- Eeprog.Eeprom.ReadFromEeprom: the hex format of the output, and a size of zero, for which the loop does not end; transfers
  succeed, since the program exits on an error.
- RamDisk.Disk.MakeRequest: segments of one bio are disjoint and not on the disk buffer, and the request is within capacity.
- SmbusCache.CacheIsInvisible: what a transfer carries; the conversion of lists to data blocks is left out as easy.
- TouchScreen.Driver.Serve: the delay of the timer, and interrupts inside handlers.
- HexDump.ReadHexdump: the cache of files, and cells run together into more than 16 digits, whose value Perl rounds.
- RegisterDump.PrintDump: bank switching, the SMBus block mode and words shown as two bytes.
- BusList.Gather: allocation succeeds; a line without three tabs or without a bus number, where the program would follow a
  null pointer or use an unset number, ends the model with ok false. Once filled, an allocation is a value. The sysfs branch
  is left out.
- Register maps, module and device registration, command lines, and the small sensor and mouse drivers: they would only add
  easy members.
