# Proofs about the rtl8723bu driver

A Dafny model of the parts of this Wi-Fi driver that keep state over time or edit packets in place,
with proofs of what those parts are for.

* **Power handshake and command thread** (`PwrCtrl`, `CmdThread`, `CmdQueue`). The driver asks the firmware for a
  power level, the firmware answers later, and users that need the chip awake register in a bitmap. The
  locked sections are functions on one record, with a class that updates it in place; enqueuers, command
  thread, users, interrupt and time-out are one interleaving of atomic steps. No wake-up is lost in any
  interleaving.
* **NAT2.5 bridge** (`Nat25Model`, `Nat25Ageing`, `Nat25Table`, `Nat25Keys`, `PppoeRelay`,
  `DhcpChecksum`). The linked hash table with back-slots is a plain map over all runs, ages exactly, and
  never leaves a dangling cached pointer. Relay-Session-Id tags survive insertion and lookup in the bytes
  of the frame, and the incremental checksum repair is right exactly for the flags words RFC 2131 allows.
* **Elements in buffers** (`Bytes`, `Tlv`, `IeBuffer`, `P2pAttr`, `BeaconIe`, `TimUpdate`, `ParseElems`).
  One generic list of type-length-value records with a parser and a printer that are inverse; every editor
  is proved to leave the bytes of the edited list, also for the list of P2P attributes inside an element.
* **Counters and pools** (`StaCounters`, `ScanPool`). Station counters count and the beacon bits derived
  from them follow; slots of the scan pool are conserved and reused oldest first.
* **Efuse and P2P** (`Efuse`, `P2pNego`, `ChInclusion`). Writing by enabled words is an exact splice;
  negotiation runs are sound; the one-cursor channel intersection.

Conventions: octets are `u8`; counters that wrap in C are written out with their modulus; the value of a
record or a buffer is a sequence or a datatype, and each in-place method is tied to a function of the old
value whose properties are the lemmas. Ghost parameters such as `es` name the list a buffer holds.

Where code and documentation disagree the model follows the code. The comment on
`rtw_register_task_alive` promises hardware ready for I/O; `CmdThread.SuccessFallsShortIff` says in which
runs that is not so. `rtw_update_scanned_network` first asks whether a shorter beacon may replace stored
elements (`core/rtw_mlme.c:907-909`) and then decides without the answer: `ScanPool.ElementsReplacedIff`. The
case marked "probably wrong" in `update_BCNTIM` is the one `TimUpdate.DecoderReadsBitmapIff` excludes.

## Model

| member | source | states |
|---|---|---|
| PwrCtrl.PwrCtrlPriv.SetRpwmLevel | core/rtw_pwrctrl.c:507-648 | an RPWM request: skipped if it asks nothing new, dropped on an absent device, else written with the current toggle bit and with an acknowledge bit exactly when it has to wait for the answer |
| PwrCtrl.PwrCtrlPriv.SetMode | core/rtw_pwrctrl.c:714-917 | entering and leaving firmware power save, with the level that goes with it |
| PwrCtrl.PwrCtrlPriv.RegisterAlive | core/rtw_pwrctrl.c:1478-1516 | a user registers; it succeeds unless firmware is in power save and has not reported awake, and then a request for S2 stands (same section for tx, 1592-1636, and cmd, 1651-1695) |
| PwrCtrl.PwrCtrlPriv.UnregisterAlive | core/rtw_pwrctrl.c:1832-1889 | a user unregisters: the last one, without a hold, asks firmware in power save that has answered for S0; with others left and no hold nothing is written; under a hold the request is not below S2 (tx: 1766-1823) |
| PwrCtrl.PwrCtrlPriv.CpwmInterrupt | core/rtw_pwrctrl.c:1324-1363 | a firmware report: ignored below a requested S2, else recorded; an awake report ups the semaphore of exactly the registered command and transmit threads |
| PwrCtrl.PwrCtrlPriv.RetryRpwm | core/rtw_pwrctrl.c:1413-1426 | the time-out repeats the request unless it has been answered |
| PwrCtrl.PwrCtrlPriv.constructor | core/rtw_pwrctrl.c:1939-1997 | the initial state satisfies the level and trace invariants |
| PwrCtrl.SetRpwmKeepsTrace | core/rtw_pwrctrl.c:564-594 | every write carries the toggled bit and the recorded level |
| PwrCtrl.SetPsModeKeeps | core/rtw_pwrctrl.c:838-909 | changing the mode keeps level, trace and acknowledge invariants, and any outstanding wake request of the command thread |
| PwrCtrl.RegisterKeeps | core/rtw_pwrctrl.c:1592-1623 | registering keeps the invariants; another user does not disturb the command thread's request |
| PwrCtrl.RefusalRequestsWake | core/rtw_pwrctrl.c:1665-1680 | a refused registration leaves a request for S2 that the firmware has not answered |
| PwrCtrl.UnregisterKeeps | core/rtw_pwrctrl.c:1766-1889 | unregistering keeps the invariants; another user does not cancel the command thread's request |
| PwrCtrl.RpwmRetryKeeps | core/rtw_pwrctrl.c:1379-1427 | the retry keeps the invariants and the outstanding request |
| PwrCtrl.HoldKeepsAwake | core/rtw_pwrctrl.c:889-908 | with Bluetooth's hold neither entering power save nor the last user leaving asks for a level below S2 |
| PwrCtrl.LeavingAsks | core/rtw_pwrctrl.c:1766-1889 | a user that leaves makes a write of level S0 exactly if it was the last one, nobody holds the clock, firmware is in power save, has answered and is not asked to sleep yet; under a hold it asks for S2 whoever is left; nothing else is written |
| PwrCtrl.ComingAsks | core/rtw_pwrctrl.c:1592-1636 | a user that comes makes a write of S2 with the acknowledge bit exactly if firmware in power save reports low and is not asked yet; success exactly if it need not wait |
| PwrCtrl.ModeChangeAsks | core/rtw_pwrctrl.c:838-909 | entering power save asks for S0 exactly if the bitmap is empty and nobody holds the clock, else for S2; leaving asks for S4; a standing request is not repeated |
| PwrCtrl.WritesExactly | core/rtw_pwrctrl.c:507-648 | for any device state and request: which calls write the register, and the byte; without a write only an absent device changes anything |
| PwrCtrl.RetryAsks | core/rtw_pwrctrl.c:1413-1426 | an unanswered request is written a second time although it asks for nothing new; an answered one is not |
| PwrCtrl.ReportTaken | core/rtw_pwrctrl.c:1324-1363 | a report counts exactly while an awake level is asked for, and wakes exactly the registered users, and only if it is awake |
| CmdThread.NoLostWakeup | core/rtw_cmd.c:442-489 | in every reachable interleaving, a command thread asleep over a non-empty queue with no up pending has a wake request outstanding whose answer ups its semaphore; without bogus low reports that request was written with the acknowledge bit |
| CmdThread.AnswerIsDelivered | core/rtw_cmd.c:442-500 | after the awake report the thread, by its own five moves, has the head of the queue in hand |
| CmdThread.FiveMoves | core/rtw_cmd.c:442-500 | the same move by move, on the queue alone |
| CmdThread.FifoOnce | core/rtw_cmd.c:191-234 | over all runs commands leave in insertion order, each once: executed, in hand, dropped at exit or still queued |
| CmdThread.WakeRequestsRespectUsers | core/rtw_pwrctrl.c:1592-1889 | over all runs: firmware in power save with a registered command, transmit or Bluetooth user is asked for S2 or more; so is firmware that reported awake; register writes alternate their toggle bit |
| CmdThread.CommandsRunRegistered | core/rtw_cmd.c:454-489 | a command runs only while its thread is registered |
| CmdThread.SuccessFallsShortIff | core/rtw_pwrctrl.c:1464-1516 | the comment promises hardware ready for I/O on success; a success falls short of it exactly in the runs that left power save before the firmware reported awake, or saw a low report outside power save, and since then neither accepted an awake report nor entered power save |
| CmdThread.BehindIff | core/rtw_pwrctrl.c:714-917 | which runs leave the driver taking a sleeping chip to be out of power save |
| CmdThread.BehindStep | core/rtw_pwrctrl.c:714-917 | the same for one step |
| CmdThread.SuccessWhileAsleep | core/rtw_pwrctrl.c:838-909 | it happens: entering and leaving power save before the answer is a run after which registration succeeds while the chip is asleep |
| CmdThread.StepKeeps | core/rtw_cmd.c:416-605 | every atomic step of enqueuers, thread, users, interrupt and time-out keeps the system invariant |
| CmdThread.RunKeeps | core/rtw_cmd.c:416-605 | so does every run |
| CmdThread.TimeoutStepKeeps | core/rtw_pwrctrl.c:1379-1427 | the three interleaved parts of the time-out work item keep it |
| CmdThread.ThreadMoveKeepsWake | core/rtw_cmd.c:442-489 | one move of the thread keeps the wake-up invariant |
| CmdThread.ThreadMoveKeepsFifo | core/rtw_cmd.c:442-489 | one move of the thread keeps the order of commands |
| CmdThread.LastLeavingSleeps | core/rtw_pwrctrl.c:1766-1889 | over all runs: the last of command thread, transmit path and Bluetooth to leave makes a write of S0 exactly if firmware in power save has answered and nobody holds the clock; with others left or under a hold nothing is written |
| CmdThread.EnteringSleepsIff | core/rtw_pwrctrl.c:838-909 | over all runs: after entering power save the chip is asked to sleep exactly if nobody is registered and nobody holds the clock; after leaving it is asked to be awake |
| CmdThread.AwakeForNobodyIff | core/rtw_pwrctrl.c:1478-1889 | the runs after which firmware in power save is asked to stay awake although nobody is registered: the last user left under a hold or before the answer, power save was entered under a hold, or only a receive or event mark was cleared, and nobody has come, left after the answer, or changed the mode since |
| CmdThread.IdleStep | core/rtw_pwrctrl.c:1478-1889 | the same for one step from any level state |
| CmdThread.UnansweredStaysAwake | core/rtw_pwrctrl.c:1766-1823 | it happens: a user that comes and goes before the firmware answers leaves the chip awake with nobody registered |
| CmdThread.HeldIff | core/rtw_pwrctrl.c:1478-1889 | for any condition that each step sets, clears or keeps: it holds after a run exactly if some step set it and none cleared it since |
| CmdThread.TimeoutRun | core/rtw_pwrctrl.c:1379-1427 | the whole work item: a register that shows the chip awake counts as a report of S2 and wakes the registered thread; otherwise the request is written again; nothing happens if it was answered |
| CmdThread.EnqueueThenUp | core/rtw_cmd.c:322-360 | a command that passes the filter is behind the others and raises the semaphore afterwards; a filtered one leaves no trace |
| CmdThread.StopDrains | core/rtw_cmd.c:442-605 | after a stop request the thread ends by its own moves, with every queued command dropped in order, none run, and its alive bit given up |
| CmdThread.RunsAllThenUnregisters | core/rtw_cmd.c:479-580 | a registered thread left alone runs everything queued in order, gives up its alive bit and waits |
| CmdQueue.CmdQueue.Enqueue | core/rtw_cmd.c:191-213 | the object is linked at the tail of a ring that stays sound in both directions, and the list it stands for grows as the step system says; a null object changes nothing |
| CmdQueue.CmdQueue.Dequeue | core/rtw_cmd.c:215-234 | the first object is unlinked, its own links reset, the ring stays sound, and object and remaining list are those of the thread's move; or the queue is empty and null is returned |
| CmdQueue.CmdQueue.LinkBefore | core/rtw_cmd.c:203 | the pointer surgery of a tail insertion keeps the ring |
| CmdQueue.CmdQueue.Unlink | core/rtw_cmd.c:227-228 | the pointer surgery of removing the first object keeps the ring |
| Nat25Model.NetworkHash | core/rtw_br_ext.c:326-387 | a bucket index for every address |
| Nat25Model.GetIsMapGet | core/rtw_br_ext.c:438-489 | walking the bucket of a key is looking it up in the map |
| Nat25Model.InsertIsMapInsert | core/rtw_br_ext.c:499-536 | insertion renews or adds one key of the map; allocation may fail |
| Nat25Model.LookupIsMapLookup | core/rtw_br_ext.c:422-495 | lookup counts a use of a live entry and leaves everything else |
| Nat25Model.TouchIsMapTouch | core/rtw_xmit.c:3356-3406 | the transmit path renews one stamp |
| Nat25Model.ExpireIsMapExpire | core/rtw_br_ext.c:659-749 | an ageing pass ages each entry of the map once |
| Nat25Model.EmptyIsEmptyMap | core/rtw_br_ext.c:628-656 | after cleanup the map is empty |
| Nat25Model.SameAnswersSameMap | core/rtw_br_ext.c:438-489 | databases that answer alike are the same map |
| Nat25Model.HashBits | core/rtw_br_ext.c:326-387 | each bit of the hash is the parity of that bit over exactly the bytes the protocol uses |
| Nat25Model.GetMeans | core/rtw_br_ext.c:438-489 | the answer for a key is the contents of the one item that has it, wherever it stands; none exactly if no bucket has it |
| Nat25Model.OperationsAre | core/rtw_br_ext.c:422-536 | insert, lookup and renewal change the entry of their own key, field by field, and no other |
| Nat25Ageing.RunRefinesMap | core/rtw_br_ext.c:422-749 | after any run of insert, lookup, renew, expire and cleanup every key sits once in its bucket with a positive use count, and the buckets are the plain map run through the same operations |
| Nat25Ageing.StepRefines | core/rtw_br_ext.c:422-749 | the same for one operation |
| Nat25Ageing.TimeTestExactIff | core/rtw_br_ext.c:138-155 | the wrap-around test is the true comparison exactly for ages below the limit and for ages above it by less than half a turn of the counter, give or take whole turns; for 32-bit and 64-bit counters |
| Nat25Ageing.ExpiredByAge | core/rtw_br_ext.c:138-155 | the test sees the true age modulo the word |
| Nat25Ageing.ExpiredEntryLastsItsUses | core/rtw_br_ext.c:677-740 | an expired entry that is not renewed goes at exactly the sweep whose number is its use count; lookups do not extend it |
| Nat25Ageing.FreshEntryIsKept | core/rtw_br_ext.c:432-489 | an unexpired entry is never swept and gains one use for each lookup |
| Nat25Ageing.GoneStaysGone | core/rtw_br_ext.c:677-740 | only insertion brings an entry back |
| Nat25Keys.KeysEqualIff | core/rtw_br_ext.c:158-165 | keys of IP and ARP frames are equal for equal addresses within a protocol, and on a little-endian host for reversed addresses across protocols |
| Nat25Keys.FoundIff | core/rtw_br_ext.c:813-920 | what a frame of one protocol taught is found by a frame of the same protocol for exactly that address |
| Nat25Keys.KeyBytes | core/rtw_br_ext.c:158-165 | the bytes of a key: type, six zeros, the address as on the wire or turned round, zeros |
| Nat25Table.Link | core/rtw_br_ext.c:389-403 | linking at the head of a chain keeps next fields and back-slots exact |
| Nat25Table.Unlink | core/rtw_br_ext.c:406-419 | unlinking through the back-slot removes exactly that entry from its chain |
| Nat25Table.Table.FindEntry | core/rtw_br_ext.c:438-451 | the walk finds the entry of the key, or null |
| Nat25Table.Table.LookupAndReplace | core/rtw_br_ext.c:422-495 | lookup on the linked table: the database of the specification, a hit flag, and the client's address for a live entry only |
| Nat25Table.Table.InsertAddress | core/rtw_br_ext.c:499-536 | insertion on the linked table |
| Nat25Table.Table.SweepEntry | core/rtw_br_ext.c:677-740 | one entry of an ageing pass, freed after its successor was read; the cached pointer is cleared if it was this one |
| Nat25Table.Table.SweepBucket | core/rtw_br_ext.c:667-745 | one bucket of an ageing pass is the specification's sweep |
| Nat25Table.Table.ExpireEntries | core/rtw_br_ext.c:659-749 | a whole ageing pass; the table stays linked and the cached pointer never dangles |
| Nat25Table.Table.Cleanup | core/rtw_br_ext.c:628-656 | all entries unlinked, cached pointer null |
| Nat25Table.Table.CacheEntry | core/rtw_xmit.c:3356-3406 | the cached pointer is the linked entry of the key, or null |
| Nat25Table.Table.RenewCached | core/rtw_xmit.c:3356-3406 | renewing through the cached pointer renews that key |
| Nat25Table.Table.Transmit | core/rtw_xmit.c:3356-3406 | the transmit path: the cached entry is renewed for the cached source MAC whatever IP address the frame has; another source is looked up and cached if found; a cached address without entry is cleared |
| Nat25Table.Table.Apply | core/rtw_br_ext.c:422-749 | one operation on the linked table is the operation of the specification |
| Nat25Table.Table.RunOps | core/rtw_br_ext.c:422-749 | after any run of operations chains, back-slots and cached pointer are sound and the linked table is the plain map of the run |
| Nat25Table.Table.CleanEntry | core/rtw_br_ext.c:634-652 | one entry of the cleanup: unlinked, the cached pointer cleared if it was this one |
| Nat25Table.Bypass | core/rtw_br_ext.c:406-419 | the pointer surgery of unlinking changes exactly the slot in front and the back-slot behind |
| PppoeRelay.RelayRoundTrip | core/rtw_br_ext.c:1286-1331 | insert then lookup of the echoed list finds the client; old relay data comes back in front, an empty old tag disappears, all other tags keep their order |
| PppoeRelay.EchoFindsClient | core/rtw_br_ext.c:1286-1331 | the same when other tags stand in front of the echoed one, for any relay data |
| PppoeRelay.Skb.FindTag | core/rtw_br_ext.c:80-95 | the walk finds the first tag of a type |
| PppoeRelay.Skb.AddTag | core/rtw_br_ext.c:98-114 | the tag goes in front of the others and the length field grows with it; without tailroom nothing changes |
| PppoeRelay.Skb.PullAndMerge | core/rtw_br_ext.c:117-136 | cuts a range out of the frame, or fails and leaves it |
| PppoeRelay.Skb.InsertRelay | core/rtw_br_ext.c:1209-1252 | INSERT on the bytes of a frame: old relay tag taken out, own tag in front, length field equal to the total size of the tags, address header untouched; refused above 28 bytes of old data |
| PppoeRelay.Skb.LookupRelay | core/rtw_br_ext.c:1286-1331 | LOOKUP on the bytes: a first relay tag of at least eight bytes beginning with 81 86 makes its six bytes the destination, and the tag list becomes the one with them taken out, lengths right; no relay tag, a short first one or another magic gives -1 and the frame as it was |
| PppoeRelay.Skb.RemoveTag | core/rtw_br_ext.c:1224-1233 | cutting the old tag out leaves the other tags and a correct length |
| PppoeRelay.Skb.TakeOldRelay | core/rtw_br_ext.c:1215-1235 | old relay data is saved and its tag deleted, if it is small enough |
| PppoeRelay.Skb.FindClient | core/rtw_br_ext.c:1290-1312 | the client is the six bytes behind 81 86 in the first relay tag of at least eight bytes, and nobody otherwise |
| PppoeRelay.Skb.TakeAddress | core/rtw_br_ext.c:1312-1325 | data behind the client's address stays in the tag |
| PppoeRelay.Skb.DropTag | core/rtw_br_ext.c:1312-1325 | a tag with nothing behind the address goes |
| PppoeRelay.CutRecord | core/rtw_br_ext.c:117-136 | cutting one tag out of the bytes and correcting the length gives the bytes of the shorter list |
| PppoeRelay.ShrinkRecord | core/rtw_br_ext.c:1312-1325 | cutting eight bytes out of a tag and correcting both lengths gives the bytes of the edited list |
| PppoeRelay.PrependRecord | core/rtw_br_ext.c:98-114 | moving the tags up and writing one in front gives the bytes of the longer list |
| PppoeRelay.ClientMeans | core/rtw_br_ext.c:1290-1312 | a client is found exactly if the first tag 0x0110 has at least eight bytes and begins with 81 86, and is the six bytes behind; a short or foreign first tag, or none, gives nobody |
| PppoeRelay.OldRelayMeans | core/rtw_br_ext.c:1209-1235 | what insertion saves and takes out is the first tag 0x0110 |
| PppoeRelay.AnsweredMeans | core/rtw_br_ext.c:1312-1325 | in the client's list the rest of our tag, if any, stands where the tag was |
| PppoeRelay.CarriesIff | core/rtw_br_ext.c:80-95 | tags from byte 20 on, their total size in bytes 18 and 19, most significant first |
| DhcpChecksum.RepairRightIff | core/rtw_br_ext.c:1615-1627 | a valid UDP checksum is still valid after the repair exactly if the flags word was zero, for a message of any length |
| DhcpChecksum.PatchShiftsTotal | core/rtw_br_ext.c:1615-1627 | the repair leaves the one's complement sum off by the old flags |
| DhcpChecksum.NoChecksumGetsOne | core/rtw_br_ext.c:1622-1626 | a datagram sent without a checksum gets the field 0x7FFF, right only by coincidence |
| DhcpChecksum.PatchedBytes | core/rtw_br_ext.c:1615-1627 | the broadcast bit is set, every byte but the two words stays, and a second call does nothing |
| DhcpChecksum.DhcpFlagBcast | core/rtw_br_ext.c:1591-1633 | exactly DHCP requests without the flag are patched, nothing else is touched |
| DhcpChecksum.Fold | core/rtw_br_ext.c:1624-1625 | the carry loop ends with the folded sum |
| DhcpChecksum.FoldedIs | core/rtw_br_ext.c:1624-1626 | which fits 16 bits, is congruent modulo 65535, and is zero only for zero |
| DhcpChecksum.StoreShiftsTotal | core/rtw_br_ext.c:1620-1626 | storing a word at an even place shifts the sum by the difference |
| DhcpChecksum.FiresExactly | core/rtw_br_ext.c:1591-1614 | byte by byte: IPv4, UDP from port 68 to port 67, the DHCP cookie, a clear broadcast flag |
| DhcpChecksum.PatchedExactly | core/rtw_br_ext.c:1615-1627 | the patched frame differs in the top bit of the flags and in the two checksum bytes |
| DhcpChecksum.TotalExactly | core/rtw_br_ext.c:1618-1627 | the sum a receiver forms: addresses, protocol 17, the length, and the words of the datagram |
| Tlv.ParseSer | core/rtw_ieee80211.c:218-249 | parsing what was printed gives the list back |
| Tlv.SerParse | core/rtw_ieee80211.c:218-249 | printing what was parsed gives the bytes back |
| Tlv.AtRecordIn | core/rtw_ieee80211.c:218-249 | a walker at the position of record n reads its id, length and data, and steps to record n+1 |
| Tlv.Splice | core/rtw_ieee80211.c:318-345 | replacing a range of records in the list is replacing their bytes |
| Tlv.WithoutFirst | core/rtw_ieee80211.c:318-345 | taking out the first match leaves the same filtered list |
| Tlv.FirstMeans | core/rtw_ieee80211.c:263-301 | the element found is the first one with the id whose data begins with the OUI, byte for byte; none exactly if no element does |
| Tlv.WithoutMeans | core/rtw_ieee80211.c:313-347 | what a removal leaves: exactly the elements with another id or other first bytes, in order and each as often as it was there |
| Tlv.WithoutShortensIff | core/rtw_ieee80211.c:325-345 | something is removed exactly if some element has the id and begins with the OUI |
| Tlv.HeaderBytes | core/rtw_ieee80211.c:218-249 | the bytes of the three header layouts |
| IeBuffer.GetIe | core/rtw_ieee80211.c:218-249 | the unchecked walk stays in the list and returns its first element of the id |
| IeBuffer.GetIeEx | core/rtw_ieee80211.c:263-301 | the position and size of the first element with the id whose data begins with the OUI; none exactly if there is no such element |
| IeBuffer.SetIe | core/rtw_ieee80211.c:139-161 | writes id, truncated length and data, and advances |
| IeBuffer.SetIeReadsBackIff | core/rtw_ieee80211.c:139-161 | the data is read back exactly if it fits the length octet |
| IeBuffer.SetIeAppends | core/rtw_ieee80211.c:139-161 | written behind a list it is appended to the list |
| IeBuffer.RemoveIe | core/rtw_ieee80211.c:313-347 | the bytes behind the offset become the elements with another id or OUI, in order; the length is exact; success exactly if some element has the id and begins with the OUI; bytes in front of the offset and behind the old end are untouched |
| IeBuffer.FilterStep | core/rtw_ieee80211.c:325-345 | one round of the removal keeps the filter |
| IeBuffer.CutElement | core/rtw_ieee80211.c:331-341 | copying the remainder over one element joins what is kept with what is to do |
| IeBuffer.WalkEx | core/rtw_ieee80211.c:263-301 | the loop compares id and OUI at each element and stops at the first that has both |
| IeBuffer.RemoveAll | core/rtw_ieee80211.c:320-345 | the loop ends with the filtered list and its size |
| P2pAttr.GetP2pIe | core/rtw_ieee80211.c:1546-1587 | position and size of the first element 221 that begins with 50 6F 9A 09; none exactly if there is none |
| P2pAttr.GetP2pAttr | core/rtw_ieee80211.c:1601-1647 | the first attribute of an id inside the element |
| P2pAttr.AttrRemove | core/rtw_ieee80211.c:1700-1727 | all attributes of the id are gone, the others in order, the length byte right, the freed tail zero, nothing else touched |
| P2pAttr.RemoveP2pAttr | core/rtw_ieee80211.c:1729-1749 | on the BSS: the element list with the attribute filtered out of its first P2P element; IELength shrinks by exactly the bytes of the removed attributes, the freed tail is zero, everything outside untouched |
| P2pAttr.CloseKeepsRest | core/rtw_ieee80211.c:1707-1724 | one round of the removal inside the element |
| P2pAttr.CloseGap | core/rtw_ieee80211.c:1738-1747 | closing the gap behind the shortened element |
| P2pAttr.FilteredMeans | core/rtw_ieee80211.c:1729-1749 | every other element is unchanged; the first P2P element is its OUI followed by bytes that parse to exactly the attributes with another id, in order and each as often as before, and is shorter by the bytes of the removed ones |
| P2pAttr.NothingToFilter | core/rtw_ieee80211.c:1737-1749 | without a P2P element nothing changes |
| P2pAttr.FilteredLength | core/rtw_ieee80211.c:1737-1749 | the elements shrink by the sum of data length plus three over the removed attributes |
| P2pAttr.AttrBytesZeroIff | core/rtw_ieee80211.c:1700-1727 | so they shrink at all exactly if some attribute has the id |
| P2pAttr.AttrBytesGone | core/rtw_ieee80211.c:1700-1727 | the same for the attribute list |
| BeaconIe.AddBcnIe | core/rtw_ap.c:192-263 | the elements of the beacon become the list with the element overwritten or inserted, or stay (`BeaconIe.AddedMeans` says when) |
| BeaconIe.RemoveBcnIe | core/rtw_ap.c:265-305 | the first element of the id is taken out, if it has data |
| BeaconIe.AddKeepsSorted | core/rtw_ap.c:199-220 | a list sorted by id stays sorted |
| BeaconIe.AddChangesOne | core/rtw_ap.c:199-262 | an add that goes through replaces or inserts exactly one element at its place; the elements of all other ids keep bytes and order |
| BeaconIe.AddedIffApplies | core/rtw_ap.c:222-240 | an absent id is in the list afterwards exactly if the element before its place exists and has data |
| BeaconIe.HiddenSsidBlocksAdd | core/rtw_ap.c:222-240 | behind a hidden SSID the add is silently dropped |
| BeaconIe.AddThenRemove | core/rtw_ap.c:192-305 | adding an absent id with data and removing it gives the list back |
| BeaconIe.AddEmptyThenRemove | core/rtw_ap.c:192-305 | with empty data the removal undoes nothing: the list comes back exactly if the add was dropped |
| BeaconIe.SameListSameBytes | core/rtw_ap.c:192-305 | and the same list means the same bytes and length |
| BeaconIe.FindPlace | core/rtw_ap.c:199-220 | the loop finds the element of the id, or the last one of a smaller id |
| BeaconIe.AddedMeans | core/rtw_ap.c:199-240 | from the ids alone: an element of the id with data is overwritten where it is; an absent one goes in behind the last smaller id if that element has data; otherwise nothing changes |
| BeaconIe.AddReplacesFirst | core/rtw_ap.c:210-232 | in a sorted list the first element of the id is overwritten, unless it is empty |
| BeaconIe.AddInsertsIff | core/rtw_ap.c:222-240 | an absent id arrives in a sorted list exactly if there is a last smaller id and its element has data |
| BeaconIe.RemovedMeans | core/rtw_ap.c:265-305 | the first element of the id goes unless it is empty |
| TimUpdate.UpdateTim | core/rtw_ap.c:73-190 | for any element list, the buffer and the length after the update |
| TimUpdate.TimKeepsOthers | core/rtw_ap.c:73-190 | all other elements keep bytes and order; exactly one map remains iff there was none, or one and it had data |
| TimUpdate.TimTwice | core/rtw_ap.c:73-190 | a later update replaces what an earlier one wrote |
| TimUpdate.TimTwiceIff | core/rtw_ap.c:73-190 | a repeated update is a no-op exactly if there was a map with data or no empty one in front of the place |
| TimUpdate.UpdatedAtBoundary | core/rtw_ap.c:73-190 | with an old map, or with a guess on an element boundary, the bytes and the length become those of the list with the map replaced or inserted |
| TimUpdate.GuessWorksIff | core/rtw_ap.c:107-136 | for a beacon without a map: every bitmap is inserted as an element exactly if the guessed place is an element boundary |
| TimUpdate.GuessBehindEnd | core/rtw_ap.c:129-144 | a guess behind the end: the length grows by the size of the element, over stale bytes, and the element is not in the beacon |
| TimUpdate.FindTim | core/rtw_ap.c:92-136 | the range that is replaced |
| TimUpdate.DecoderReadsBitmapIff | core/rtw_ap.c:146-176 | a station decoding by section 8.4.2.7 of IEEE Std 802.11-2012 reads tim_bitmap back exactly if its high byte is zero or one of bits 1 to 7 is set; every beacon announces a DTIM |
| TimUpdate.UsualLayout | core/rtw_ap.c:107-136 | with SSID, rates and DS parameter set in front the guessed place is behind them |
| TimUpdate.NoDsBreaksBeacon | core/rtw_ap.c:126-134 | an input off the boundaries: without a DS parameter set the guess splits a country element and the beacon is no list of elements any more |
| TimUpdate.GuessOffset | core/rtw_ap.c:111-127 | the guess: behind the lengths of SSID and rates, plus three |
| TimUpdate.BuildTim | core/rtw_ap.c:146-176 | the bytes of the element |
| TimUpdate.TimBytes | core/rtw_ap.c:146-176 | the element byte by byte for every bitmap |
| TimUpdate.MapIsReplaced | core/rtw_ap.c:92-105 | the first map with data is what is overwritten |
| TimUpdate.PlaceIsGuessed | core/rtw_ap.c:107-136 | without one the place is 12 plus the sizes of the first SSID and the first rates, plus 3 |
| TimUpdate.UpdatedBytes | core/rtw_ap.c:138-190 | for a place inside the elements: what is in front stays, then the map, then what was behind the range |
| ParseElems.Parse80211Elems | core/rtw_ieee80211.c:1152-1297 | never reads outside its buffer; rejects exactly the buffers that are not a list of elements; reports unknown elements; records the last element of each kind |
| ParseElems.Classify | core/rtw_ieee80211.c:1055-1142 | which field an element sets, with the vendor specific cases |
| ParseElems.RecordedIsLast | core/rtw_ieee80211.c:1178-1290 | a field is set exactly if some element sets it, and points at the last one |
| ParseElems.AcceptedIsList | core/rtw_ieee80211.c:1152-1297 | an accepted buffer is one the unchecked search is safe on |
| ParseElems.ParserAgreesIff | core/rtw_ieee80211.c:218-249 | the parser's element is the one the search returns exactly if the id occurs once |
| ParseElems.FrontTiles | core/rtw_ieee80211.c:1165-1293 | the well-formed front is the whole buffer exactly if it tiles |
| ParseElems.FieldTable | core/rtw_ieee80211.c:1055-1290 | which ids, vendor OUIs, types and subtypes set which field, and no other does |
| Efuse.Chip.MapWrite | core/rtw_efuse.c:746-831 | success exactly if there is room for all differing sections, and then the map is the old one with the range replaced (except the guarded byte); a failure leaves exactly the sections before some differing one written (Bluetooth map: 835-920) |
| Efuse.Chip.WriteSection | core/rtw_efuse.c:790-823 | one section: programmed exactly if it differs |
| Efuse.Chip.FillSection | core/rtw_efuse.c:790-808 | the packet carries the new bytes and enables exactly the words with a differing byte |
| Efuse.Chip.PgPacketWrite | core/rtw_efuse.c:602-626 | assumed contract of the chip: enabled words are merged, or nothing happens |
| Efuse.WordEnableDataRead | core/rtw_efuse.c:602-626 | merges exactly the enabled words |
| Efuse.CalculateWordCnts | core/rtw_efuse.c:164-172 | the number of enabled words |
| Efuse.ProgramsOnce | core/rtw_efuse.c:786-823 | the packets are one for each differing section, in order, none twice, none for a section without differing byte |
| Efuse.ProgressStep | core/rtw_efuse.c:790-823 | programming a packet turns exactly its section into the new contents |
| Efuse.UptoNext | core/rtw_efuse.c:790-823 | map and log after one more section |
| Efuse.UptoEnd | core/rtw_efuse.c:786-823 | after the last section the map is the splice |
| Efuse.PlaceInMap | core/rtw_efuse.c:787-823 | the eight-bit section counter does not wrap up to 2048 bytes |
| Efuse.UptoMeans | core/rtw_efuse.c:786-823 | the packets after what was logged before: only for sections that have to be programmed, for each of them; the map is new in front of the boundary and old behind |
| Efuse.PacketMeans | core/rtw_efuse.c:790-808 | bit w of the enables is clear exactly if one of the two bytes of word w is in the range and differs; the data are the new bytes |
| Efuse.DirtyMeans | core/rtw_efuse.c:790-808 | a section has to be programmed exactly if one of its bytes is in the range and differs |
| Efuse.SplicedMeans | core/rtw_efuse.c:798-806 | the range is replaced, but for byte 8 when it is guarded |
| Efuse.NeedCounts | core/rtw_efuse.c:786-823 | the packets needed are as many as sections to be programmed |
| ScanPool.RunsConserve | core/rtw_mlme.c:218-309 | after any run every slot is free or scanned but never both, the count is right, and with P2P off no network is listed twice |
| ScanPool.EverySlotOnce | core/rtw_mlme.c:62-71 | what the pool invariant means for a slot |
| ScanPool.UpdateOk | core/rtw_mlme.c:779-928 | an update keeps the pool sound |
| ScanPool.UpdateKeepsUnique | core/rtw_mlme.c:779-928 | an update never makes two entries for one network, with P2P off, and by address with P2P on |
| ScanPool.P2pKeepsUniqueIff | core/rtw_mlme.c:797-826 | with P2P on an update keeps the networks different exactly unless the entry matched by address takes the frame's elements while another entry is the frame's network already |
| ScanPool.SwitchingOnP2pMakesTwins | core/rtw_mlme.c:797-826 | it happens: two networks of one access point become the same |
| ScanPool.ElementsReplacedIff | core/rtw_mlme.c:903-921 | the elements of a known entry are replaced exactly by a frame that is no probe request and ranks at least as high, whatever the lengths |
| ScanPool.ShorterBeaconReplaces | core/rtw_mlme.c:907-915 | so a shorter beacon replaces the longer elements of an earlier one |
| ScanPool.UpdateWritesOne | core/rtw_mlme.c:779-928 | an update writes one entry, which then is the target heard just now, and leaves all others in place |
| ScanPool.SmoothedIsBetween | core/rtw_mlme.c:722-741 | smoothing moves strength, quality and RSSI towards the sample and never past it |
| ScanPool.ReusesOldest | core/rtw_mlme.c:828-860 | with all entries within half the clock range the least recently heard one is reused, across the wrap |
| ScanPool.WideReusesOldestIff | core/rtw_mlme.c:828-834 | with a 64-bit long the 32-bit stamps are compared without wrap: the least recently heard entry is reused exactly if the clock did not wrap between two entries |
| ScanPool.WideReusesSmallest | core/rtw_mlme.c:828-834 | there the smallest stamp is reused |
| ScanPool.FlushTestExactIff | os_dep/osdep_service.c:336-350 | the age test of a flush is the true comparison exactly if the entry is too young, or its age in thousandths still reaches the limit after 32-bit wrap-around |
| ScanPool.FlushTestWraps | os_dep/osdep_service.c:336-350 | the first age for which it is wrong |
| ScanPool.FreeQueueOk | core/rtw_mlme.c:361-392 | a flush keeps the pool sound |
| ScanPool.FlushFromIs | core/rtw_mlme.c:361-392 | the walk that frees while it goes moves exactly the dead entries, in order |
| ScanPool.StepKeeps | core/rtw_mlme.c:218-392 | every operation keeps soundness and uniqueness |
| ScanPool.MlmePriv.constructor | core/rtw_mlme.c:52-71 | all slots in the free pool, in order |
| ScanPool.MlmePriv.AllocNetwork | core/rtw_mlme.c:218-258 | the head of the free pool, reset, or nothing |
| ScanPool.MlmePriv.FreeNetwork | core/rtw_mlme.c:260-290 | one entry is let go unless it is fixed or too young |
| ScanPool.MlmePriv.FreeNetworkNolock | core/rtw_mlme.c:293-309 | one entry is let go unless it is fixed |
| ScanPool.MlmePriv.FreeNetworkQueue | core/rtw_mlme.c:361-392 | the flush |
| ScanPool.MlmePriv.FreeScanQueue | core/rtw_mlme.c:1331-1358 | everything goes to the free pool |
| ScanPool.MlmePriv.Search | core/rtw_mlme.c:802-838 | first match, or the oldest entry |
| ScanPool.MlmePriv.UpdateScannedNetwork | core/rtw_mlme.c:779-928 | refreshes the match, else takes a free slot, else reuses the oldest |
| ScanPool.SmoothedExactly | core/rtw_mlme.c:705-741 | a fifth of the sample and four fifths of the old figure, towards zero; nothing for a frame of quality 101; the receiver's own figures for the connected network |
| ScanPool.KnownIsRefreshed | core/rtw_mlme.c:802-826 | a listed network is refreshed in its own entry, the first that matches |
| ScanPool.RefreshedExactly | core/rtw_mlme.c:903-926 | which keeps slot and bookkeeping, and takes the frame's description whole or not at all but for the three figures |
| ScanPool.NewNetworkStored | core/rtw_mlme.c:836-902 | an unlisted one takes the head of the free pool; only with an empty pool the oldest entry is overwritten; with neither nothing happens |
| ScanPool.SameMeans | core/rtw_mlme.c:572-590 | which fields identify a network, with and without P2P |
| ScanPool.FlushKeeps | core/rtw_mlme.c:361-392 | a flush keeps exactly the fixed entries and, unless it is of all, those below the age limit; the others join the free pool |
| ScanPool.DeadOrKept | core/rtw_mlme.c:260-290 | the age test with its 32-bit arithmetic and limits |
| ScanPool.FlushKeepsOrder | core/rtw_mlme.c:361-392 | what stays keeps its order |
| ScanPool.FreedUnlessFixed | core/rtw_mlme.c:293-309 | a single entry leaves the queue for the tail of the pool unless it is fixed |
| StaCounters.RunsStayInStep | core/rtw_ap.c:2357-2602 | from the start of a BSS, through any joins, repeated joins and leaves: each counter is the number of stations with the flag, the protection bits are set exactly while a non-ERP station is there, the HT mode is the fixed function of the counters and one more update reports no change |
| StaCounters.JoinKeeps | core/rtw_ap.c:2357-2528 | a join keeps all of this; which flags the station holds afterwards |
| StaCounters.LeaveKeeps | core/rtw_ap.c:2530-2602 | so does a leave; no flag is left |
| StaCounters.FlagsAfterAre | core/rtw_ap.c:2363-2505 | flags follow the announced capabilities, but the greenfield and width flags stick until the station leaves |
| StaCounters.ErpAfterOk | core/rtw_ap.c:1990-2023 | rewriting the element only between none and one keeps its bits right |
| StaCounters.HtUpdateSettles | core/rtw_ap.c:2252-2321 | one update reaches the function of the counters from any mode, reports changes exactly if there are any, and a second reports none |
| StaCounters.ModeByStations | core/rtw_ap.c:2241-2315 | the mode in terms of the stations, as the comment describes it |
| StaCounters.BarkerStaysRightIff | core/rtw_ap.c:2015-2018 | over an association or a departure a right Barker bit stays right exactly if the protection bits changed too, or the stations without short preambles did not become none or some |
| StaCounters.BarkerOnJoin | core/rtw_ap.c:2357-2528 | a join rewrites the element exactly when the protection bits change, and then the Barker bit is right |
| StaCounters.BarkerOnLeave | core/rtw_ap.c:2530-2602 | so does a departure |
| StaCounters.BarkerGoesStale | core/rtw_ap.c:2363-2396 | so it is wrong after the first station without short preambles |
| StaCounters.PutCounts | core/rtw_ap.c:2363-2460 | setting or clearing a flag with its counter keeps counting right |
| StaCounters.StepKeeps | core/rtw_ap.c:2357-2602 | one association or departure |
| StaCounters.RunKeeps | core/rtw_ap.c:2357-2602 | any sequence of them |
| StaCounters.ApPriv.constructor | core/rtw_ap.c:2893-2924 | all counters zero, mode zero |
| StaCounters.ApPriv.OnStaJoin | core/rtw_ap.c:2357-2528 | the join in place |
| StaCounters.ApPriv.OnStaLeave | core/rtw_ap.c:2530-2602 | the leave in place |
| StaCounters.ApPriv.UpdateBcnErpInfo | core/rtw_ap.c:1990-2023 | the element's bits |
| StaCounters.ApPriv.HtOperationUpdate | core/rtw_ap.c:2252-2321 | the mode word and the number of changes |
| StaCounters.FlagsOfStations | core/rtw_ap.c:2357-2528 | an association sets the flags of its own station to what it announces, the greenfield and width flags to that or what they were, and no flag of another station |
| StaCounters.DepartedIsGone | core/rtw_ap.c:2530-2602 | a departure removes its own station |
| StaCounters.CountsAre | core/rtw_ap.c:2357-2602 | each of the six counters is the number of stations with its flag |
| StaCounters.ModeBits | core/rtw_ap.c:2252-2321 | bits and mode number by the counters; with the option set nothing happens |
| StaCounters.BarkerWritten | core/rtw_ap.c:2015-2018 | the Barker bit is rewritten exactly when the first non-ERP station comes or the last one goes |
| StaCounters.Untouched | core/rtw_ap.c:1990-2023 | with the option set the mode word, without a running BSS or ERP the element, and always its reserved bits survive every event |
| P2pNego.ConfAcceptedIff | core/rtw_p2p.c:4155-4185 | for any order of any frames a confirmation is accepted exactly if the latest request has its token and peer, its first answer said success, and it is not confirmed yet; or if its token is zero and the first answer of the latest request's device was a refusal, not confirmed so yet |
| P2pNego.RespAcceptedIff | core/rtw_p2p.c:4108-4135 | an answer is accepted exactly if it is the first one to the latest request |
| P2pNego.ProperConfNeedsAgreement | core/rtw_p2p.c:4155-4185 | a confirmation with a non-zero token is accepted exactly after an agreement |
| P2pNego.ZeroTokenConfirmsRefusal | core/rtw_p2p.c:4133-4134 | a run in which a zero token confirms a refusal |
| P2pNego.RunRefused | core/rtw_p2p.c:4126-4135 | a refusal leaves state 1 with token zero |
| P2pNego.OppositeRoles | core/rtw_p2p.c:4004-4012 | two ends that accept the same exchange infer opposite roles |
| P2pNego.HandlersAgreeIff | core/rtw_p2p.c:2821-2853 | the role handlers of both ends agree with the inferred roles exactly if the intents differ, or are not both 15 and the response complements the tie breaker |
| P2pNego.ConfRoleAgrees | core/rtw_p2p.c:3253-3272 | the responder's decision on the confirmation agrees with the inferred roles always |
| P2pNego.RunAgreed | core/rtw_p2p.c:4055-4185 | an agreed history is reflected in the record, with both intents, the channels and the status |
| P2pNego.RunWaiting | core/rtw_p2p.c:4055-4100 | so is a waiting one |
| P2pNego.RunOnlyIf | core/rtw_p2p.c:4055-4185 | and the record says so only then |
| P2pNego.NegoInfo.CheckFrame | core/rtw_p2p.c:4055-4185 | one frame, in place |
| P2pNego.ProperConfOverFrames | core/rtw_p2p.c:4155-4185 | the condition for a confirmation with a proper token over kinds, tokens, peers and status of the frames themselves |
| P2pNego.RespOverFrames | core/rtw_p2p.c:4108-4135 | the same for an answer |
| P2pNego.RecordedFields | core/rtw_p2p.c:4055-4185 | what an accepted frame records, and that a rejected one changes nothing |
| P2pNego.HigherIntentWins | core/rtw_p2p.c:4004-4012 | the higher intent wins, between equal ones the tie breaker decides; the handlers' roles (2821-2853, 3253-3272) in the same terms |
| ChInclusion.ChooseChannel | core/rtw_p2p.c:2873-2929 | with a well-formed channel list: failure exactly if no channel is shared, or as group owner with a linked buddy and the own channel missed; on success as group owner an operating channel in both lists: the own one, else the one the peer asks for, else the peer's first shared one |
| ChInclusion.IncludedSound | core/rtw_p2p.c:2697-2716 | the result is a subsequence of the peer's list and in the own list |
| ChInclusion.IncludesAllIff | core/rtw_p2p.c:2697-2716 | it is the whole intersection exactly if the shared channels, in the peer's order, can be found in the own list without going back |
| ChInclusion.EmptyIffDisjoint | core/rtw_p2p.c:2697-2716 | it is empty exactly if nothing is shared |
| ChInclusion.OrderLosesChannel | core/rtw_p2p.c:2697-2716 | two lists for which it loses a channel |
| ChInclusion.ChInclusion | core/rtw_p2p.c:2697-2716 | the loops collect that result |
| ChInclusion.GetPeerChList | core/rtw_p2p.c:2657-2680 | the channels of all operating classes, in order |
| ChInclusion.IsChannelListOk | core/rtw_p2p.c:26-39 | membership |
| ChInclusion.FirstIsFound | core/rtw_p2p.c:2697-2716 | the first channel of the peer's list that is in the own list comes first in the result, whatever is lost later |
| ChInclusion.SharedGrows | core/rtw_p2p.c:2697-2716 | the reference intersection selects each channel of the peer's list that is in the own list |
| ChInclusion.SubsequencePlaces | core/rtw_p2p.c:2697-2716 | a subsequence is found at strictly growing places |

## Left out

- Wake-on-WLAN, `LeaveAllPowerSaveModeDirect`, suspend and resume, surprise removal and two-adapter mode: not steps of the power model; the device is present and running in it.
- `CONFIG_LPS_LCLK` and `CONFIG_LPS_RPWM_TIMER` are taken as on and CPWM polling as off, as the handshake exists only then.
- The RPWM register bits beyond level, acknowledge and toggle, and all register, USB and firmware accesses.
- The network hash differs between kernel versions; the table is proved for any hash into 16 buckets, and `NetworkHash` is one of them.
- NAT use counts are unbounded: the 32-bit counter would need 2^31 lookups of one entry to overflow.
- Nat25Table.Table.CacheEntry: only the lookup and the pointer; the cached MAC and IP address and the choice of path are in `Nat25Table.Table.Transmit`.
- IPX, AppleTalk and IPv6 branches of the bridge, PPPoE session frames, and TDLS, WAPI and WiDi elements: further cases of the same shape.
- PppoeRelay.Skb.FindTag: the tags are a well-formed list and the length field is their size; a list that does not tile lets the unchecked walk leave the frame, which the source does not guard against.
- PppoeRelay.Skb.AddTag: the same lists.
- PppoeRelay.Skb.InsertRelay: the same lists.
- PppoeRelay.Skb.LookupRelay: the same lists.
- DhcpChecksum.DhcpFlagBcast: the frame is long enough for the fields read and its IPv4 header has at least five words, neither of which the source checks; fields are in network order, and the code compares the magic cookie and the flag without byte swaps, so this is the behaviour of a big-endian host.
- IeBuffer.GetIe: the buffer is a list of elements of the given size; the unchecked walk can leave any other.
- IeBuffer.GetIeEx: the same, and elements of the id are at least as long as the OUI compared, behind which the source would read.
- IeBuffer.RemoveIe: the same, and the remainder fits the 768-byte backup buffer.
- P2pAttr.GetP2pIe: the buffer is a list of elements, for the same reason.
- P2pAttr.GetP2pAttr: the attributes tile the element, for the same reason.
- P2pAttr.AttrRemove: the same.
- P2pAttr.RemoveP2pAttr: the same; `memcpy` on overlapping regions is taken as `memmove`.
- BeaconIe.AddBcnIe: the beacon is a list of elements and the new list fits the buffer, which the code does not check; allocation of the backup succeeds: when it fails the code loses the remainder of the beacon.
- BeaconIe.RemoveBcnIe: the same.
- TimUpdate.UpdateTim: the same; only the allocation of a wrapped length behind the end is taken to fail.
- Efuse.Chip.MapWrite: ranges that end behind byte 2048 of a larger map, where the eight-bit section counter wraps; the Wi-Fi map of this chip has 512 bytes (include/rtl8723b_hal.h:194).
- Efuse.Chip.PgPacketWrite: the HAL's packet write is assumed to merge enabled words or to fail without effect; physical layout, power switching and the map read are not modelled.
- ScanPool.RunsConserve: `rtw_createbss_cmd_callback` inserts without looking for the network and is not an operation of the run.
- ScanPool.MlmePriv.UpdateScannedNetwork: antenna diversity and the roaming hook, both without effect here, and the fields of a BSS other than identity, frame type, elements and signal.
- StaCounters.RunsStayInStep: freeing all stations at once without the leave function, and the beacon's transmission; `ht_option` off, as the update does nothing otherwise (`StaCounters.StepKeeps` covers both).
- P2pNego.OppositeRoles: provision discovery, invitation frames and the buddy adapter's channel adjustment.
- ChInclusion.GetPeerChList: the channel list tiles and fits the handler's 100-byte buffers; the source checks neither.
- ChInclusion.ChooseChannel: the same, for one P2P element with a channel list attribute.
- Frame builders, rate and cipher tables, ioctl glue, beamforming, IO offload and printing: straight-line emission, finite lookups or glue.
