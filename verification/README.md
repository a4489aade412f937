# iESP: verified models of an iSCSI target

iESP is an iSCSI target: initiators log in over TCP, send SCSI commands in PDUs, and read and write a disk that is a
file or a network block device; an SNMP agent publishes its counters. This project models the parts of iESP in which
several functions have to agree with each other, and proves that they do, or exactly when they do.

The project is one set of Dafny modules. `dafny verify dfyconfig.toml` checks all of it.

**Range locks** (`RangeLocks`, `BackendOps`, `NbdBackend`, `LockProtocol`, `LockLiveness`, `LockAtomicity`, `LockGap`).
`backend::lock_range` hashes a range of blocks onto 131 mutexes and takes them in ascending order. Any number of threads,
each with a list of reads, writes, trims and compare-and-writes, run as interleaved steps: taking one mutex, reading or
storing one block, freeing one mutex. Every run is free of deadlock and finite, and every run is linearizable as long as
each operation locks the range it touches: the outcomes and the disk are those of a sequential history, in which a
compare-and-write is one step. The NBD backend locks its range unless its end does not fit in 64 bits. The file backend does so
for reads, compare-and-writes, writes of one block and empty trims; for every other write and trim there is a run with no sequential explanation.

**SCSI commands and transfers** (`Lun`, `ScsiCommands`, `CommandLayout`, `ScsiWrite`, `TrimLevels`, `Reservations`,
`ReservedCommands`, `ScsiDevice`, `DataOut`, `DataOutRuns`, `DataOutAnswers`, `WriteTransfer`, `WriteInterleaved`,
`PduHeaders`, `DataIn`, `DataInFraming`, `ReadTransfer`, `Server`). The disk is a plain array of bytes. WRITE, WRITE SAME,
UNMAP and COMPARE AND WRITE, the Data-Out/R2T state machine and the streamed READ are tied to it: what is stored, what
stays, what the counters mean, when a transfer is complete. Addresses, lengths and descriptors are those that the bytes of
a CDB or a parameter list stand for, and the fields of a header are read back at their places in section 11 of RFC 7143.
The trim level shows neither in the disk nor in the responses over any run of commands. A reservation makes its holder
alone: the disk and the answers it gets are those of a run without the others, and exactly the commands of others that get
as far as the backend are answered with a conflict.

**PDU framing and CRC32C** (`Crc32cTable`, `Crc32c`, `Crc32cDivision`, `Framing`). The table-driven checksum is division by
the Castagnoli polynomial (section 13.1 of RFC 7143), works in chunks, and notices every change within four consecutive bytes.
What `get_helper` sends, `receive_pdu` reads back (section 11.2 of RFC 7143), also in a stream of PDUs, and PDUs damaged
within four consecutive bytes are refused, with the exceptions listed below.

**SNMP** (`OidText`, `OidTree`, `SnmpData`, `SnmpWalk`, `BerOid`, `BerElements`, `BerParser`, `SnmpMessage`, `SnmpReply`,
`SnmpLookup`, `SnmpAgent`, `Snmp`). Registering OIDs keeps the tree sorted; repeated `find_next_oid` visits every
registered leaf once, in order (section 4.2.2 of RFC 3416). The BER encoder and the recursive parser agree: on the bytes
of a message the parser does what the tree of elements means. A client reads in the bytes of a reply the element that was
registered for each OID.

Code that changes things in place is modelled by classes and methods with loops (`NbdBackend.Backend`, `ScsiDevice.Scsi`,
`Server.Session`, `Framing.Peer`, `SnmpData.SnmpData`, `Snmp.Block`, and the encoders); each method is proved equal to a
function or to a step of a state machine, and the laws are proved about those.

Some promises do not hold of the code as it is. The model keeps the code, and states when they hold:

- The range check subtracts without looking whether the request is larger than the device (`ScsiCommands.RangeCheckIff`).
- Immediate data that ends inside the block after the transfer is stored there (`ScsiWrite.StaysInsideIff`).
- An UNMAP that runs off a small device, and an empty WRITE that brings data, tell the trim levels apart
  (`TrimLevels.UnmapLevelsIff`, `TrimLevels.WriteLevelsIff`).
- With FUA a Data-Out PDU is answered with an error when the sync succeeds, and acknowledged, as if the data were safe, when
  it fails, since the status of the sync is compared with `false`, which `rw_ok` equals (`WriteTransfer.AcknowledgedIff`).
- So with FUA on a backend that syncs a transfer never ends (`WriteTransfer.FuaNeverEnds`).
- A WRITE with data on a backend that fails gets no answer (`WriteTransfer.CommandSilentIff`), and one under a tag that is in use
  gets an R2T for which there is no session (`WriteTransfer.TagInUse`).
- Sense data is sent with the response "target failure", in which the status does not count: an initiator that follows section 11.4.2
  of RFC 7143 sees neither CHECK CONDITION nor RESERVATION CONFLICT (`PduHeaders.StatusSeenIff`, `PduHeaders.ConflictOnTheWire`).
- WRITE SAME without immediate data, and WRITE SAME on a backend that fails, is answered with success and stores nothing
  (`ScsiWrite.SameSuccessIff`, `ReservedCommands.FailureIsAnswered`).
- A WRITE SAME whose data follows an R2T, which blocks of at most 256 bytes allow (`DataOutAnswers.SameWaitsIff`), ignores its LBA:
  the first PDU stores nothing and is answered with success, the second overwrites the device up to its end
  (`DataOutAnswers.SameSpills`).
- A READ of 4 GB or more sends too little, or not the right residual (`ReadTransfer.TransferSizeIff`).
- Data-Out counts bytes, not blocks: overlapping PDUs end a transfer with a hole in it (`WriteTransfer.EndsWholeIffApart`),
  and an early F bit sends an early response (`WriteTransfer.OneResponseIff`).
- The streamed READ zero-fills or repeats bytes unless the sizes divide (`ReadTransfer.FaithfulIff`), and DataSN continues
  when the same task tag is used twice in a row (`ReadTransfer.NumberedFromZeroIff`).
- A Data-In PDU announces its length in 24 bits, so that a segment of 2^24 bytes or more, which a session with the default
  segment length can get, is announced wrongly; and its data digest stands where the padding belongs, so that a
  segment that is not a multiple of four is refused (`DataInFraming.ArrivesIff`, `ReadTransfer.ReadDelivers`).
- A header damaged into a login request or into one with additional segments can pass (`Framing.DamagedHeaderRefusedIff`,
  `Framing.DamageIntoAhsCanPass`).
- A multi-block write and a trim of the file backend are not guarded (`LockGap.UnguardedBreaksAtomicity`).
- `find_next_oid` does not cross root arcs, and from an unknown OID it can step back (`SnmpWalk.SuccessorMeetsStandardIff`,
  `SnmpWalk.SearchMeetsStandardIff`, `SnmpWalk.OtherOidsMeetStandardIff`).
- A sequence of more than 255 bytes loses elements (`BerElements.SequenceWholeIff`), contents of 128 bytes or more have a length
  that the standard reads otherwise (`SnmpReply.MessageReadsIff`), integers from 2^31 to 2^32 - 1 and from 2^63 on are read as negative by
  the standard (`SnmpReply.SignedReadsIff`), and an OID component of 2^31 or more does
  not come back, nor does an OID outside "1.3" (`BerOid.AnyOidRoundTripIff`).

## Model

| member | source | states |
|---|---|---|
| `RangeLocks.CollectIndexes` | backend.cpp:75-78 | the loop collects the mutexes of exactly the blocks in the range, and none when the 64-bit end of the range wraps |
| `RangeLocks.GuardedIffNoWrap` | backend.cpp:77-78 | every block of a range is guarded if and only if the end of the range does not wrap |
| `RangeLocks.OverlapShares` | backend.cpp:77-78 | two ranges with a common block have a common mutex |
| `RangeLocks.NearBlocksDiffer` | backend.h:15-16 | different blocks less than 131 apart have different mutexes, since 31 is invertible modulo 131 |
| `RangeLocks.NeighboursDiffer` | backend.cpp:77-78 | neighbouring blocks have different mutexes everywhere, also where the 64-bit product wraps between them |
| `RangeLocks.DistinctLocks` | backend.cpp:77-81 | n consecutive blocks take exactly min(n, 131) mutexes |
| `RangeLocks.LockOrder` | backend.cpp:80-94 | the order of locking is strictly ascending and holds exactly the mutexes of the range |
| `NbdBackend.Backend.LockRange` | backend.cpp:70-85 | takes exactly the mutexes of the range, none of them twice |
| `NbdBackend.Backend.UnlockRange` | backend.cpp:87-95 | frees exactly those mutexes |
| `NbdBackend.Backend.Write` | backend-nbd.cpp:257-273 | one legal indivisible write, also when the device fails on the way; mutexes as before |
| `NbdBackend.Backend.Trim` | backend-nbd.cpp:275-291 | one legal indivisible trim; mutexes as before |
| `NbdBackend.Backend.Read` | backend-nbd.cpp:293-311 | returns the blocks of one instant or fails; disk and mutexes as before |
| `NbdBackend.Backend.CmpWrite` | backend-nbd.cpp:313-365 | one legal indivisible compare-and-write: success only if all blocks matched, a mismatch changes nothing |
| `LockLiveness.StepKeepsLocks` | backend.cpp:70-95 | in every step the mutex table stays equal to what the program counters say each thread owns |
| `LockLiveness.SomeoneCanMove` | backend.cpp:80-81 | from any unfinished thread the chain of holders leads to a thread that can step |
| `LockLiveness.StepShrinksWork` | backend.cpp:70-95 | every step of every thread uses up some of the work there is |
| `LockLiveness.SchedulesAreFinite` | backend.cpp:70-95 | no schedule is longer than the work at its start |
| `LockLiveness.DeadlockFree` | backend.cpp:70-95 | after any schedule of any programs an unfinished thread means that some thread can step; when all have finished every mutex is free |
| `LockLiveness.CanFinish` | backend.cpp:70-95 | every reachable state has a schedule that finishes all operations |
| `LockAtomicity.Exclusive` | backend-nbd.cpp:257-365 | two threads at work never touch the same block |
| `LockAtomicity.StepMatches` | backend-nbd.cpp:257-365 | each step keeps the simulation between the real disk and the disk of the sequential history |
| `LockAtomicity.Linearizable` | backend-nbd.cpp:257-365 | every run of operations that lock their range has a sequential history with the same outcomes per thread and the same disk |
| `LockAtomicity.HistoryGrows` | backend-nbd.cpp:257-365 | continuing a run only appends to its history |
| `LockAtomicity.RealTimeOrder` | backend-nbd.cpp:257-365 | an operation that has finished before another begins comes before it in the history |
| `LockAtomicity.CompareAndWriteIsAtomic` | backend-nbd.cpp:313-365 | in that history a successful compare-and-write found all blocks equal at one instant and replaced them then; a mismatch found a difference and changed nothing |
| `LockAtomicity.NbdCoversIff` | backend-nbd.cpp:257-365 | an operation of the NBD backend locks the range it touches if and only if it touches no block or the end of its range fits in 64 bits |
| `LockAtomicity.FileCoversIff` | backend-file.cpp:77-244 | an operation of the file backend locks its range if and only if it touches no block, or it is a read, a compare-and-write or a write of one block and its end fits in 64 bits |
| `LockGap.UnguardedBreaksAtomicity` | backend-file.cpp:77-132 | for every operation that stores a block without its mutex there is a run with a compare-and-write in which both succeed and no sequential history explains the disk |
| `LockGap.FileGap` | backend-file.cpp:90-112 | every multi-block write and non-empty trim of the file backend is such an operation |
| `Lun.WriteMeans` | scsi.cpp:1062-1097 | `scsi::write` stores the data and nothing else, also when it trims blocks of zeros instead |
| `Lun.TrimMeans` | scsi.cpp:1099-1130 | `scsi::trim` zeroes the range and nothing else, by trimming or by writing block after block |
| `ScsiCommands.RangeCheckIff` | scsi.cpp:984-997 | the 64-bit range check is lba + n <= size if and only if n <= size or lba + n >= 2^64 |
| `CommandLayout.LbaLenIff` | scsi.cpp:363-391 | `get_lba_len` returns an LBA and a length if and only if they are in range and the bytes of the CDB stand for them, big-endian, at the offsets of the 6-, 10-, 12- or 16-byte form, where 0 stands for 256 blocks in 6 bytes |
| `CommandLayout.CdbReadsBack` | scsi.cpp:363-391 | a CDB put together byte by byte, in each of the four sizes, gives LBA and length back |
| `CommandLayout.FlagsReadBack` | scsi.cpp:999-1023 | protection bits, bit 4 and bit 3 of the second byte come back from it |
| `CommandLayout.FlagsRefusedIff` | scsi.cpp:999-1023 | exactly which CDBs are refused as an invalid field: protection information, ANCHOR without UNMAP, a WRITE SAME of more than 256 blocks |
| `CommandLayout.ListsIff` | scsi.cpp:771-781 | the loop over an UNMAP list finds these descriptors if and only if the bytes from offset 8 on stand for them: 8 bytes of LBA, 4 of length, 4 reserved |
| `CommandLayout.ParameterListReadsBack` | scsi.cpp:771-781 | the descriptors of a list put together from any 8 bytes of header and their encoding come back |
| `CommandLayout.ComparesIff` | scsi.cpp:666-667 | LBA and count of COMPARE AND WRITE are those that bytes 2 to 9 and byte 13 stand for |
| `ScsiWrite.AcceptedIffOnDevice` | scsi.cpp:984-997 | for a transfer not larger than the device a range is accepted if and only if its bytes are on the device |
| `ScsiWrite.FragmentMeans` | scsi.cpp:452-466 | reading a block, overlaying a fragment and writing it back replaces exactly the bytes of the fragment |
| `ScsiWrite.ImmediateMeans` | scsi.cpp:434-466 | immediate data is stored exactly, partial block included; whole blocks beyond the transfer are dropped |
| `ScsiWrite.WriteStoresReceived` | scsi.cpp:393-498 | a WRITE whose CDB addresses lba and len, with at most its transfer: exactly the received bytes change, from that LBA on; final answer if and only if complete; otherwise the R2T starts at a block boundary at or before the received length, done plus left is the transfer, and its session has the FUA bit of the CDB |
| `ScsiWrite.WriteWithoutData` | scsi.cpp:499-514 | a WRITE without data changes nothing and asks for the whole transfer at the LBA in its CDB |
| `ScsiWrite.StaysInsideIff` | scsi.cpp:393-517 | for every accepted WRITE: bytes outside the transfer stay if and only if the data does not end inside the block after it, or the device ends there, or those bytes are on the disk already |
| `ScsiWrite.FragmentAtEnd` | scsi.cpp:452-466 | a fragment beyond the end of the device is not stored; the whole blocks before it are, and the command fails |
| `ScsiWrite.SameLoopMeans` | scsi.cpp:872-892 | the loop leaves the same block, or zeros, in every place of the range |
| `ScsiWrite.WriteSameFills` | scsi.cpp:820-924 | WRITE SAME fills the accepted range and changes nothing else; length zero stands for the rest of the device |
| `ScsiWrite.SameSuccessIff` | scsi.cpp:820-924 | exactly which accepted WRITE SAME requests are answered with success; with data that means a filled range, without it nothing is stored |
| `ScsiWrite.UnmapZeroesAccepted` | scsi.cpp:771-818 | UNMAP zeroes exactly the union of the accepted descriptors that its list stands for, up to the first that runs past the end of the device; it is always answered: out of range if a descriptor up to there was rejected, otherwise a write error if one runs past the end, otherwise success |
| `ScsiWrite.RejectedIff` | scsi.cpp:783-792 | a descriptor is rejected, as out of range, if and only if the range check fails or it asks for more than 8192 blocks |
| `ScsiWrite.SmallOnesStay` | scsi.cpp:783-806 | a list without a descriptor larger than the device has none that runs past its end |
| `ScsiWrite.TrimPastEnd` | scsi.cpp:1099-1130 | a trim past the end fails; at level 0 it zeroes the rest of the device first, otherwise it changes nothing |
| `ScsiWrite.CompareAndWriteMeans` | scsi.cpp:662-703 | the block at the LBA in the CDB is replaced if it equals the first half of the data; otherwise a miscompare and no change |
| `ScsiWrite.CompareOtherCounts` | scsi.cpp:668-686 | a count other than one changes nothing: more than one block is refused with sense data, zero blocks succeed unless the LBA lies beyond the device |
| `ScsiWrite.CompareChanges` | scsi.cpp:662-703 | for every request: whatever COMPARE AND WRITE changes is the replacement of a matching block, reported as success |
| `TrimLevels.TrimLevelIsInvisible` | scsi.cpp:771-1130 | any run of WRITE, WRITE SAME, UNMAP and COMPARE AND WRITE by any sessions gives the same responses and the same disk at every trim level |
| `TrimLevels.ExecuteAtLevel` | scsi.cpp:771-1130 | the same for one command, also when the device is reserved or fails every call |
| `TrimLevels.WriteLevelsIff` | scsi.cpp:1062-1097 | levels 1 and 2 answer a WRITE alike if and only if it does not make the backend trim nothing |
| `TrimLevels.TrimLevelsIff` | scsi.cpp:1099-1130 | one trim at levels 0 and 1 returns the same, and leaves the same bytes if and only if it does not run off the device over bytes that are not zero |
| `TrimLevels.UnmapLevelsIff` | scsi.cpp:771-818 | for every descriptor list UNMAP answers alike at levels 0 and 1, and leaves the same bytes if and only if the first descriptor that runs past the end meets only zeros there |
| `TrimLevels.LargeUnmapTells` | scsi.cpp:771-818 | one descriptor larger than the device over bytes that are not zero leaves different disks at levels 0 and 1 |
| `Reservations.StepAndHolder` | scsi.cpp:1173-1230 | the holder changes only by its own release or end of session; a free device is taken only by the session that asks; the holder stays live |
| `Reservations.OthersAreRefused` | scsi.cpp:1049-1171 | while another session holds the device every access is refused and the disk stays |
| `ReservedCommands.ReservedIff` | scsi.cpp:393-924 | on a device that another session has reserved no command changes anything, and a WRITE, WRITE SAME, UNMAP or COMPARE AND WRITE is answered with a reservation conflict if and only if it gets as far as the backend |
| `ReservedCommands.ReservedIsAnswered` | iscsi-pdu.cpp:467-483 | what is sent then is one SCSI response with the status 18h, and no session is registered |
| `ReservedCommands.ConflictIff` | iscsi-pdu.cpp:467-483 | over all commands, devices and reservations: the status 18h is sent if and only if another session holds the device and the command gets as far as the backend |
| `ReservedCommands.FailureIsAnswered` | scsi.cpp:393-924 | on a device whose backend fails nothing changes; of the commands that get that far UNMAP and COMPARE AND WRITE are answered with a write error, WRITE is not answered, and WRITE SAME is answered with success |
| `Reservations.HolderAlwaysLive` | server.cpp:721-725 | in every run the holder is a live session |
| `Reservations.HolderIsAlone` | scsi.cpp:1049-1230 | while the holder does not give up, disk and answers are those of the run in which only its own calls happened |
| `Reservations.HandoverNeedsRelease` | scsi.cpp:1173-1213 | the device changes hands only through a release or end of the holder |
| `ScsiDevice.Scsi.LockingStatus` | scsi.cpp:1215-1230 | tells apart free, own and other reservations |
| `ScsiDevice.Scsi.ReserveDevice` | scsi.cpp:1173-1190 | the reservation afterwards, and whether the caller has it |
| `ScsiDevice.Scsi.UnlockDevice` | scsi.cpp:1192-1213 | only the holder's call frees the device |
| `ScsiDevice.Scsi.EndSession` | server.cpp:721-725 | the result of the last sync; the device is freed if and only if the session holds it |
| `ScsiDevice.Scsi.Sync` | scsi.cpp:1049-1060 | refused for others, otherwise the result of the backend |
| `ScsiDevice.Scsi.IsZero` | scsi.cpp:1070-1083 | the scan finds out whether all bytes of the blocks are zero |
| `ScsiDevice.Scsi.Write` | scsi.cpp:1062-1097 | the new disk and the result, for every trim level and reservation; an on-device range gives the backend on-device addresses only |
| `ScsiDevice.Scsi.Trim` | scsi.cpp:1099-1130 | the same for trim, with its loop at level 0 |
| `ScsiDevice.Scsi.Read` | scsi.cpp:1132-1145 | the blocks read, or the refusal |
| `ScsiDevice.Scsi.CmpWrite` | scsi.cpp:1147-1171 | success means that the blocks were as expected and are replaced, every other result an unchanged disk; addresses stay on the device |
| `ScsiDevice.Scsi.WriteParts` | scsi.cpp:446-466 | whole blocks, then the fragment |
| `ScsiDevice.Scsi.WriteVerify` | scsi.cpp:393-517 | an accepted WRITE within its transfer gives the backend only addresses on the device, working or not, and on a working device leaves exactly its data at the LBA that the bytes of the CDB stand for |
| `ScsiDevice.Scsi.SameLoop` | scsi.cpp:874-892 | the loop of WRITE SAME stops at the first failure |
| `ScsiDevice.Scsi.WriteSame` | scsi.cpp:820-924 | response and disk of WRITE SAME; an accepted one gives the backend only addresses on the device |
| `ScsiDevice.Scsi.Unmap` | scsi.cpp:771-818 | the loop over descriptors: response and disk of UNMAP, the latter for the descriptors that the list stands for; addresses stay on the device unless a descriptor runs past its end |
| `ScsiDevice.Scsi.CompareAndWrite` | scsi.cpp:662-703 | any change is the replacement of a block that equalled the first half of the data; addresses stay on the device |
| `DataOutRuns.StoreMeans` | server.cpp:293-322 | an aligned piece is stored at its offset from the session's LBA, and nothing else changes |
| `DataOutAnswers.RefusedIff` | server.cpp:276-341 | a Data-Out PDU is refused as invalid if and only if it names no waiting task, or its offset or data are not whole blocks, or it is empty without the F bit; then nothing changes |
| `DataOutAnswers.TakenAnswers` | server.cpp:303-374 | every other PDU: it fails if and only if the disk cannot be written or, with FUA, the sync succeeds, and then neither counters nor tasks move; otherwise the counters move by its length, and the F bit brings one response, and an R2T for what is missing or the end of the task |
| `DataOutAnswers.SameWaitsIff` | scsi.cpp:911-921 | a WRITE SAME gets an R2T if and only if it is valid, brings no data and asks for as many blocks as a block has bytes, which is possible for blocks of at most 256 bytes; its counters start at zero |
| `DataOutAnswers.SamePieceMeans` | server.cpp:306-318 | data for a WRITE SAME: its first block fills as many blocks as the counter has left, from the offset of the PDU on, up to the end of the device |
| `DataOutAnswers.SameUnmapMeans` | server.cpp:309-311 | with the UNMAP bit as many blocks from LBA 0 on are zeroed, wherever the offset is |
| `DataOutAnswers.SameSpills` | server.cpp:306-337 | so the first PDU stores nothing, and the counter wraps; the second fills a device below 4 GB from its offset to the end |
| `DataOut.FiledUnderName` | server.cpp:276-281 | a Data-Out PDU is filed under a tag if and only if that is its transfer tag, or its task tag if the transfer tag is FFFFFFFFh |
| `WriteTransfer.UnsolicitedIsFiled` | server.cpp:276-281 | unsolicited data is taken exactly like data whose transfer tag is the task tag |
| `DataOutRuns.PushMeans` | server.cpp:270-376 | one Data-Out PDU: bytes stored; with FUA and a sync that succeeds an error and nothing else, otherwise counters moved, session kept or removed, responses sent |
| `DataOutRuns.CountersConserved` | server.cpp:336-337 | done plus left never changes modulo 2^32 |
| `DataOutRuns.StoredMeans` | server.cpp:293-322 | whatever the order and overlap, carried bytes come from the buffer and all others stay |
| `DataOutRuns.CompleteIffApart` | server.cpp:336-337 | a stream that carries as many bytes as are missing covers them all if and only if its PDUs are pairwise disjoint |
| `DataOutRuns.ApartIsCompleteIffCovering` | server.cpp:336-337 | disjoint PDUs never carry more than is missing, and carry that much if and only if every missing byte is covered |
| `DataOutRuns.RunMeans` | server.cpp:270-376 | after any pieces in any order: the disk, the counters, the responses; the session is removed if and only if nothing is missing and the last PDU has the F bit |
| `DataOutRuns.AnyRunMeans` | server.cpp:270-376 | for any pieces, also more than are missing: those up to the end of the session are stored, counted modulo 2^32 and answered by their F bits; later ones change nothing |
| `DataOutRuns.EndAtIsFirst` | server.cpp:336-358 | the session ends at the first PDU with the F bit up to which as many bytes were sent, modulo 2^32, as were missing |
| `DataOutRuns.TrippedRunNeverEnds` | server.cpp:329-334 | a WRITE with FUA on a backend that syncs: every piece is stored and answered with an error, and the session never ends |
| `WriteTransfer.EndsIffAllSent` | server.cpp:270-376 | disjoint pieces in any order: the session ends if and only if every missing byte was sent, and then the disk range is the buffer and the rest is unchanged |
| `WriteTransfer.EndsWholeIffApart` | server.cpp:270-376 | when the missing number of bytes was sent the session ends, and every byte arrived if and only if the PDUs are disjoint; others keep their old value |
| `WriteTransfer.OneResponseIff` | server.cpp:344-374 | for any pieces: exactly one SCSI response if and only if, of the PDUs that reach the session, only the last has the F bit |
| `WriteTransfer.AcknowledgedIff` | server.cpp:329-334 | a storable piece is acknowledged if and only if not both FUA is set and the sync succeeds; so with FUA exactly when the sync has failed |
| `WriteTransfer.OtherTasksStay` | server.cpp:270-376 | a Data-Out PDU leaves the sessions of other tags alone |
| `WriteTransfer.CommandWaits` | iscsi-pdu.cpp:485-536 | an incomplete WRITE stores what it brings at the LBA in its CDB and registers the session that its R2T announces |
| `WriteTransfer.UntaggedWaits` | iscsi-pdu.cpp:513-527 | a WRITE without a task tag waits under the fresh tag like one that has it |
| `WriteTransfer.TagInUse` | session.cpp:33-46 | under a tag that is in use the data is stored and the R2T sent as if it were free, but the former session stays |
| `WriteTransfer.CommandCompletes` | iscsi-pdu.cpp:467-483 | a WRITE that brings all its data: the disk holds it, one response of success is sent and no session is left |
| `WriteTransfer.CommandDiffers` | iscsi-pdu.cpp:485-509 | when the initiator announces another length, the data is stored, and instead of an R2T it gets the residual: underflow or overflow by the difference |
| `WriteTransfer.CommandRefused` | iscsi-pdu.cpp:467-483 | a WRITE out of range or with protection information changes nothing and is answered with that sense data and status 02h |
| `WriteTransfer.CommandSilentIff` | iscsi-pdu.cpp:467-483 | an accepted WRITE with data gets no answer if and only if the backend fails and the device is not reserved by another; then nothing is stored |
| `WriteTransfer.WriteArrives` | server.cpp:270-376 | immediate data and disjoint covering pieces in any order: the disk holds exactly the buffer at the LBA, the session is gone, the response is sent |
| `WriteTransfer.FuaNeverEnds` | server.cpp:329-334 | from the command on, with FUA and a backend that syncs: every piece is stored and answered with an error, and the session stays |
| `WriteTransfer.OnePieceCompletes` | server.cpp:270-376 | one PDU with all the missing bytes meets these conditions, so every transfer that starts can be completed |
| `PduHeaders.CommandReadsBack` | iscsi-pdu.h:255-303 | the getters take LUN, tag, lengths, numbers and CDB from a command PDU laid out as in section 11.3 of RFC 7143 |
| `PduHeaders.DataOutReadsBack` | iscsi-pdu.h:359-403 | the getters take both tags, offset, F bit and data from a Data-Out PDU laid out as in section 11.7 of RFC 7143 |
| `PduHeaders.AnswerReadsBack` | iscsi-pdu.cpp:571-622 | from the bytes of a SCSI response or an R2T a reader of sections 11.4 and 11.8 of RFC 7143 gets status, residual and sense codes, or tag, offset and length, and the numbers that tie it to its command |
| `PduHeaders.R2tReadsBack` | iscsi-pdu.cpp:875-890 | tag, offset and length of an R2T, and the numbers that tie it to its command, come back by section 11.8 of RFC 7143 |
| `PduHeaders.StatusSeenIff` | iscsi-pdu.cpp:603-617 | by section 11.4.2 of RFC 7143 the status of a response counts if and only if it has no sense data |
| `PduHeaders.ConflictOnTheWire` | iscsi-pdu.cpp:467-483 | so the status of a reservation conflict is sent but does not count; the sense data says unit attention |
| `PduHeaders.WriteOverTheWire` | server.cpp:60-376 | from bytes to bytes: command and pieces come from the wire as sent; the R2T as read names the tag and the missing range; after pieces that cover it the disk holds exactly the buffer and the last answer as read tells of success for that task |
| `WriteInterleaved.PieceStaysAway` | server.cpp:303-322 | a piece of another task that lies elsewhere on the disk leaves the range of a task alone |
| `WriteInterleaved.OthersUnseen` | server.cpp:270-376 | PDUs of any tasks interleaved: while the others write elsewhere, a task's replies, counters and range are those of its own PDUs alone |
| `WriteInterleaved.ArrivesAmongOthers` | server.cpp:270-376 | among other tasks too, the session ends if and only if all missing bytes were sent, and then its range holds the buffer |
| `Server.Session.GetIncDataSn` | session.cpp:22-31 | the number given out and the counter afterwards |
| `Server.Store` | server.cpp:303-322 | the three ways the data of a PDU reaches the disk |
| `Server.PushDataOut` | server.cpp:270-376 | reply, disk and session table as in the function the properties are about |
| `Server.ReadSegment` | server.cpp:486-497 | a part of a block, or whole blocks and zeros |
| `Server.StreamRead` | server.cpp:431-524 | the PDUs of the loop and the session's counters afterwards |
| `Server.SendAll` | server.cpp:469-524 | the bytes handed to the connection are those of the PDUs one after the other |
| `DataIn.StreamShape` | server.cpp:469-524 | the stream ends, with one PDU per segment, contiguous offsets, F and S on exactly the last PDU, the residual there, and consecutive sequence numbers |
| `DataIn.StreamContents` | server.cpp:469-524 | for sizes that divide, the payloads concatenate to the bytes on the disk |
| `DataInFraming.Announces` | iscsi-pdu.cpp:726-728 | the header announces the length of the data modulo 2^24 |
| `DataInFraming.HeaderReadsBack` | iscsi-pdu.cpp:715-748 | a reader by section 11.7 of RFC 7143 gets sequence number, offset, F, S and residual, and LUN, task tag, transfer tag 0 and the three numbers from their places in the 48 bytes |
| `DataInFraming.FillPdu` | iscsi-pdu.cpp:715-775 | the zeroed buffer filled in place: header, header digest, data, data digest right behind the data, zeros |
| `DataInFraming.MisplacedDigest` | server.cpp:507-511 | for every data whose length is not a multiple of four, the digest sent behind it is never the digest of what the receiver takes for the padded data |
| `DataInFraming.OneArrivesIff` | iscsi-pdu.cpp:715-775 | a receiver gets header and data back, and stays in step, if and only if the data is below 2^24 bytes and, with checked data digests, a multiple of four |
| `DataInFraming.ArrivesIff` | server.cpp:469-524 | the same for a stream of PDUs: the receiver gets the list back with nothing left if and only if every segment has such a size |
| `DataInFraming.SegmentsArriveIff` | server.cpp:469-524 | the Data-In PDUs of a READ arrive if and only if the segment length and the total fit the wire, and then carry the payload |
| `ReadTransfer.SizesFitIff` | server.cpp:471-472 | the recursive condition on sizes in closed form |
| `ReadTransfer.FaithfulIff` | server.cpp:431-524 | the stream carries the right bytes for every disk if and only if the sizes fit |
| `ReadTransfer.NumberedFromZeroIff` | session.cpp:22-31 | DataSN runs 0..k-1 if and only if the ITT differs from the previous one or nothing was sent for it |
| `ReadTransfer.ReadDelivers` | server.cpp:431-524 | the PDUs of an accepted READ carry the bytes at the LBA in its CDB, min(has, wants) of them with the size in 32 bits, with the residual on the last; a receiver gets these bytes from the wire, in PDUs that name the task, if and only if min(segment, total) is below 2^24 and, with data digests, the sizes are multiples of four |
| `ReadTransfer.ReadAnswers` | scsi.cpp:524-562 | a READ is refused with sense data, does nothing for zero blocks, or streams the blocks that its CDB addresses |
| `ReadTransfer.ReservedReadSendsNothing` | server.cpp:486-500 | on a device that another session has reserved a READ streams nothing |
| `ReadTransfer.TransferSizeIff` | server.cpp:431-438 | the number of bytes is the right one if and only if the size fits in 32 bits or what is left of it is still as much as wanted; the residual is right if and only if the size fits |
| `ReadTransfer.ReadBack` | server.cpp:270-524 | a READ after a WRITE transfer carries the buffer back, and the initiator gets it from the wire under exactly that condition |
| `Crc32cTable.Lookup` | iscsi.cpp:91-158 | every entry of the table is eight shift-and-subtract steps on its index |
| `Crc32c.TableStep` | iscsi.cpp:160-168 | one turn of the loop feeds the eight bits of a byte into the register |
| `Crc32c.Compute` | iscsi.cpp:160-168 | the loop yields the digest and the register to continue with |
| `Crc32c.Chunks` | server.cpp:153-168 | feeding the register of one chunk into the next gives the register of the concatenation |
| `Crc32c.RegisterInjective` | iscsi.cpp:160-168 | different registers stay different whatever follows |
| `Crc32c.BurstDetected` | iscsi.cpp:160-168 | messages of equal length that differ only within four consecutive bytes have different digests |
| `Crc32cDivision.DigestIsDivision` | iscsi.cpp:160-168 | the digest is the complemented remainder of polynomial division by 0x11EDC6F41, bits reversed |
| `Framing.GetHelper` | iscsi-pdu.cpp:63-111 | the filled buffer is header, digest, padded data, digest as negotiated |
| `Framing.EncodedLength` | iscsi-pdu.cpp:63-111 | the emitted length is a multiple of four |
| `Framing.Peer.ReceivePdu` | server.cpp:60-261 | what one call returns and how many bytes it consumes |
| `Framing.Peer.VerifyDigest` | server.cpp:175-193 | reads four bytes and compares them with the digest |
| `Framing.Peer.ReceiveData` | server.cpp:195-251 | data, padding and data digest |
| `Framing.RoundTrip` | iscsi-pdu.cpp:63-111 | for every header without AHS, data and digest setting the receiver returns the same header and data, accepts the digests and consumes exactly the emitted bytes |
| `Framing.StreamRoundTrip` | server.cpp:60-261 | a concatenation of PDUs parses back to the same list with nothing left |
| `Framing.DamagedDataIsRefused` | server.cpp:210-251 | data changed within four consecutive bytes is refused and the stream stays in step |
| `Framing.DamagedHeaderRefusedIff` | server.cpp:153-193 | a header changed within four consecutive bytes, without AHS length, is refused if and only if it did not turn into a login request whose announced bytes are there |
| `Framing.DamageIntoAhsCanPass` | server.cpp:153-193 | a header whose damage sets the AHS length is accepted with suitable bytes after it, unless its digest starts with two zero bytes |
| `OidText.SplitLoop` | utils.cpp:65-91 | the loop splits at every dot |
| `OidText.JoinSplit` | utils.cpp:65-91 | joining the parts gives the text back |
| `OidText.SplitDotted` | utils.cpp:65-91 | splitting the text of an OID gives its components |
| `SnmpData.OidIdxIsSortKey` | snmp/snmp_data.cpp:35-44 | the index of a node is its last component |
| `SnmpData.InsertKeepsWellFormed` | snmp/snmp_data.cpp:222-266 | inserting at the place found keeps children strictly sorted and every node one component below its parent |
| `SnmpData.SnmpData.FindOidInVector` | snmp/snmp_data.cpp:10-20 | finds the child with that OID or reports none |
| `SnmpData.SnmpData.FindPlace` | snmp/snmp_data.cpp:249-258 | the position that keeps the children sorted |
| `SnmpData.SnmpData.RegisterOid` | snmp/snmp_data.cpp:222-266 | the tree afterwards: all prefixes are nodes, the element is at the OID, the rest is unchanged, sorted as before |
| `SnmpData.SnmpData.FindByOid` | snmp/snmp_data.cpp:278-308 | agrees with a map from OID to element, and finds nothing for an OID that is no node |
| `SnmpData.SnmpData.FindNextOid` | snmp/snmp_data.cpp:310-381 | from a node: the least leaf after it under the same root arc, or the empty text if there is none; for any text, one function of the tree |
| `OidTree.FirstLeafIsLeast` | snmp/snmp_data.cpp:342-348 | descending along first children reaches the least leaf below a node |
| `OidTree.SiblingSuccessor` | snmp/snmp_data.cpp:355-378 | going up to the first later sibling and down again reaches the next leaf |
| `OidTree.NoSuccessor` | snmp/snmp_data.cpp:355-380 | with no later sibling on the way up there is no later leaf under the root arc |
| `SnmpWalk.LeavesAreRegistered` | snmp/snmp_data.cpp:222-266 | for prefix-free OIDs the leaves are exactly the registered OIDs |
| `SnmpWalk.WalkFromRootArc` | snmp/snmp_data.cpp:310-381 | the walk visits exactly the registered OIDs of the root arc, strictly ascending, so each once; all of them if and only if there is one root arc |
| `SnmpWalk.WalkFromAbove` | snmp/snmp_data.cpp:310-381 | from an inner node above all registered OIDs the walk visits exactly those, strictly ascending |
| `SnmpWalk.RegisterAll` | snmp/snmp_data.cpp:222-266 | registering distinct prefix-free OIDs in any order yields a well-formed tree that holds exactly them |
| `SnmpWalk.WalkAll` | snmp/snmp_data.cpp:310-381 | iterating `find_next_oid` from a node above them all until the empty text lists every registered OID exactly once, in numeric order |
| `SnmpWalk.SuccessorMeetsStandardIff` | snmp/snmp_data.cpp:310-381 | the answer for a node is the lexicographic successor if and only if there is one or no later root arc has leaves |
| `SnmpWalk.UnknownOidMeetsStandardIff` | snmp/snmp_data.cpp:325-351 | below a root arc, the answer for an unknown OID is the successor if and only if the OID precedes all children of the node where the search stops |
| `SnmpWalk.TopMeetsStandardIff` | snmp/snmp_data.cpp:325-351 | when the search stops at the top, its answer, the first leaf of the arc registered first, is the successor of any OID if and only if it comes after that OID and no smaller arc has a leaf that does |
| `SnmpWalk.OtherOidsMeetStandardIff` | snmp/snmp.cpp:110-144 | every OID on the wire that does not start with byte 43, whatever it denotes, is answered with that leaf, which is right under exactly that condition on the denoted OID |
| `SnmpWalk.SearchMeetsStandardIff` | snmp/snmp_data.cpp:310-381 | for the text of every OID: what `find_next_oid` returns, and exactly when that is the lexicographic successor, by the place of the OID in the tree |
| `SnmpWalk.WireMeetsStandardIff` | snmp/snmp.cpp:110-144 | the same for every OID on the wire that starts with byte 43 and has components below 2^31 |
| `BerOid.EncodeLoop` | snmp/snmp_elem.cpp:164-208 | the loops produce one byte for "1.3." and then each component in base 128 |
| `BerOid.EncodeNumber` | snmp/snmp_elem.cpp:182-198 | digits taken lowest first and written highest first, all but the last with the continuation bit |
| `BerOid.DecodeEncode` | snmp/snmp.cpp:110-144 | what decoding gives for every OID below "1.3", in 32 bits and signed |
| `BerOid.OidRoundTripIff` | snmp/snmp.cpp:110-144 | the text comes back if and only if every component is below 2^31 |
| `BerOid.AnyOidRoundTripIff` | snmp/snmp.cpp:110-144 | the text of any OID, with components of any size, comes back if and only if it is empty, or below "1.3" with components below 2^31 |
| `BerOid.EncodeDenotesIff` | snmp/snmp_elem.cpp:164-208 | by section 8.19 of ITU-T X.690 the encoder's bytes denote the OID, below "1.3", if and only if its components fit in 63 bits |
| `BerOid.ShownAsDenoted` | snmp/snmp.cpp:110-144 | any bytes that start with 43 and hold components below 2^31 are decoded to the text of the OID that they denote |
| `BerOid.EncodeFitsBuffer` | snmp/snmp_elem.cpp:166-168 | the encoding is never longer than the text, the size that is allocated |
| `BerElements.IntegerRoundTrip` | snmp/snmp_elem.cpp:25-63 | every 64-bit integer comes back from its 4 or 8 bytes |
| `BerElements.SequenceWholeIff` | snmp/snmp_elem.cpp:92-113 | a sequence is emitted whole if and only if it takes at most 255 bytes |
| `BerElements.PayloadIsTlv` | snmp/snmp_elem.cpp:92-113 | for at most 255 bytes in all every element appears with type, length and value |
| `BerParser.ParserMeans` | snmp/snmp.cpp:146-280 | on the encoding of any tree of elements the parser does what the tree means: fields, OIDs in order, failure or range error |
| `SnmpMessage.RequestRoundTrip` | snmp/snmp.cpp:146-280 | a GET, GET NEXT or SET message of at most 255 bytes: version, community, request id and every OID or its successor come back |
| `SnmpMessage.CollectKeepsOids` | snmp/snmp.cpp:252-254 | GET and SET take up exactly the OIDs asked for, in order |
| `SnmpMessage.CollectTakesSuccessors` | snmp/snmp.cpp:241-251 | GET NEXT takes up the successors in order, with the error if and only if some OID has none |
| `SnmpAgent.AskAnswers` | snmp/snmp.cpp:209-280 | a GET NEXT message for the OID of a node is understood as a question for its successor in the tree, or as the error if there is none |
| `SnmpReply.MessageReadsIff` | snmp/snmp_elem.cpp:92-113 | a message as emitted is read back as the tree that was built if and only if its contents take at most 253 bytes, for a reader of one-byte lengths, or at most 127 bytes for a reader of section 8.1.3 of ITU-T X.690 |
| `SnmpReply.ReplyAnswers` | snmp/snmp.cpp:282-346 | version, community, request id, both error fields, and every OID with the element found for it stand in the tree of the reply |
| `SnmpReply.ReplyReaches` | snmp/snmp.cpp:282-346 | from a reply within that limit the client gets all of them |
| `SnmpReply.ValueReadsBack` | snmp/snmp_elem.cpp:25-63 | every registered kind of element comes back from its node: type and number, text, OID, null |
| `SnmpReply.SignedReadsIff` | snmp/snmp_elem.cpp:25-36 | by section 8.3 of ITU-T X.690 the bytes of an integer stand for it if and only if it is below 2^31, or from 2^32 on and below 2^63 |
| `SnmpLookup.LookupIs` | snmp/snmp.cpp:315-341 | the lookup by text finds the element of the node, or of the parent if the OID ends in 0 and is no node, or a null |
| `SnmpLookup.GenReply` | snmp/snmp.cpp:282-346 | the loop over the OIDs makes the reply with what `find_by_oid` finds for each, tried again without ".0" |
| `SnmpAgent.GetHears` | snmp/snmp.cpp:209-346 | a client whose GET names OIDs hears in the bytes of the reply, for each in order, the element registered for it or its parent, or a null, and can read it |
| `SnmpAgent.HearsSuccessor` | snmp/snmp.cpp:209-346 | a client that asks for a node hears its successor, with its element, in the bytes of the reply |
| `SnmpAgent.GetNextWalks` | snmp/snmp.cpp:209-346 | a client that asks on with every OID it reads in the bytes of a reply gets every registered OID once, in ascending order and with its element, and then the error |
| `Snmp.Block.GetByte` | snmp/block.cpp:121-129 | the next byte, or a range error at the end |
| `Snmp.Block.GetBytes` | snmp/block.cpp:142-153 | the next n bytes, or a range error and no movement |
| `Snmp.Block.SkipBytes` | snmp/block.cpp:160-168 | moves the cursor within the block only |
| `Snmp.GetInteger` | snmp/snmp.cpp:93-102 | the loop reads a big-endian number in 64 bits |
| `Snmp.GetOid` | snmp/snmp.cpp:110-144 | the loop decodes base 128 into text, or reports an unfinished component |
| `Snmp.ProcessBer` | snmp/snmp.cpp:209-280 | the loop and its recursion end on every input with the outcome of the function the properties are about |
| `Snmp.ProcessPdu` | snmp/snmp.cpp:146-207 | the same for a PDU; the result of a single binding is not looked at |
| `Snmp.PackSequence` | snmp/snmp_elem.cpp:92-113 | the loop over an uninitialised buffer with an 8-bit position, for payloads of any total length |
| `Snmp.IntegerPayload` | snmp/snmp_elem.cpp:38-63 | the shifting loop writes type, length and the big-endian value |

## Left out

- Sockets, polling, connecting, retrying and command line handling; the SD-card, LED and WiFi parts of the microcontroller builds.
- Microcontroller constants and builds without locks: 131 mutexes, 256 MB segments and the reservation of the desktop build are modelled.
- Logging, timing, statistics counters and the random generator; a random transfer tag is a parameter.
- Object lifetime and thread creation: threads and sessions are identifiers, allocation never fails.
- `backend_file` as single-threaded code: at block level its compare-and-write is the one of `NbdBackend`; in the lock protocol it has its own locking.
- The disk of `Lun` and the disk of the lock protocol are separate models: a backend call in `Lun` is one step that succeeds or fails as a whole, with `healthy`, and `syncs` for the sync, fixed during a command.
- AHS contents, and the loop that drains a data segment that is too large: neither loop advances its own counter.
- Digest settings that change during login while PDUs are on the way; `Framing` takes the settings as given.
- INQUIRY, MODE SENSE, READ CAPACITY, REPORT LUNS and the other commands that answer with a fixed table.
- R2TSN and ExpDataSN, which the code leaves 0, and the layout of PDUs other than SCSI command, SCSI response, Data-In, Data-Out and R2T.
- The contents of `PDU_initiator`, the copy of the command in an R2T session: answers to Data-Out PDUs name the command they are made for.
- The initiator: the receiver of Data-In PDUs is the framing of section 11.2 of RFC 7143 as in `Framing`, which returns a PDU of an opcode it does not know, too.
- Data-In sent inline, whose residual count the code overwrites, and the login and text negotiation.
- `iscsi.cpp` text conversion and bit fields: no property beyond their bodies.
- Backends that accept a range past their end: `backend_file` grows its file on such a write and accepts such a trim; the model's backend refuses both, as NBD and block devices do.
- ScsiWrite.TrimPastEnd: for a backend that refuses a range past its end.
- TrimLevels.TrimLevelsIff: for a backend that refuses a range past its end.
- TrimLevels.UnmapLevelsIff: for a backend that refuses a range past its end.
- TrimLevels.LargeUnmapTells: for a backend that refuses a range past its end.
- TrimLevels.ExecuteAtLevel: not a device that fails in the middle of a command, which leaves some blocks zeroed at level 0 and none at level 1.
- ScsiWrite.UnmapZeroesAccepted: for a backend that refuses a range past its end; takes a descriptor list whose last descriptor is complete, because the code reads past the data otherwise.
- ReadTransfer.ReadDelivers: takes a positive segment length, because the loop does not end otherwise.
- DataIn.StreamShape: takes a positive segment length, because the loop does not advance with zero.
- WriteTransfer.WriteArrives: takes the PDUs of one task only; `WriteInterleaved.ArrivesAmongOthers` is the version among other tasks.
- Server.Store: the block address of a WRITE SAME loop is a natural number, not one modulo 2^64; such sessions start at block 0.
- OidTree and SnmpData: nodes are reached by their path instead of pointers; texts with leading zeros or signs are not registered.
- BerOid.Encode: `atoll` is modelled for text without signs, saturating at 2^63 - 1.
- BerElements.Payload: octet strings and OIDs of more than 253 bytes, whose one-byte size field wraps, are outside the laws about it.
- `snmp_data_type::get_data`: an element is the value at the time of the request; counters that move during a walk are not modelled.
- SnmpReply.ValueReadsBack: for an element that is an OID, one below "1.3" whose components fit in 63 bits.
- Framing.DamageIntoAhsCanPass: a digest that starts with two zero bytes, over which the loop of the AHS parser does not get on.
