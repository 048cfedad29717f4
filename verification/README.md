# PennCloud, modelled and verified

PennCloud is a replicated key-value store with a master in front of it and clients above it: a
file store, an SMTP server with its mail clients, and a load balancer for the web frontend. This
project models the parts of it whose correctness is not visible in any one function body, follows
the code branch by branch, and proves what the parts promise, for all inputs and all runs.

Run `dafny verify dfyconfig.toml`.

## The modules

- **Text, Wrappers**: `std::string` searches, `substr` with its unsigned arithmetic, decimal numbers.
- **Updates, LogFormat, Recovery, Node, TornLog, ShortLogs**: one data server. What updates mean, the text of log and
  checkpoint, what the replay restores, and the server as an object whose commands append to the
  log before they touch the table. A ghost trace records the files after each single write, and
  a write may also be torn after any character.
- **BackStore, Transfer, CatchUp, Cluster, PrimaryNode, Requests, Written, Recoveries**: the primary's replica
  list as an object, the receiving of its files, the cluster as a state machine over PUT, CPUT, DELETE, checkpoint, delivery, crash,
  RECOVERY, transfers and READY that writes, sends and reads the texts of commands, log and checkpoint,
  its agreement with the server object, what a replica is told, which writes a running replica has
  seen, the exact overlap conditions of a catch-up, and the runs in which recovery goes wrong.
- **Wire, Pushes, GetReply, Hex**: frames, a replica's connection with many pushed commands, the replies a
  client reads piece by piece, hexadecimal files.
- **Optimistic, Listing, Directory, Store, Move**: any number of GET / compute / CPUT / retry
  sessions on one cell; directory text; directory edits; one client's retry loops against
  interfering writers; the move of an entry.
- **MailList, Buffer, ReadReply, Smtp, SmtpRuns, MailPath**: mail-hash lists, the in-place read
  buffer, the SMTP session object and its runs, and the way of a mail from the sending client to
  the reading one.
- **Election, Placement, Balancer**: primary promotion, row placement, the server deque.

Loops and objects of the source are loops and objects here, proved against functions; the main
results are lemmas about those functions and about runs. Texts are sequences of characters
without NUL, as the code passes them through C strings. Each server command is one atomic step.
Every lemma switches automatic induction off, so every induction is written out.

## Where the code departs from its intent

The model does what the code does. For each of these there is a failing case or an exact
condition under which the intended property holds.

- Replaying a DELETE erases the column named like the row (kvstore/checkpointing.cc:187):
  `Updates.ReplayCorrectIff`, `Recovery.LogRecoveryIff`, `Recoveries.DeletedCellComesBack`.
- A replica's log record ends in ".\n" instead of "\n.\n" (kvstore/Worker.cc:409), so replay loses
  a line feed: `LogFormat.ReplicaLogLosesLineFeed`, `CatchUp.OwnLogCatchUpIff`.
- RECOVERY is sent as number and address (kvstore/dataserver.cc:301) and read as address and number
  (kvstore/Worker.cc:250-258): `CatchUp.RecoveryIsReadSwapped`, `CatchUp.RecoveryMarksNobody`.
- `parse_PUT` looks for the column among the rows (kvstore/Worker.cc:353): `Node.MissingCell`.
- After a frame six characters are skipped instead of five (kvstore/Worker.cc:377), so commands that are
  read together, such as the queue that `reconnect` sends, lose a character:
  `Wire.LeftoverIff`, `Pushes.CarriedIff`, `Pushes.BurstLoses`.
- A command line that was read in part is overwritten by the next read (kvstore/Worker.cc:108), and the
  number of a pushed DELETE is waited for with the end mark of a PUT (kvstore/Worker.cc:478):
  `Pushes.CarriedIff`, `Pushes.AloneIff`.
- A line of a value that is a lone dot ends its log record (kvstore/checkpointing.cc:145-157):
  `LogFormat.LogRoundTripIff`, `Recoveries.PutThenRecoverIff`.
- A transfer ends at the first "LOG END" or "CHECKPOINT END" of what was received, also inside a value or a
  key (kvstore/dataserver.cc:389, kvstore/dataserver.cc:408), and each read must fit a buffer of
  1000 characters up to a CRLF, which a log of DELETEs has only at its end: `Transfer.ArrivedIff`,
  `Transfer.OneLineIff`, `Recoveries.PutThenRecoverIff`.
- Recovery does not restore the number of the last update (kvstore/serverState.cc:18): `Node.DataServer.Restart`.
- One boolean pauses checkpoints for all recoveries (kvstore/serverState.h:68-74):
  `Recoveries.TwoRecoveriesIff`, `Recoveries.TwoAtOnceDisagree`.
- A missing cell and the text "NULL" are the same to CPUT (kvstore/Worker.cc:570-571):
  `Optimistic.RegisterOnceIff`.
- A value that holds an error marker can be read as an error (storage/Storage.cc:162-183):
  `GetReply.GetExactIff`.
- A title cut out of a message without a subject may span lines (webmail/server.cc:329-334), and the
  hash then no longer matches: `MailPath.TitleIff`, `MailPath.HashComesBackIff`.
- A bar in the subject splits the header at the wrong places (frontendServer/response.cc:1742-1753):
  `MailPath.HeaderShownIff`.
- The PROMOTE multicast closes its only socket with the first connection
  (kvstore/master/master.h:99-119): `Election.Told`, `Election.CandidateRestartIff`.
- A log record torn right after a dot that starts a line of its value is replayed as a shorter PUT:
  `TornLog.TornRecordIff`.
- The number of the last log record is searched for in the values too
  (kvstore/checkpointing.cc:208-213): `LogFormat.LastLogSeqIff`.
- The hash printed by `hash_MD5` has seventeen characters (webmail/utils.cc:142-144), each byte but
  the last losing its second digit: `MailList.HASH_LENGTH`.

## Model

| member | source | states |
|---|---|---|
| `Updates.LastWriterWins` | kvstore/Worker.cc:353-364 | a cell holds what the last update of it says, whatever came before |
| `Updates.Absorb` | kvstore/dataserver.cc:307-331 | replaying any suffix of what is already applied changes nothing |
| `Updates.Overlap` | kvstore/dataserver.cc:307-349 | a table that reflects the first `a` updates and then replays from `b <= a` on reflects all of them |
| `Updates.ReplayCorrectIff` | kvstore/checkpointing.cc:161-198 | the log replay gives the meaning of a log from every table if and only if each DELETE names a column equal to its row or is masked by later updates |
| `Updates.ReplayKeepsDeletedCell` | kvstore/checkpointing.cc:185-188 | the smallest failure: after one DELETE the replay still has the cell |
| `LogFormat.LogRoundTrip` | kvstore/checkpointing.cc:132-159 | a log of whole records, with or without a torn one behind them, is cut into exactly the logged updates (a replica's PUT without its last line feed) |
| `LogFormat.LogRoundTripIff` | kvstore/Worker.cc:382-398 | a primary's PUT record is read back as logged if and only if no line of the value is a lone dot |
| `LogFormat.ReplicaLogLosesLineFeed` | kvstore/Worker.cc:400-413 | a replica's PUT record is never read back as logged: the value loses its last line feed |
| `LogFormat.ReadEntry` | kvstore/checkpointing.cc:161-178 | keys and value of one record come back as logged, up to the lost line feed |
| `LogFormat.LastLogSeqIsLast` | kvstore/checkpointing.cc:200-226 | the number found from the end of the file is that of the last record, whatever earlier records hold and even when the last value has lines ending in ">" |
| `LogFormat.LastLogSeqMisled` | kvstore/checkpointing.cc:200-226 | when a line of the last value ends in "." before one that ends in ">", the answer is cut out of the value alone, whatever number the record has and whatever precedes it |
| `LogFormat.LastLogSeqIff` | kvstore/checkpointing.cc:200-226 | whatever the log holds before it, the number of a last record is found, for every number, if and only if no line of its value that ends in "." precedes one that ends in ">" |
| `Requests.NoRecordNoNumber` | kvstore/checkpointing.cc:200-226 | a log without a whole header line, the empty one included, has the number 0 |
| `Requests.AsksIff` | kvstore/Worker.cc:259-282 | a recovering replica is told to ask for the checkpoint if and only if its version is above the number of the request, and otherwise restores its own files |
| `Requests.EmptyLogAsksIff` | kvstore/dataserver.cc:287-322 | with an empty log, a replica that is told by the number it found asks for the checkpoint if and only if that holds an update |
| `Requests.LogAsksIff` | kvstore/dataserver.cc:287-322 | with a log, if and only if the checkpoint is newer than the last update of the log |
| `Requests.SwappedAsksIff` | kvstore/Worker.cc:250-264 | as the request is really read, the log does not matter: the version is compared with what the address starts with |
| `LogFormat.VersionRoundTrip` | kvstore/checkpointing.cc:228-249 | the version written on the first line is found, and the rest is what is replayed |
| `LogFormat.PutsBuild` | kvstore/checkpointing.cc:42-60 | putting all cells, in any order, builds the table |
| `LogFormat.CheckpointRoundTrip` | kvstore/checkpointing.cc:75-130 | a checkpoint that lists every cell, in any order, restores exactly the table and its version |
| `Recovery.LogRecoveryIff` | kvstore/checkpointing.cc:132-198 | checkpoint and log together restore what they meant, from every checkpoint, if and only if the DELETEs are harmless and no replica-written PUT is the last on its cell |
| `Recovery.LostLineFeedShows` | kvstore/Worker.cc:400-413 | a replica-written PUT that is last on its cell is restored wrongly |
| `Recovery.HarmShows` | kvstore/checkpointing.cc:185-188 | a DELETE that is not masked is visible after recovery from some checkpoint |
| `Recovery.CrashPointRecovers` | kvstore/checkpointing.cc:132-198 | files that hold whole records, even with a torn one behind, restore the table they stand for |
| `Node.CrashAnywhere` | kvstore/Worker.cc:334-365 | a crash between any two writes of a command leaves files that restore the table before the command or the one after it |
| `TornLog.TornRecordIff` | kvstore/Worker.cc:382-440 | a record may be torn after any character, the log being read without it or with it, if and only if no line of its value starts with a dot |
| `TornLog.CrashWithinRecord` | kvstore/Worker.cc:382-440 | then a crash at any character of the record restores the table before the command or the one after it |
| `TornLog.TornMisread` | kvstore/checkpointing.cc:145-157 | torn right after a dot that starts a line, the record is read as a PUT of something else |
| `TornLog.LastLine` | kvstore/checkpointing.cc:145-157 | a last line is read alike with and without its line feed |
| `Node.AppendRecord` | kvstore/Worker.cc:382-398 | after each of the appends of one record the files still stand for the same table, until the last one completes it |
| `Node.Logged` | kvstore/Worker.cc:382-428 | all states of the files while a record is written decode and stand for the old or the new table |
| `Node.Checkpointed` | kvstore/checkpointing.cc:26-73 | between the rename and the emptying of the log, and after it, the files stand for the table in memory |
| `Node.FlatSet` | kvstore/Worker.cc:353-364 | assigning to row and column of the nested table sets exactly that cell |
| `Node.FlatErase` | kvstore/Worker.cc:503-508 | erasing a column of a row removes exactly that cell |
| `Node.ReplayNextCommand` | kvstore/checkpointing.cc:140-158 | one round of the line loop: a lone dot replays the command collected so far |
| `Node.ReplayNextCell` | kvstore/checkpointing.cc:88-104 | the same for the checkpoint loop |
| `Node.DataServer.constructor` | kvstore/serverState.cc:13-26 | a new server is empty, not a primary, may checkpoint, and its files say so |
| `Node.DataServer.PutToLog` | kvstore/Worker.cc:382-413 | appends exactly one record; if everything is storable, every intermediate state of the files decodes |
| `Node.DataServer.DeleteToLog` | kvstore/Worker.cc:415-440 | the same for a DELETE record |
| `Node.DataServer.LogPut` | kvstore/Worker.cc:334-350 | a primary uses its next number, a replica the pushed one and raises its own to it; the numbering of a fresh primary is kept |
| `Node.DataServer.ParsePut` | kvstore/Worker.cc:306-380 | the cell has the value afterwards and one record is logged; where a row is named like the column but the cell is missing, the server crashes with the record written |
| `Node.DataServer.ParseDelete` | kvstore/Worker.cc:462-520 | always logged, even when nothing is deleted; the reply tells missing row, missing column or success; the cell is gone |
| `Node.DataServer.ParseCPut` | kvstore/Worker.cc:522-616 | accepted if and only if the cell holds the old value, or is missing and the old value is "NULL"; a refusal changes nothing at all |
| `Node.DataServer.ParseGet` | kvstore/Worker.cc:442-460 | the value, or which of row and column is missing |
| `Node.DataServer.WriteToDisk` | kvstore/checkpointing.cc:26-73 | afterwards the checkpoint alone stands for the table, with its version, and the log is empty; a crash in between loses nothing; without a file nothing changes |
| `Node.DataServer.TableText` | kvstore/checkpointing.cc:40-60 | the printed table restores to the table and shows the number of the last update |
| `Node.DataServer.CheckpointTick` | kvstore/dataserver.cc:214-226 | writes only while checkpoints are not paused |
| `Node.DataServer.ReplayLogCommand` | kvstore/checkpointing.cc:161-198 | one replayed command does to the cells what `Replay1` says, the wrong column of a DELETE included |
| `Node.DataServer.ReplayCheckpointCommand` | kvstore/checkpointing.cc:110-130 | one replayed cell is set |
| `Node.DataServer.RecoverFromLog` | kvstore/checkpointing.cc:132-159 | the line loop replays exactly the commands the text is cut into |
| `Node.DataServer.RecoverFromCheckpoint` | kvstore/checkpointing.cc:75-108 | the same for a checkpoint, after its first line; false and unchanged without a file |
| `Node.DataServer.Restart` | kvstore/dataserver.cc:307-325 | a new process that reads both files has what they restore to; its number is 0 again, whatever the files hold, and it is not a primary |
| `BackStore.BackStore.constructor` | kvstore/backStore.cc:20-59 | one replica per other server, running if it could be reached, failed otherwise |
| `BackStore.BackStore.Push` | kvstore/backStore.cc:61-91 | a running replica the command was written to keeps running with the command sent last, one it was not written to is failed with nothing sent, a recovering one has it queued last, a failed one is left alone |
| `BackStore.BackStore.Poll` | kvstore/backStore.cc:93-114 | the same for DELETE |
| `BackStore.BackStore.Recover` | kvstore/backStore.cc:163-174 | the first replica of that address is marked recovering and keeps its queue; nothing else changes |
| `BackStore.BackStore.Reconnect` | kvstore/backStore.cc:116-161 | the queue is sent in order on the new connection, is empty afterwards, and the replica runs |
| `Written.StepWrites` | kvstore/backStore.cc:61-114 | a push is the last update sent to a running replica if it was written to it, and makes it failed if not; nothing else touches what was sent |
| `Written.RunsIffWritten` | kvstore/backStore.cc:61-114 | in every run a running replica keeps running if and only if every push since was written to it; then exactly the updates pushed were sent to it, and otherwise it is failed |
| `Written.RunningSince` | kvstore/backStore.cc:61-161 | a running replica has run since its last READY, or since the start, and every push since then was written to it |
| `Cluster.StepKeeps` | kvstore/Worker.cc:224-380 | every step (PUT, CPUT, DELETE, checkpoint, delivery, crash, RECOVERY, the transfers of checkpoint and log as texts in any reads, READY) keeps the invariant of the whole cluster |
| `Cluster.RunKeeps` | kvstore/Worker.cc:224-380 | the invariant holds after every run of sound recoveries, however their transfers are cut into reads; in particular a running replica always has a connection, and the primary's files say what it logged |
| `Cluster.RunningReplicasAgree` | kvstore/backStore.cc:61-161 | in every run from a fresh primary, a running replica that carries out the commands still on its connection has the primary's table; recoveries may start from any own files whose checkpoint is no older than the primary's, and replay the texts that arrive |
| `Cluster.QueuesHaveNoGaps` | kvstore/backStore.cc:61-174 | in every run the queue of a recovering replica, and what was sent to a running one, is every update pushed since it was marked, in order; the queue is empty in every other state |
| `Cluster.QueueReachesBack` | kvstore/backStore.cc:163-174 | from the RECOVERY that names a replica until its READY its queue ends with every update pushed since then, in order |
| `Cluster.LoggedKeeps` | kvstore/Worker.cc:334-380 | logging and pushing one update keeps the invariant for every replica |
| `Cluster.DeliverKeeps` | kvstore/Worker.cc:98-208 | a delivery keeps it: the replica reads the text of the next pushed command, in any reads that carry it, and does what the primary did |
| `Cluster.DeliveredAsSent` | kvstore/backStore.cc:61-114 | a command that is read by itself is carried out as it was sent, whatever its number |
| `Cluster.SilentKeeps` | kvstore/Worker.cc:495-515 | a DELETE of an absent cell, logged but not pushed, keeps it too |
| `Cluster.RecoverKeeps` | kvstore/Worker.cc:247-282 | a RECOVERY keeps it, alone and from own files whose checkpoint is no older than the primary's, whatever records of later updates the own log holds, torn at its end or not, and whatever number is sent |
| `Cluster.SendCheckpointKeeps` | kvstore/dataserver.cc:312-320 | the text of the checkpoint, received in any reads, restores the table it was written from, or the replica does not come up |
| `Cluster.CheckpointReads` | kvstore/checkpointing.cc:75-130 | a checkpoint of storable cells is read back as its table from the text that is sent, a missing one as the empty table |
| `Cluster.CheckpointVersion` | kvstore/checkpointing.cc:228-249 | the version a primary finds in its file is the number of updates its last checkpoint holds |
| `Cluster.SendLogKeeps` | kvstore/dataserver.cc:325-332 | the text of the log, received in any reads and replayed, brings the replica to the primary's table of that moment, or the replica does not come up |
| `Cluster.TransferEnds` | kvstore/dataserver.cc:375-411 | a recovering replica goes on with what arrived if its transfer ends, and is down if not |
| `Cluster.LogReads` | kvstore/checkpointing.cc:132-198 | the text of a primary's log is read back as exactly the updates since the checkpoint, if they are storable |
| `Cluster.OwnFilesRestore` | kvstore/dataserver.cc:307-311 | what a replica restores from its own files: a checkpoint and some later updates of the right cells and kinds |
| `Cluster.ReadyKeeps` | kvstore/Worker.cc:239-245 | READY keeps it: what was held back is sent first |
| `Cluster.FreshInv` | kvstore/dataserver.cc:127-146 | a fresh primary with reachable and unreachable replicas satisfies it |
| `PrimaryNode.Put` | kvstore/Worker.cc:334-368 | a PUT on the server object does to table, files and number what the PUT step does to the cluster's primary, unless it hits a missing cell |
| `PrimaryNode.CPut` | kvstore/Worker.cc:570-616 | the same for a CPUT, which is logged if and only if the cell holds the old value, or is missing and the old value is "NULL", and otherwise changes nothing |
| `PrimaryNode.Remove` | kvstore/Worker.cc:462-512 | the same for a DELETE, which is pushed if and only if the cell was there |
| `PrimaryNode.Tick` | kvstore/dataserver.cc:214-226 | a tick of the checkpoint thread is the checkpoint step in some order of the cells, or nothing while it is paused |
| `Recoveries.TwoRecoveriesIff` | kvstore/serverState.h:68-74 | of two replicas that recover at once the second agrees with the primary, for every cluster and however the texts arrive, if and only if its files or its queue reach back over everything: the log that the checkpoint emptied brings nothing |
| `Recoveries.TwoAtOnceDisagree` | kvstore/serverState.h:68-74 | a run from a fresh primary with two recoveries that ends with a running replica without the primary's only cell |
| `Recoveries.DeletedCellComesBack` | kvstore/checkpointing.cc:185-188 | a run from a fresh primary with a PUT, its DELETE and a recovery that ends with a replica that has the deleted cell |
| `Recoveries.PutThenRecoverIff` | kvstore/dataserver.cc:393-411 | after one PUT a recovery brings the replica to the primary's table, for every way in which the log arrives, if and only if no line of the value is a lone dot and the record nowhere holds "LOG END" |
| `Recoveries.DamagingValues` | kvstore/dataserver.cc:393-411 | two values that the wire lets through, one with a lone-dot line and one with "LOG END", and the runs in which the recovered replica does not have them |
| `ShortLogs.DotLineShort` | kvstore/checkpointing.cc:145-157 | a record whose value has a lone-dot line gives no value of its length, whatever the rest of it is read as |
| `ShortLogs.CutShort` | kvstore/dataserver.cc:407-410 | nor does a record that was cut off, wherever that was |
| `Transfer.ReceiveText` | kvstore/dataserver.cc:375-411 | the receiving loop with the read loop inside it |
| `Transfer.MarkFound` | kvstore/dataserver.cc:388-391 | behind a text the end mark is found where it was put if and only if the text does not hold it |
| `Transfer.ArrivedIff` | kvstore/dataserver.cc:375-411 | a transferred text arrives whole, for every way of cutting it into reads, if and only if it does not hold the end mark and the reads fit the buffer and bring the whole mark at once; whatever else is received is the part before the first mark |
| `Transfer.GotIsWhole` | kvstore/dataserver.cc:375-411 | so without the mark in it nothing but the whole text is ever received |
| `Transfer.EndsIff` | kvstore/dataserver.cc:375-411 | receiving waits forever if and only if no piece holds the mark or is too long, and overruns its buffer if and only if the first of these is too long |
| `Transfer.OneLineIff` | kvstore/Connection.cc:19-38 | a text without a CRLF, such as a log of DELETEs, arrives whole, however the reads cut it, if and only if it fits the receive buffer with its mark and does not hold the mark |
| `CatchUp.CatchUpIff` | kvstore/Worker.cc:247-282 | local table, replayed log and queue catch up exactly, for every history whose log replays correctly, if and only if the log or the queue reaches back to the local table, or nothing is missing |
| `CatchUp.EmptiedLogCatchUpIff` | kvstore/checkpointing.cc:62-66 | with a log emptied by a checkpoint the catch-up is exact for every history if and only if local table or queue reach that checkpoint |
| `CatchUp.LogCatchesUp` | kvstore/dataserver.cc:325-332 | from a checkpoint no older than the primary's and any replay of updates of the right cells and kinds on top of it, the primary's log restores its table, although the own log lost line feeds and erased wrong cells |
| `CatchUp.OwnLogCatchUpIff` | kvstore/Worker.cc:400-413 | for a replica that restores from its own log the version test is not enough: the catch-up is exact for every history if and only if log or queue reach back to its own checkpoint |
| `CatchUp.UnmarkedCatchUpIff` | kvstore/dataserver.cc:333-349 | without a queue the catch-up is exact for every history if and only if no update comes between log transfer and READY and the log reaches back to the local table |
| `CatchUp.RecoveryIsReadSwapped` | kvstore/Worker.cc:247-262 | the request is read with address and number swapped |
| `CatchUp.RecoveryMarksNobody` | kvstore/dataserver.cc:295-305 | so it marks no replica as recovering, unless an address is spelled like the number |
| `CatchUp.LocalCell` | kvstore/dataserver.cc:307-315 | what a replica restores from its own files is right for every cell that the primary's log does not name |
| `Wire.ReadToTerm` | kvstore/Worker.cc:309-326 | the read loop stops with the same end mark position as in the whole stream, however the stream is cut |
| `Wire.FrameEnd` | kvstore/Worker.cc:328-349 | the end mark is found right after the value if and only if the value has no lone-dot line |
| `Wire.PutRoundTripIff` | kvstore/Worker.cc:328-349 | the stored value is the client's value and a CRLF if and only if the value has no lone-dot line, whatever follows the frame |
| `Wire.LeftoverIff` | kvstore/Worker.cc:371-380 | pipelined bytes after a frame are kept if and only if there are none; otherwise the first is lost |
| `Pushes.Serve` | kvstore/Worker.cc:98-208 | the worker's loop over reads and commands |
| `Pushes.NumberlessEnds` | kvstore/Worker.cc:463-495 | a DELETE whose body starts with no number ends the worker, whatever follows |
| `Pushes.StartsIff` | kvstore/Worker.cc:637-657 | a line starts with a verb if and only if it does so letter by letter, in either case |
| `Pushes.ReadBody` | kvstore/Worker.cc:309-326 | the read loop of a body, whose calls wait for the end mark of a value whatever they are for |
| `Pushes.CarriedIff` | kvstore/Worker.cc:98-208 | pushed commands in one stream, cut into reads in any way, are all carried out, in order and as pushed, if and only if the reads carry them through: no read goes past the end of a PUT, none ends inside a line it did not begin with, and every end mark waited for is seen whole |
| `Pushes.PutsEndReads` | kvstore/Worker.cc:371-380 | if all are carried out, a read ends exactly where each PUT ends |
| `Pushes.AloneIff` | kvstore/Worker.cc:462-497 | a single command is carried out if and only if the read that brings its line brings all of it, or, for a PUT, no part of the end mark |
| `Pushes.ApartCarried` | kvstore/backStore.cc:61-114 | commands that are read one by one in this way are all carried out |
| `Pushes.BurstLoses` | kvstore/backStore.cc:140-145 | of two commands in one read, the first a PUT, only the first is carried out: the second has lost its first character |
| `Wire.PushRoundTrip` | kvstore/backStore.cc:61-65 | a pushed value arrives at the replica as stored, with its number |
| `Wire.PushArrives` | kvstore/Worker.cc:621-669 | a whole pushed command, cut into its line and the rest, gives the replica the keys, the number and the value |
| `Wire.KeysRoundTrip` | kvstore/Worker.cc:659-669 | row and column come back from the command line |
| `Wire.CPutRoundTrip` | kvstore/Worker.cc:522-560 | both values of a CPUT reach the comparison unchanged |
| `GetReply.ReadGetData` | storage/Storage.cc:148-185 | the read loop decides as `Decide` does on each prefix that has arrived |
| `GetReply.GetExactIff` | storage/Storage.cc:148-185 | a stored value comes back for every way of cutting the reply if and only if the reply holds no error marker (or is the second one itself) |
| `GetReply.CutAfterMarker` | storage/Storage.cc:177-183 | the counterexample: cut right after the marker, a value is taken for a missing cell |
| `GetReply.ClosedIsCrash` | storage/Storage.cc:148-165 | a connection closed before anything was decided counts as a crash |
| `Hex.ConvertBinaryToStr` | storage/fileHandler.cc:15-36 | two digits per byte |
| `Hex.ConvertStrToBinary` | storage/fileHandler.cc:39-52 | one byte per two characters, the number they spell |
| `Hex.DigitIff` | storage/fileHandler.cc:45-48 | the digits of either case, and only they, have their values |
| `Hex.PairIs` | storage/fileHandler.cc:45-48 | a pair spells both digits, the first alone, or 0 |
| `Hex.EncodedIsPlain` | storage/fileHandler.cc:15-36 | encoded files have no lone-dot line and no error marker |
| `Hex.UploadDownload` | storage/Storage.cc:509-515 | the bytes of a non-empty file come back after encoding, PUT, GET in any pieces and decoding |
| `Text.Find` | kvstore/checkpointing.cc:212-217 | the answer is the first occurrence, and there is none exactly if the answer is npos |
| `Text.RFind` | kvstore/checkpointing.cc:208-211 | the answer is the last occurrence |
| `Text.StolDigits` | kvstore/checkpointing.cc:215-220 | a printed number is read back whatever non-digit follows |
| `Text.StolIff` | kvstore/checkpointing.cc:215-220 | a number is found if and only if the text starts with a digit |
| `Text.SliceIsSubstr` | kvstore/checkpointing.cc:116-128 | a piece of text is what `substr` cuts out with its unsigned count |
| `Optimistic.StepKeeps` | kvstore/Worker.cc:570-616 | every GET, CPUT and outside write keeps: a session's refusals are covered by others' changes it has noticed, and every change is some session's edit of the text it replaced |
| `Optimistic.RefusedBecauseChanged` | storage/Storage.cc:273-295 | a refused CPUT means someone else changed the cell since this session's GET |
| `Optimistic.FailuresCharged` | storage/Storage.cc:315-337 | in every run a session is refused at most as often as others changed the cell |
| `Optimistic.RetriesBounded` | webmail/server.cc:347-369 | among n sessions nobody is refused n times |
| `Optimistic.FailuresAreRefusals` | storage/Storage.cc:273-295 | the refusals charged to a session are exactly its CPUTs that changed nothing |
| `Optimistic.OneRound` | storage/Storage.cc:273-295 | a session left alone for one GET and CPUT has written its edit of what the cell holds, or given up because there is none |
| `Optimistic.Progress` | webmail/server.cc:347-369 | from wherever a run has come, a session left alone for three commands has succeeded, or gives up because its edit has no answer |
| `Optimistic.GaveUpWithoutAnswer` | storage/Storage.cc:315-337 | in every run a session gives up only if its edit had no answer for some content the cell had |
| `Optimistic.NoLostUpdate` | storage/Storage.cc:273-295 | in every run the final text is what the successful edits give one after the other, each exactly once |
| `Optimistic.EveryContentIsSerial` | storage/Storage.cc:273-295 | the same at every moment of the run |
| `Optimistic.RunStands` | storage/Storage.cc:262-339 | if edits of texts stand for operations on what the texts describe, the text is at every moment that of what the successful operations make |
| `Optimistic.RegisterOnceIff` | storage/Storage.cc:421-437 | of several clients registering one name at most one succeeds in every run if and only if nobody's password is "NULL" |
| `Listing.ParseStringToClass` | storage/Storage.cc:29-55 | the field loop, "three bars in a row" matching twice included |
| `Listing.EntryRoundTripIff` | storage/Storage.cc:29-55 | an entry without bars in its fields is read back if and only if name and time are not empty |
| `Listing.ParseContentFileNames` | storage/Storage.cc:357-373 | the lines of a text; what follows the last line feed is dropped |
| `Listing.ListingRoundTrip` | storage/Storage.cc:357-373 | every line of a listing is read back as its entry |
| `Directory.EditMeans` | storage/Storage.cc:262-339 | on the text of a directory an edit does to the text what the operation does to the entries; an addition gives up if and only if the name is taken, a removal if and only if there are no entries |
| `Directory.DirectoryRefines` | storage/Storage.cc:262-339 | in every run of any number of sessions the directory is at every moment the text of what the successful operations make of its entries, with distinct names |
| `Directory.LeavesOnlyByRemoval` | storage/Storage.cc:299-339 | an entry leaves only by a removal of its id |
| `Directory.AddedExactlyOnce` | storage/Storage.cc:262-296 | a successful addition found its name free and its entry is there exactly once until its id is removed |
| `Directory.IdsStayDistinct` | storage/Storage.cc:394-406 | with fresh ids, ids stay distinct |
| `Directory.RemovedIsGone` | storage/Storage.cc:299-339 | when a removal has succeeded, exactly the entries with other ids are left |
| `Directory.GivesUpForReason` | storage/Storage.cc:315-337 | in every run an addition gives up only if its name was taken at some moment, a removal only if the directory was empty |
| `Directory.RemovalGoesOn` | storage/Storage.cc:315-337 | so a removal never gives up while there are entries |
| `Store.Remote.CPut` | storage/Storage.cc:241-260 | accepted if and only if the cell, after the others' writes, matches the expected text |
| `Store.Remote.Get` | storage/Storage.cc:208-222 | the reply, with the text of a missing cell |
| `Move.SendAdd` | storage/Storage.cc:262-296 | the retry loop under interference: on success the entry is appended to what the others left and the name was free; every further refusal costs the others a change; the loop ends |
| `Move.SendDelete` | storage/Storage.cc:299-339 | the same for removal, with the flag that tells whether the id was found |
| `Move.Filter` | storage/Storage.cc:302-313 | the kept lines, and whether the id was among them |
| `Move.RecoverOldPath` | storage/Storage.cc:788-816 | puts the entry back at the end of its directory |
| `Move.MoveFile` | storage/Storage.cc:819-889 | succeeds if and only if the entry is there, the target exists without an error marker and the name is free; otherwise the target is untouched and the entry is back |
| `Move.MoveConserves` | storage/Storage.cc:819-889 | whether the move goes through or not, the entries of both directories together are the same and the moved one is in exactly one of them |
| `MailList.EraseMeans` | webmail/server.cc:358-364 | find and erase take out exactly the line of the hash |
| `MailList.EraseIs` | webmail/server.cc:358-364 | `erase` with its unsigned count |
| `MailList.DeliverMeans` | webmail/server.cc:358-366 | on a list of hashes a delivery is move-to-front, and keeps distinct hashes distinct |
| `MailList.UpdateHash` | webmail/client.cc:198-213 | the line loop, up to the empty line it cannot handle |
| `MailList.FilterMeans` | webmail/client.cc:198-213 | on a list of hashes it is a filter that keeps the mark |
| `MailList.MailListRefines` | webmail/server.cc:347-369 | in every run of deliveries and removals the list is at every moment the text of distinct hashes with the mark at the end, as the successful operations made it |
| `MailList.LeavesOnlyByRemoval` | webmail/client.cc:168-189 | a hash leaves a list only by a removal that names it |
| `MailList.DoneAtOnce` | webmail/server.cc:358-366 | when a delivery has succeeded its hash is the first and all others are still there; when a removal has, exactly the named ones are gone |
| `MailList.GivesUpForReason` | webmail/client.cc:168-189 | no delivery gives up, and a removal only when nothing but the mark would be left |
| `MailList.AppendHash` | webmail/server.cc:396-417 | the delivery loop under interference ends with its hash on top of what the others left, refused at most once per change by others; a missing list becomes the hash and the mark |
| `Buffer.ClearBuffer` | webmail/utils.cc:148-159 | in place: the unread tail, then zeros, and nothing behind the old end changes, although source and target overlap |
| `Buffer.Receive` | webmail/utils.cc:78-78 | a piece arrives behind the unread text |
| `Buffer.TakeLines` | webmail/utils.cc:80-110 | the line loop on the buffer does what `Drain` says, and the buffer holds the rest |
| `Buffer.DoRead` | webmail/utils.cc:66-121 | the whole read on an array gives what `ReadAll` gives on texts |
| `ReadReply.ReplyReadExactly` | webmail/utils.cc:66-121 | a stored value comes back exactly for those ways of cutting the reply in which each piece fits the buffer behind what follows the last line end |
| `ReadReply.ShortFits` | webmail/utils.cc:78-78 | a reply shorter than the buffer always fits |
| `ReadReply.LoneDot` | webmail/utils.cc:85-91 | the end is taken for the end only at the end of the value |
| `ReadReply.DrainData` | webmail/utils.cc:80-110 | draining takes whole lines of the value |
| `ReadReply.LineReplyIff` | webmail/utils.cc:95-110 | a single line is returned as the reply, however it is cut, if and only if it starts with "-ERR", "+OK" or "SERVER" in any case; after any other line the reader waits |
| `Buffer.AnyCase` | webmail/utils.cc:93-110 | two texts agree up to case if and only if they agree character by character or in upper case |
| `Smtp.ParseMailbox` | webmail/server.cc:478-489 | the text between the brackets, or that the scan or the copy runs out of bounds |
| `Smtp.MailboxIs` | webmail/server.cc:478-489 | the mailbox is the text between the first bracket and the next one that closes it, if it fits |
| `Smtp.NoMailbox` | webmail/server.cc:478-489 | without both brackets there is none |
| `Smtp.LocalIff` | webmail/server.cc:276-284 | a mailbox is local if and only if what follows its last "@" starts with "localhost" |
| `Smtp.TitleThrowsIff` | webmail/server.cc:329-334 | cutting out the title throws if and only if its position is behind the end |
| `Smtp.ActEffect` | webmail/server.cc:246-469 | what each command does to the session: its state, sender, recipients, text and deliveries, verb by verb |
| `Smtp.SmtpSession.HandleHelo` | webmail/server.cc:246-258 | HELO takes effect before MAIL only; a bare verb is answered twice |
| `Smtp.SmtpSession.HandleFrom` | webmail/server.cc:260-287 | MAIL takes effect only in state 1 and for a local sender; a wrong keyword is answered but goes on; a mailbox without "@" ends the program |
| `Smtp.SmtpSession.HandleTo` | webmail/server.cc:289-309 | RCPT adds a recipient in states 2 and 3 only |
| `Smtp.SmtpSession.HandleData` | webmail/server.cc:311-455 | DATA starts, a line is added, or the dot delivers sender, recipients and text and clears them |
| `Smtp.SmtpSession.HandleRset` | webmail/server.cc:457-469 | RSET clears everything, except before HELO |
| `Smtp.SmtpSession.HandleCommand` | webmail/server.cc:184-226 | one round of the command loop is one step of the session |
| `SmtpRuns.SessionsSettle` | webmail/server.cc:159-226 | after every sequence of commands: nothing is held in states 0, 1 and 5, only a sender in 2, sender and recipients in 3 and 4, text only in 4, where no line is run as a command |
| `SmtpRuns.DeliveriesAreTransactions` | webmail/server.cc:246-322 | every delivery was entered as HELO or RSET, MAIL, RCPTs, DATA, lines and dot with nothing in between, and has their sender, recipients and text; one delivery per dot |
| `SmtpRuns.ActReaches` | webmail/server.cc:193-222 | what each state says about the commands so far |
| `MailPath.SendLines` | webmail/client.cc:54-64 | the requests are single lines and together the message up to its last line end |
| `MailPath.SendMessage` | webmail/client.cc:54-69 | with the final dot the requests are the pieces of the message's data part |
| `MailPath.MessageCollected` | webmail/server.cc:311-319 | a message is delivered as written, with the session's sender and recipients, for those ways of cutting it in which each piece fits the buffer |
| `MailPath.HeaderEnd` | webmail/client.cc:135-138 | where the header of a stored mail is taken to end |
| `MailPath.HashComesBackIff` | webmail/client.cc:131-149 | the recomputed hash is that of the message, for every hash function, if and only if the header is a single line; then header and text come back |
| `MailPath.TitleIff` | webmail/server.cc:329-334 | the title is on one line if and only if there is a subject, or the first line has eight characters, or nothing is left to take a line end from |
| `MailPath.HeaderOneLine` | webmail/server.cc:381-385 | with plain fields, the header is one line exactly if the title is |
| `MailPath.MailEndToEnd` | webmail/server.cc:311-422 | a clean message, cut anywhere, is delivered, stored, read back and taken apart into its header, its text and the hash it was stored under; the header read back holds the server, the sender, the recipient, the subject the message was written with and the time |
| `MailPath.TitleIs` | webmail/server.cc:329-334 | the title is what follows "Subject: " on its line |
| `MailPath.TitleWithout` | webmail/server.cc:329-334 | without a subject it is the first line without its first eight characters |
| `MailPath.HeaderShownIff` | frontendServer/response.cc:1742-1753 | the fields of a header are shown as they were written if and only if the title has no bar |
| `MailPath.HeaderParts` | webmail/server.cc:381-385 | with plain fields, the bars of a header separate the word "Header", the server, the sender, the recipient, the title and the time, in this order |
| `MailPath.NothingServed` | webmail/server.cc:184-226 | after QUIT nothing more is taken from the buffer; before, each command takes its line |
| `MailPath.ExtractIff` | webmail/client.cc:131-149 | a reply is taken apart if and only if it holds the word "Header "; if its line does not end, the text starts behind the first line end of the reply or at its second character |
| `Election.StepKeeps` | kvstore/master/master.h:57-113 | every step keeps: a live primary is the server the master records and is connected to |
| `Election.PrimaryIsConnected` | kvstore/master/master.h:57-97 | a live primary is the server recorded and connected, at every moment of every run in which no candidate restarts during its own promotion |
| `Election.AtMostOnePrimary` | kvstore/master/master.h:57-97 | at most one live primary per node, at every moment of every run in which only the first server of the list ever restarts during its own promotion |
| `Election.CandidateRestartIff` | kvstore/master/master.h:79-113 | the condition is exact: at any moment of such a run, the restart of a dead candidate leaves all further careful runs with at most one live primary if and only if it is the first server |
| `Election.TwoPrimariesFromStart` | kvstore/master/master.h:79-113 | a run from the start, with the first of two servers down, that ends with two live primaries |
| `Election.SoleKeeps` | kvstore/master/master.h:57-113 | every careful step keeps: a live primary is recorded and connected, or is the first server |
| `Election.Node.MulticastNodes` | kvstore/master/master.h:99-119 | only the first server that can be connected to is told |
| `Election.Node.PromoteNewPrimary` | kvstore/master/master.h:79-97 | afterwards a primary is recorded and connected if and only if some server is up |
| `Election.Node.Heartbeat` | kvstore/master/master.h:57-77 | a promotion starts only without a primary or on a broken connection |
| `Placement.Master.constructor` | kvstore/master/master.cc:162-194 | nodes start without rows |
| `Placement.Master.ParseWhere` | kvstore/master/masterWorker.cc:204-255 | a known row stays, a new one goes to a node with the fewest rows; the reply names that node |
| `Placement.WhereKeeps` | kvstore/master/masterWorker.cc:204-255 | every request keeps the counts right, the loads within one of each other, and all earlier placements |
| `Placement.Sticky` | kvstore/master/masterWorker.cc:204-255 | a row never moves |
| `Placement.EvenlyPlaced` | kvstore/master/masterWorker.cc:212-225 | after any requests each node has floor or ceiling of R/n rows, which is the number of rows mapped to it |
| `Balancer.LoadBalancer.Pick` | frontendServer/load_balancer.cc:120-152 | the deque scan picks the first running server and puts it last, or finds none and leaves the order as it was |
| `Balancer.LoadBalancer.SetRunning` | frontendServer/load_balancer.cc:229-239 | one flag changes |
| `Balancer.StaysRotation` | frontendServer/load_balancer.cc:120-152 | after any run the deque is a rotation of the original |
| `Balancer.NoneIff` | frontendServer/load_balancer.cc:133-144 | a request is turned away if and only if no server is up |
| `Balancer.NobodyStarves` | frontendServer/load_balancer.cc:120-152 | a server that stays up is picked within as many requests as there are servers |

## Left out

- Cluster.RunningReplicasAgree: a recovery names the right replica, is the only one, starts (when told to use local files) from a checkpoint no older than the primary's, and gets files whose values can be stored, whose DELETEs replay and which do not hold the words that end a transfer; what happens without each of these is `CatchUp.RecoveryMarksNobody`, `Recoveries.TwoRecoveriesIff`, `CatchUp.OwnLogCatchUpIff`, `Recoveries.PutThenRecoverIff` and `Recoveries.DeletedCellComesBack`. Each pushed command has keys and a value that the wire lets through and is read by itself, in reads that carry it (`Pushes.AloneIff`); which other streams and reads are carried is `Pushes.CarriedIff`, and the queue that `reconnect` writes at once is often not among them (`Pushes.BurstLoses`).
- Cluster.RunKeeps: a PUT that looks up a missing cell by its row (`Node.MissingCell`) ends the primary after the record is written and before the push; the cluster's runs end there, and so do those in which the primary stops for another reason, is restarted or replaced.
- Cluster.StepKeeps: a command is logged, applied and pushed in one step; the code pushes after it has released the map lock (kvstore/Worker.cc:365-368), and a CPUT on a missing cell tests before it locks (kvstore/Worker.cc:570-575).
- Node.DataServer.ParseDelete: a replica does not raise its number on DELETE (kvstore/Worker.cc:495), so the claim that log numbers are consecutive is made only for a primary that was never a replica.
- Store.Remote.Get: the whole reply is read at once; a content that holds an error marker and is cut right behind it reads as missing, which is `GetReply.GetExactIff`.
- Transfer.ArrivedIff: what `strstr` finds behind a buffer that a read has filled to its end is not followed; such a transfer counts as overrun.
- Pushes.CarriedIff: the replica's buffer of four million characters never fills, and what a worker does from the first line on that is no pushed command is not followed.
- Directory.DirectoryRefines: renames are not among the operations, and lines that do not parse, on which the code follows a bad pointer, do not occur in the directories it speaks about.
- Move.MoveFile: nobody else writes to the two directories meanwhile; with other writers a name that is taken on a retry leaves an empty reply, which the move takes for success (storage/Storage.cc:288, storage/Storage.cc:867), and `Move.SendAdd` states exactly that reply.
- MailList.MailListRefines: the unconditional PUT that starts a missing list and the unconditional DELETE of a list with nothing but its mark are outside the run; `MailList.AppendHash` includes the former.
- MailPath.MailEndToEnd: the hash is any function on texts; the clock and the master's answer are parameters; sender, recipient and server names hold no CR.
- Balancer.NobodyStarves: the watching thread sets all flags between two requests rather than one at a time.
- Election.AtMostOnePrimary: a connection breaks only when its server crashes; partitions are not modelled.
- A data server started without its recovery flag deletes its log before serving (kvstore/dataserver.cc:140); `Node.DataServer.Restart` is the start with the flag.
- Reconnecting after a server crash in the file client (storage/Storage.cc:228-237), which sends again after its own retry.
- `update_backend` on a missing list, which sends CPUTs that can never be accepted (webmail/client.cc:169-187); the lists of `MailList` runs are there.
- Hex.PairIs: a blank or a sign in the first place of a pair, which the stream would skip or apply (storage/fileHandler.cc:45-47), counts as no digit; encoded texts have neither.
- Decoding an empty hexadecimal text, where the loop bound underflows (storage/fileHandler.cc:44).
- Renaming files and walking folders (storage/Storage.cc:532-773), which add no new protocol.
- Mail relay (webmail/deliver.cc), which adds a CR to every line on each pass.
- The uninitialised receive buffer of the SMTP server (webmail/server.cc:169): it is taken to start with zeros, as the other reader's does.
- Sockets, threads, signals, DNS, MD5, HTTP and HTML: pieces of input, steps and parameters stand for them.
