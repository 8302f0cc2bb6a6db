# Verified model of the Fachpraktikum programs

A Dafny model of six programs of this repository, with proofs of what they are for:

- **Barbershop** (`Shop*.dfy`): any number of barbers and customers over eight semaphores, as a step
  system. Proved for every schedule: capacity bounds, the chair bound that no semaphore counts, the
  conservation chain from announcements to payments, deadlock freedom, the exact run length 16N + M, and
  that every reachable state can still be brought to closing time.
- **tikfs** (`Files.dfy`, `TikFormat.dfy`, `TikTable.dfy`, `TikFlush.dfy`, `TikFlushTheorem.dfy`,
  `TikOps.dfy`, `Tikfs.dfy`): the byte format, mounting, the copy-on-write table, and the flush with its
  in-place branch and its truncate-and-re-emit branch. Proved: one reading of the format, exactly when a
  flush is right, and that every run of reads, writes, flushes and remounts behaves like a plain list of
  byte strings.
- **tikdb** (`Tikdb.dfy`): the same file as a key-value store; adding, looking up, and agreement with tikfs.
- **Chat server** (`ChatCommon.dfy`, `ChatQueue.dfy`, `ChatServer.dfy`, `ChatRuns.dfy`): descriptor set,
  aliases, private messages and output buffers over every run of events.
- **Shared-memory handshake** (`Handshake.dfy`): producer and consumer, load by load and store by store.
- **Morse LED** (`Morse.dfy`): the waveform of a message and its unique decodability.

Programs that update state in place are classes (`Shop.Shop`, `Tikfs.Tikfs`, `Files.OpenFile`,
`ChatQueue.ClientQueue`, `ChatRuns.EventSet`, `Handshake.Page`, `Morse.Driver`). Each method's contract
equates the new state with a function of the old one, and the theorems are about those functions.

## Where the code does not do what it is for

- `tikfs` opens the disc with `O_APPEND` (`5_filesys/tikfs.c:434`), so the "in place" write at lines
  340-342 lands at the end of the file. `OpenFile` models both ways of opening. `FlushExactly` gives the
  exact condition for either; `AppendFails` is a one-byte example of the failure. Without `O_APPEND` the
  only condition left is that every changed file fits the 32-bit length field.
- `server_process_private` with an empty name (`@ text`) takes the first other client that has an alias
  and then the length of a null pointer; `NullMessageExactly` says exactly when, and
  `NullMessageReached` and `NullMessageOnce` give runs of the server that get there.
- A data value equal to SIGNAL is lost by the handshake under some schedule; `DeliversExactly` is the
  if-and-only-if.
- The handshake leaves open who moves first. If the consumer loads before the first store, the step
  after that load decides (`EarlyLoad`): either the producer stores, and the acknowledgement of the stale
  value overwrites the first one; or the consumer acknowledges, and from then on every value arrives one
  place late, the last one never arrives, and the producer polls for ever. `EarlyLoadShifts` drives any
  data without SIGNAL into that end. Loading first is harmless if and only if the data only repeat what the cell held
  before (`EarlyLoadDelivers`); `DeliversUnordered` is the condition for all orders together.
- `tikdb add db key ""` writes a record that `tikfs` refuses, and with it the whole file; `TikfsAgrees`
  and `MountsNonEmpty` give the exact condition for a mount.
- A disc cut off inside its last payload mounts in `tikfs` all the same: the last file keeps its size, its
  reads come up short, and a write to it answers EIO (`CutOffOps`). `tikdb get` takes a header cut off
  before its length for an empty value (`GetFromCutHeader`).
- Where texts and code differ the code is modelled: the alias limit is 15 although a reply says 32
  (`6_network/server.c:26` and `:172`); the Morse gaps are slept in milliseconds although the comments say
  microseconds; the full stop's code is 0x16 although its comment spells another one
  (`4_driver/kernel_morse.c:29`).

## Model

| member | source | states |
|---|---|---|
| ShopInvariant.AlwaysBalanced | 2_threads/barbershop.c:81-147 | after every schedule each semaphore is its initial value plus completed posts minus completed waits, and the threads' calls add up to the completed moves |
| ShopInvariant.StepBalanced | 2_threads/barbershop.c:81-147 | one completed call of any thread keeps all eight balance equations |
| ShopInvariant.InitBalanced | 2_threads/barbershop.c:163-171 | the initial semaphore values satisfy the balance |
| ShopTheorems.CapacitySafety | 2_threads/barbershop.c:96-147 | never more than `customers_shop_max` in the shop, the sofa's size on the sofa, one barber at the desk |
| ShopTheorems.ChairBound | 2_threads/barbershop.c:83-142 | at most one customer per barber is between being called and posting payment, although nothing counts chairs |
| ShopTheorems.ConservationChain | 2_threads/barbershop.c:87-143 | collected <= posted <= cut <= begun <= announced, and at most one customer released ahead of a collected payment |
| ShopTheorems.CustomerGoesOn | 2_threads/barbershop.c:120-147 | after every schedule a customer gets in exactly when fewer than `customers_shop_max` are inside, sits down exactly when the sofa has a place, and passes each other wait exactly when the counts of completed calls allow it |
| ShopTheorems.BarberGoesOn | 2_threads/barbershop.c:83-104 | after every schedule a barber gets to the cash desk exactly when no barber is at it, and passes each other wait exactly when the counts of completed calls allow it |
| ShopTheorems.StuckBarbers | 2_threads/barbershop.c:81-147 | when no thread can move no barber is past a haircut, all wait for customers |
| ShopTheorems.StuckServed | 2_threads/barbershop.c:81-147 | when no thread can move every tally says all customers are through, and only `cut_barber_ready` differs from the start, by the number of barbers |
| ShopTheorems.DeadlockFree | 2_threads/barbershop.c:81-147 | for any N, and M, shop and sofa of at least 1: while a customer is unfinished some thread can complete a call |
| ShopTheorems.MovesBounded | 2_threads/barbershop.c:81-147 | no schedule completes more than 16N + M calls |
| ShopTheorems.ExactTermination | 2_threads/barbershop.c:81-147 | a run is maximal if and only if it has completed exactly 16N + M calls; then all customers are done, all barbers wait at line 87, and the semaphores are as stated |
| ShopTheorems.CanAlwaysClose | 2_threads/barbershop.c:81-147 | from every reachable state some continuation ends with everybody served |
| Shop.Shop.constructor | 2_threads/barbershop.c:156-195 | the created shop is the initial state of the step system |
| Shop.Shop.BarberMain | 2_threads/barbershop.c:81-105 | which semaphore each barber call changes, by one, and that a wait completes exactly when its semaphore is positive |
| Shop.Shop.CustomerMain | 2_threads/barbershop.c:120-147 | which semaphore each customer call changes, by one, and that a wait or `sem_trywait` completes exactly when its semaphore is positive |
| Shop.Shop.RunBarber | 2_threads/barbershop.c:71-109 | the object stays in the state its schedule leads to; says whether the call completed |
| Shop.Shop.RunCustomer | 2_threads/barbershop.c:111-154 | as for barbers; a failed `sem_trywait` changes nothing |
| Files.OpenFile.Write | 5_filesys/tikfs.c:434 | a write goes to the position, or to the end when opened for appending |
| Files.ReadAtBytes | 5_filesys/tikfs.c:128-129 | what a read returns, byte by byte |
| Files.WriteAtBytes | 5_filesys/tikfs.c:340-342 | what a write leaves, byte by byte, at the position or at the end |
| TikFormat.HeaderRoundTrip | 5_filesys/tikfs.h:26-31 | encoding a record header and decoding it are inverse both ways |
| TikFormat.HeaderLayout | 5_filesys/tikfs.h:26-31 | which bytes of a data header hold the key, the two times and the length, low byte first |
| TikFormat.HeaderVerdicts | 5_filesys/tikdb.c:41-55 | which header error applies, by the bytes of the file |
| TikFormat.OnlyCreatedHeader | 5_filesys/tikdb.c:18-55 | the header checks accept a file if and only if it begins with what `__create_db` writes |
| TikFormat.RecordAt | 5_filesys/tikdb.c:62-91 | where the i-th record's header and payload stand in the packed bytes |
| TikTable.MountImage | 5_filesys/tikfs.c:221-254 | mounting packed non-empty records succeeds and finds exactly them, with their offsets |
| TikTable.MountsExactly | 5_filesys/tikfs.c:221-258 | a file mounts with its last payload whole if and only if it is a packed image of non-empty records, and then the table describes it exactly |
| TikTable.ExactIsImage | 5_filesys/tikfs.c:229-251 | an exactly laid disc is the packed image of its records, and mounting that image finds the same keys, lengths and offsets |
| TikTable.MountsNonEmpty | 5_filesys/tikfs.c:229-251 | a packed file mounts if and only if none of its records is empty |
| TikTable.MountCutPayload | 5_filesys/tikfs.c:229-251 | a file cut off inside its last payload mounts, and the last file keeps its full length |
| TikTable.MountCutHeader | 5_filesys/tikfs.c:229-235 | a file cut off inside its last header is refused |
| TikTable.Remount | 5_filesys/tikfs.c:221-254 | mounting again gives the table's keys, lengths and offsets, all clean |
| TikFlush.InPlaceLaid | 5_filesys/tikfs.c:338-349 | a same-length write keeps the layout and every other payload; its own payload is the new one, or with appending still the old one |
| TikFlush.RewriteSound | 5_filesys/tikfs.c:287-325 | with records 0..j-1 finished at the end of the disc and the later clean payloads in the temp file, the rewrite loop puts every file on disc with unchanged content and exact layout |
| TikFlushTheorem.FlushSound | 5_filesys/tikfs.c:335-392 | from any node on, the flush loop ends with every file unchanged, clean and exactly laid, whatever was appended before a rewrite |
| TikFlushTheorem.FlushKeeps | 5_filesys/tikfs.c:335-392 | a flush from node i on leaves earlier nodes and their stored payloads alone |
| TikFlushTheorem.FlushMeta | 5_filesys/tikfs.c:268-310 | in memory a flush changes of a node's key, times and length only the length |
| TikFlushTheorem.FlushStamps | 5_filesys/tikfs.c:268-325 | from the first resized file on, every header stands on disc with the key, the times and the length that memory has |
| TikFlushTheorem.AppendNecessary | 5_filesys/tikfs.c:335-392 | with appending, a flush that came out right was harmless: a resized node follows, and the same-length writes before it repeat what was on disc |
| TikFlushTheorem.FlushExactly | 5_filesys/tikfs.c:327-397 | the flush leaves all contents unchanged, all nodes clean and the disc exact if and only if the changed files fit 32 bits and, when appending, the in-place writes are harmless |
| TikFlushTheorem.AppendFails | 5_filesys/tikfs.c:338-350 | one byte changed in place on an `O_APPEND` disc: it lands behind the record and the old byte stays visible |
| TikOps.Find | 5_filesys/tikfs.c:43-50 | the first entry whose key begins with the name (over 32 bytes), or that there is none |
| TikOps.FileTypeOnBytes | 5_filesys/tikfs.c:36-52 | "/" and a name mean the first key that begins with the name's first 32 bytes, or nothing; "/" alone is the root |
| TikOps.ReadByName | 5_filesys/tikfs.c:54-139 | reading and sizing "/" and a name that begins a key |
| TikOps.WriteByName | 5_filesys/tikfs.c:149-188 | writing "/" and a name that begins a key |
| TikOps.OpsOnNothing | 5_filesys/tikfs.c:54-188 | the answers to a name that begins no key, and on the root |
| TikOps.OpsStamp | 5_filesys/tikfs.c:103-188 | a read stamps the reading time, a write the writing time, of one node, and a failed one changes nothing |
| TikOps.ShortFileOps | 5_filesys/tikfs.c:103-188 | a file whose payload the disc cuts off keeps its size, is read as far as it goes, and answers EIO to a write |
| TikOps.CutOffOps | 5_filesys/tikfs.c:103-251 | that is the last file of a disc cut off inside its last payload |
| TikOps.Splice | 5_filesys/tikfs.c:178-183 | a write ends the file where it ends; up to the old length it is `old[..offset] + buff`, beyond it the old bytes stay |
| TikOps.ReadRefines | 5_filesys/tikfs.c:103-139 | a read returns `content[offset..min(offset+size, len)]`, clean or dirty, or EINVAL, and changes no file |
| TikOps.WriteRefines | 5_filesys/tikfs.c:149-188 | a write replaces exactly one file's bytes, keeps the disc exact, and the short-read error cannot occur |
| TikOps.GetAttrRefines | 5_filesys/tikfs.c:54-92 | the reported size is the length of the visible content |
| TikOps.FlushRefines | 5_filesys/tikfs.c:327-397 | a permitted flush changes no file and leaves nothing dirty |
| TikOps.RemountRefines | 5_filesys/tikfs.c:446-464 | after a permitted flush the disc mounts with the same files in order, at the same offsets, all clean |
| TikOps.MountShows | 5_filesys/tikfs.c:221-254 | a mounted image shows each record's key and payload, all clean |
| TikOps.RunRefines | 5_filesys/tikfs.c:54-188 | every run of reads, writes, stats, flushes and remounts, up to the write that ends the process if there is one, gives the replies and files of a plain list of byte strings |
| TikOps.PositionalRunsPermitted | 5_filesys/tikfs.c:327-397 | without appending, a run whose writes end below 4 GiB meets every flush condition: it can be made if and only if only its last reply can be the exit |
| Tikfs.Tikfs.BuildCache | 5_filesys/tikfs.c:221-258 | the reading loop succeeds exactly when the file mounts, with that table |
| Tikfs.Tikfs.LookUp | 5_filesys/tikfs.c:36-52 | the loop finds the first matching entry, the root, or nothing |
| Tikfs.Tikfs.ReadAtPath | 5_filesys/tikfs.c:103-139 | seeks and reads or copies from the buffer; reply and new state are those of the specified read |
| Tikfs.Tikfs.WriteAtPath | 5_filesys/tikfs.c:149-188 | first write copies the file in, then the buffer is resized and filled; reply and new state are those of the specified write |
| Tikfs.Tikfs.RewriteDirty | 5_filesys/tikfs.c:268-285 | appends header and buffer, cleans the node and points it at its payload |
| Tikfs.Tikfs.RewriteClean | 5_filesys/tikfs.c:287-310 | appends the header and the payload fetched from the temp file at `data - offshift` |
| Tikfs.Tikfs.RewriteTail | 5_filesys/tikfs.c:312-325 | the loop over both helpers is the specified rewrite, always at end of file |
| Tikfs.Tikfs.CopyTail | 5_filesys/tikfs.c:366-380 | block-wise copying for any block size saves exactly the tail |
| Tikfs.Tikfs.FlushDirtyNodes | 5_filesys/tikfs.c:327-397 | the whole in-place procedure computes the specified flush |
| Tikdb.Rebuild | 5_filesys/tikdb.c:57-107 | rewriting the file record by record gives the image of "replace the first record hit, else append" |
| Tikdb.AddKeyVal | 5_filesys/tikdb.c:109-147 | a foreign file is left alone; otherwise the file becomes the image of the updated records |
| Tikdb.GetKeyVal | 5_filesys/tikdb.c:149-181 | on any file, whole or cut off: the header check, then the answer of the specified search, or the panic over a value that is cut off |
| Tikdb.GetSearchesRecords | 5_filesys/tikdb.c:157-177 | whatever follows the whole records of a file, the payload of the first record whose key begins with the cut key is found, and the rest is looked at only when there is none |
| Tikdb.GetIsLookup | 5_filesys/tikdb.c:157-177 | on a database of whole records the search is the lookup that the add laws speak of |
| Tikdb.GetFromCutOff | 5_filesys/tikdb.c:159-163 | with the last payload cut off, the panic comes exactly for keys that hit this record and none before it |
| Tikdb.GetFromCutHeader | 5_filesys/tikdb.c:157-177 | with the last header cut off behind other records, a key that begins the stump completed with zeros is answered with an empty value |
| Tikdb.CheckDbHdr | 5_filesys/tikdb.c:41-55 | which of the header errors applies |
| Tikdb.FirstHit | 5_filesys/tikdb.c:64-66 | the first record hit, or that none is |
| Tikdb.GetAfterAdd | 5_filesys/tikdb.c:57-177 | get after add gives the value, for keys of any length |
| Tikdb.LookupAfterAdd | 5_filesys/tikdb.c:57-177 | what a lookup of any other key gives after an add, in all cases |
| Tikdb.AddKeepsOthers | 5_filesys/tikdb.c:57-177 | a lookup is unchanged when its cut key begins neither the new key nor the overwritten record's key |
| Tikdb.AddTwice | 5_filesys/tikdb.c:57-107 | adding the same pair again changes nothing |
| Tikdb.StoredKey | 5_filesys/tikdb.c:94-95 | the first 31 bytes of a key are stored, and zeros behind them |
| Tikdb.AddedRecord | 5_filesys/tikdb.c:62-103 | an add writes one record with the time of the add as both its times, and leaves all others as and where they are |
| Tikdb.LookupPlain | 5_filesys/tikdb.c:157-177 | a key of at most 31 bytes finds the first record whose key begins with it |
| Tikdb.AddKeepsPlain | 5_filesys/tikdb.c:57-177 | for keys of at most 31 bytes, an add changes no lookup of a key that begins neither the new key nor that of the record replaced |
| Tikdb.TwoKeys | 5_filesys/tikdb.c:57-177 | two keys added to an empty database make two records if and only if the second does not begin the first, each found with its value |
| Tikdb.SameBeginning | 5_filesys/tikdb.c:64-95 | keys with the same first 31 bytes are one key |
| Tikdb.TikfsAgrees | 5_filesys/tikfs.c:229-251 | what tikdb wrote mounts in tikfs if and only if neither the new value nor that of a record kept is empty, and then with tikdb's record boundaries |
| ChatCommon.FoldsAlike | 6_network/chat-common.c:44-62 | agreement up to case is agreement letter by letter, except that an upper-case letter may stand for its lower-case one |
| ChatCommon.Strnicmp | 6_network/chat-common.c:44-62 | zero if and only if the strings agree up to case over the given length |
| ChatCommon.Strlcat | 6_network/chat-common.c:65-80 | in place: the string becomes its old text and what fits of the source; nothing is touched when already too long |
| ChatCommon.TransferIsSum | 6_network/chat-common.c:82-95 | a transfer gets through what the positive write results before the first zero add up to, at most everything |
| ChatCommon.FailuresRetried | 6_network/chat-common.c:86-87 | failed writes are made again: without them the transfer is the same |
| ChatCommon.CompletesWithoutZero | 6_network/chat-common.c:82-95 | without a zero result everything gets through |
| ChatCommon.WriteExact | 6_network/chat-common.c:82-95 | despite partial and failed writes exactly the prefix that the positive results before the first zero add up to is sent, and the count is the whole length or zero |
| ChatQueue.QueueIsConcat | 6_network/server.c:144-152 | the queue is its old text and the kept fragments, whole and in order |
| ChatQueue.KeptWhole | 6_network/server.c:144-152 | nothing is dropped while everything fits |
| ChatQueue.WireReadsBack | 6_network/server.c:131-135 | a receiver sees the queued text without one trailing newline |
| ChatQueue.WireIsPieces | 6_network/server.c:122-152 | after any series of queue and flush calls the socket has got, flush by flush, the sealed concatenation of the fragments kept since the flush before: all of it while the client lives, else a beginning; and the queue holds the fragments kept since the last flush |
| ChatQueue.WireOfCalls | 6_network/server.c:122-152 | the same from the client's first moment on |
| ChatQueue.ClientQueue.Queue | 6_network/server.c:144-152 | keeps `out_used` the string length of `outbuff` and below `out_len`; the fragment is appended whole or not at all |
| ChatQueue.ClientQueue.Flush | 6_network/server.c:122-142 | what reaches the socket, that the queue is emptied, and that a cut-short transfer disconnects |
| ChatServer.RescanFinds | 6_network/server.c:96-103 | the rescan after removing the largest descriptor finds the largest that is left |
| ChatServer.DisconnectOk | 6_network/server.c:92-120 | a disconnect keeps the event set's invariant (right maximum, clients equal to registered descriptors, distinct aliases) and touches no other client |
| ChatServer.AcceptOk | 6_network/server.c:382-408 | so does accepting a fresh descriptor; the client is known by its address |
| ChatServer.FlushOk | 6_network/server.c:122-142 | so does a flush, which touches no other client |
| ChatServer.ScanComplete | 6_network/server.c:185-193 | the scan up to `max` finds the lowest other client whose alias the name begins, and misses none |
| ChatServer.LegalExactly | 6_network/server.c:26-27 | a legal alias has 1 to 15 of the 64 characters written out |
| ChatServer.GrantedExactly | 6_network/server.c:159-195 | an alias is granted if and only if the client has none, it is legal, and it begins no other client's alias |
| ChatServer.SetAliasOk | 6_network/server.c:195-196 | granting stores the alias as it was asked for and keeps all aliases distinct up to case |
| ChatServer.ParseLine | 6_network/server.c:315-321 | the name ends at the first space, the end of the line or after 15 characters, and the message is the rest; without a name there is none |
| ChatServer.ParseWhisper | 6_network/server.c:315-321 | `@alias`, alone or with a text after a space, parses to the alias and the text, for every legal alias including length 15 |
| ChatServer.WhisperTo | 6_network/server.c:309-349 | for every legal name, with or without a text: the lowest other client whose alias the name begins up to case, and the sender, get their copies as stated, and nobody else gets anything |
| ChatServer.WhisperUnknown | 6_network/server.c:332-336 | when the name begins no other alias only the sender hears of it |
| ChatServer.WhisperReaches | 6_network/server.c:309-349 | when the name is one client's alias up to case and begins no other alias, exactly the holder and the sender get the whole text |
| ChatRuns.NullMessageExactly | 6_network/server.c:315-342 | when the handler uses its null message pointer |
| ChatRuns.NullMessageReached | 6_network/server.c:315-342 | two connections, one alias and `@` or `@ text` from the other client get there, for any descriptors and any legal alias |
| ChatRuns.NullMessageOnce | 6_network/server.c:315-342 | one such run |
| ChatRuns.FlushIsTransfer | 6_network/server.c:134-141 | the event-level flush agrees with the byte-level one |
| ChatRuns.RunOk | 6_network/server.c:66-80 | every run of events keeps the invariant |
| ChatRuns.AliasesStayDistinct | 6_network/server.c:82-201 | after every run: `max` right, aliases legal and held by active clients, no two equal up to case |
| ChatRuns.AliasAnswered | 6_network/server.c:164-200 | the text an alias command is answered with, by the first reason that applies |
| ChatRuns.AliasCommand | 6_network/server.c:159-201 | what an alias command changes: the client's own alias, as asked for, exactly when it is granted |
| ChatRuns.DoKeepsNames | 6_network/server.c:203-210 | an event changes a client's address only by connecting it and its alias only by its own granted command |
| ChatRuns.GreetingText | 6_network/server.c:410-412 | the greeting as it reaches a new client |
| ChatRuns.RunQuiet | 6_network/server.c:66-80 | after every run no client has anything left in its queue |
| ChatRuns.WhisperInRun | 6_network/server.c:309-349 | after any run of the server, what `@name text` does for every legal name: not found if and only if it begins no other alias, else delivered to the lowest holder and to the sender only |
| ChatRuns.EventSet.UnregisterFd | 6_network/server.c:92-104 | the rescanning loop computes the specified maximum |
| ChatRuns.EventSet.DisconnectClient | 6_network/server.c:106-120 | keeps the invariant; the new state |
| ChatRuns.EventSet.AcceptClient | 6_network/server.c:382-415 | keeps the invariant; registered, greeted, flushed |
| ChatRuns.EventSet.FindAlias | 6_network/server.c:185-193 | the loop with `strnicmp` is the specified scan |
| ChatRuns.EventSet.ProcessAlias | 6_network/server.c:159-201 | verdict, reply and new state of an alias command |
| ChatRuns.EventSet.ProcessPrivate | 6_network/server.c:309-349 | parser, routing and both copies of a private message |
| Handshake.MovesAreProgress | 3_pageshm/producer.c:38-44 | on any data and under any schedule, the number of effective steps is the distance the two processes have come |
| Handshake.AlwaysInStep | 3_pageshm/producer.c:38-44 | once the producer stored first, every interleaving stays in one of the in-step situations |
| Handshake.Delivers | 3_pageshm/consumer.c:66-77 | values read are always a prefix of the data; a run stops if and only if both sides are done, after exactly 5n + 1 effective steps, with everything read and the end mark -5 in the cell |
| Handshake.DeliversExactly | 3_pageshm/producer.c:38-44 | all schedules deliver prefixes if and only if -4 is not among the data |
| Handshake.SignalLost | 3_pageshm/producer.c:41-42 | a schedule under which a SIGNAL value is lost |
| Handshake.EarlyLoad | 3_pageshm/consumer.c:66-77 | every run in which the consumer loads first: which values it can read, that it stops after exactly 5n + 1 or 5n - 1 effective steps, and where the producer then is |
| Handshake.CanStop | 3_pageshm/consumer.c:66-77 | every run on data without SIGNAL can be driven on until nothing can move |
| Handshake.EarlyLoadShifts | 3_pageshm/consumer.c:66-77 | for any data without SIGNAL a run that ends with every value one place late, the consumer done and the producer polling for ever |
| Handshake.EarlyLoadDelivers | 3_pageshm/consumer.c:66-77 | runs in which the consumer loads first deliver prefixes if and only if all data equal the cell's old content |
| Handshake.DeliversUnordered | 3_pageshm/producer.c:38-44 | all runs in any order, on any data, deliver prefixes if and only if all data equal the cell's old content and none is SIGNAL |
| Handshake.Page.RunProducer | 3_pageshm/producer.c:38-44 | one load or store of the producer |
| Handshake.Page.RunConsumer | 3_pageshm/consumer.c:66-77 | one load or store of the consumer |
| Morse.TableFits | 4_driver/kernel_morse.c:14-74 | every code fits its length |
| Morse.TableIsInjective | 4_driver/kernel_morse.c:14-74 | the coded characters have different code words |
| Morse.TableSpells | 4_driver/kernel_morse.c:14-74 | the emitted bits of every character are its dots and dashes written out; everything else, lower-case letters included, has none |
| Morse.MessageSpelt | 4_driver/kernel_morse.c:99-159 | the wave of a message by its dots and dashes and the times in milliseconds |
| Morse.BitsDetermine | 4_driver/kernel_morse.c:140-142 | the emitted bits determine length and code |
| Morse.PulsesDecode | 4_driver/kernel_morse.c:110-143 | a pulse train ended by a character gap can be read off any wave that begins with it |
| Morse.UniquelyDecodable | 4_driver/kernel_morse.c:99-159 | two messages of any lengths give the same LED wave if and only if they are equal after turning code-less characters into spaces |
| Morse.DecodableBySpelling | 4_driver/kernel_morse.c:99-159 | the same by the written-out codes: equal waves if and only if the characters have, one by one, the same codes or none |
| Morse.SentExactly | 4_driver/kernel_morse.c:99-159 | messages of coded characters and spaces give the same wave if and only if they are equal |
| Morse.UncodedIsDark | 4_driver/kernel_morse.c:99-108 | any other character is 2000 ms of darkness |
| Morse.Driver.MorseChar | 4_driver/kernel_morse.c:124-143 | the shifting loop shows the character's dots and dashes as written out, 250 and 1000 ms long |
| Morse.Driver.MorseHandle | 4_driver/kernel_morse.c:145-159 | the LED shows exactly the message's dots and dashes and ends on |

## Left out

- Barbershop: SIGQUIT shutdown, printing, sleeping, thread creation failures, and fairness of single waiters; no claim pairs a customer with one barber.
- tikfs: FUSE and system calls, locking, `tikfs_readdir`, `tikfs_truncate` (changes nothing), the check-then-set flags `flushing` and `rwing`, and failed or short system calls, which only log; operations run one after the other.
- tikfs: the table is a sequence; `xrealloc(table, table_len)` at `5_filesys/tikfs.c:249` passes slots where bytes are meant, so the model speaks for files of fewer than 1024 records.
- TikOps.GetAttrRefines: gives the size and whether it is the root; owner, mode, link count and times are not modelled.
- tikfs: `off_t` and `size_t` are unbounded and not negative; only the 32-bit length field is cut to its width.
- TikOps.FlushRefines: says nothing about time stamps on disc, because the in-place branch does not write them back; times are opaque bytes supplied by the caller.
- TikOps.WriteRefines: a write past the end leaves a gap of whatever the reallocated buffer holds, given as a parameter; a write that makes the buffer empty ends the process (`xrealloc` to size zero): that is a reply of its own, and no run goes on after it.
- Tikdb.AddKeyVal: values of 4 GiB and more are outside the contract, because the header's length field cannot hold them and command-line arguments cannot reach them; a database whose records do not parse is outside it too, since the code reads past its buffer there.
- Tikdb.GetKeyVal: gives the bytes read; printing them with `%s` without a terminator is not modelled.
- Chat server: sockets, `select`, `popen` of cowsay, and the texts of help, who, cow and broadcast, which only queue and flush (event `Output`); dispatch to a handler cleared during the same round.
- ChatRuns.EventSet.ProcessPrivate: where the sender's own copy cannot be written, or the message pointer is null, the code's behaviour is undefined; the result says so and no run goes on after it.
- ChatRuns.EventSet.AcceptClient: descriptor 0 is never accepted and accepted descriptors are below FD_SETSIZE, as the scans and `FD_SET` need.
- ChatCommon.WriteExact: the sequence of write(2) results must end in progress; a socket that fails for ever keeps the code in its loop.
- Handshake: segment set-up and removal, and printing.
- Morse: device registration, `ioctl`, copying from user space, and conformance of the table to the international Morse code.
- The introductory programs, `makethreads.c`, `caching.c`, `tester.c`, `chat-simple.c`, `client.c` and `user_morse.c`: input and output or repetitions of the above.
