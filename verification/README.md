# Verified models of Linux-IPC

Dafny models of three parts of the repository, with their properties proved:

* the **routing table manager**: one server owns an ordered routing table that an admin edits line by line, every
  connecting client is dumped the whole table, and every later change is broadcast and replayed by the clients;
* the **sum servers** over UNIX domain sockets: the multiplexed one is proved to give each client the reply of the
  one-client-at-a-time one;
* the **text layer** under both: the integer, address and subnet readers, and the number printers and the test
  filter of the bundled Unity.

`dafny verify dfyconfig.toml` checks everything.

## How the model is built

Code that changes things step by step is imperative Dafny: the readers cut up character arrays in place, the routing
table is a class over a list of heap records with a ghost account of what is allocated, the descriptor table and the
accumulators are arrays. Each such method is proved equal to a function of the old state, and the theorems are about
those functions.

| file | models |
|---|---|
| `Seqs`, `Wrappers` | first-match search, optional values |
| `CText` | `strtol`, `strsep`, `strncpy`, `strndup` and the integer reader |
| `Decimals`, `Divisions` | canonical decimal text; division facts |
| `Addresses`, `Subnets` | the address and subnet readers, the subnet printer |
| `Networks`, `Aliases` | networks as sets of addresses; which keys stand for one subnet, and the duplicate check |
| `Records`, `Tables`, `RoutingTables` | records and messages; the table as a list and as a map; the table on the heap |
| `FdSets`, `Broadcasts` | the monitored descriptor table; writes, dump and broadcast |
| `Consoles`, `Sessions` | the admin automaton line by line; whole admin sessions |
| `RtmServers`, `RtmClients` | the routing table server and client programs |
| `Replication`, `ReplicationRuns` | the whole system as a step relation; convergence and well-founded replay over all runs |
| `Monitoring`, `Histories` | which clients are kept up to date; which past tables a client shows, in which order |
| `SessionRuns`, `SubnetRuns` | admin sessions inside runs; when no subnet is stored twice |
| `RtmPrograms` | the two `main` loops over a whole run |
| `SumServers`, `MuxServers`, `Responses` | the sequential and the multiplexed sum server; when a client is answered |
| `UnityNumbers`, `UnityFloats`, `UnityMatching` | Unity's printers and its filter match |

A run is any sequence of events from an initial state; an event that is not possible in a state does nothing. The
channel to a client is the history of what was written to its socket plus how much of it the client has read.
The routing server never closes a client socket, so there descriptors are never reused; the sum server closes them,
so there a descriptor may come back for another client and clients are told apart by session.

What the model takes for granted:

* messages and integers are read and written whole, channels are in order and lossless until a write fails, and a
  socket that failed stays failed;
* `accept` returns a positive descriptor that is not open; allocation and `insert_end` succeed;
* the buffer an admin line is read into holds a newline or a NUL; the address part of a subnet line and a gateway line
  fit their 16-byte field with its NUL (`Consoles.Ordinary`). The address reader itself is modelled on texts of any
  length: it judges the first 16 characters only;
* reading at end of file leaves the zeroed buffer, so the datum is 0; sums do not overflow `int`;
* a character field of a record is the text before its NUL.

## Where the code does less than its documentation says

* "Only existing records may be deleted": `routing_table_delete` on a missing key removes the last record. It behaves
  exactly when the key is present or the table empty (`Tables.DeleteOnlyExistingIff`), and the two callers always
  meet that (`ReplicationRuns.CommitWellFounded`, `ReplicationRuns.ReceiveWellFounded`).
* "Whenever the server changes a record, the clients' local copies reflect this": `Monitoring.LeftOutExample` is a run
  in which a client is connected, has read all that was ever sent to it, and lacks a record. Once something has been
  committed since it connected, a client has been sent all it should have been if and only if it is still in a slot
  (`Monitoring.KeptUpToDateIff`); it gets a slot exactly when one is free and its dump succeeds
  (`Monitoring.GetsSlotIff`), and without one it is never written to again (`Monitoring.LeftOutForGood`).
* "A record that already exists cannot be added": keys are compared as text, so beside `1.1.1.1/32` the prompt lets in
  `01.01.01.01/32` (`Aliases.SpellingExample`), and beside `0.0.0.0/0` it lets in `1.1.1.1/0`
  (`Aliases.HostBitsExample`). On tables of normal keys, the prompt refuses a typed subnet exactly when that subnet is
  there, if and only if the typed key is normal itself: canonical address, no bit set outside the mask
  (`Aliases.DuplicateCheckIff`). Where only normal keys are typed, no subnet is ever stored twice
  (`SubnetRuns.NoSubnetTwice`).
* A refused subnet line may already have overwritten the pending record. This is harmless:
  `Sessions.EditCommits` and `SessionRuns.EditSessionCommits` show that what is committed never depends on it.

## Model

| member | source | states |
|---|---|---|
| `CText.ParseIntMeaning` | utils.c:58-71 | the integer reader yields `v` exactly for white space, optional sign and digits spelling `v` within `int`, whatever saturation does |
| `CText.ParseIntNumeral` | utils.c:58-71 | a numeral too big for `long` or `int` is refused, any other is read as its value |
| `CText.CheckInt` | utils.c:58-71 | `_check_int` accepts exactly the texts that denote an `int`; a stale `errno` never changes the verdict |
| `CText.ReadIntFromBuffer` | utils.c:75-80 | success with the denoted value, or failure with the target untouched and no value denoted |
| `CText.RemoveNewline` | utils.c:35-43 | the buffer then holds the line without its newline; a buffer without one is unchanged and the rest of the input line is thrown away |
| `CText.SplitJoin` | routing_table_manager/src/input.c:47-52 | the pieces `strsep` yields hold no delimiter and join back to the text |
| `CText.JoinSplit` | routing_table_manager/src/input.c:47-52 | splitting is the only such decomposition |
| `CText.StrSep` | routing_table_manager/src/input.c:47 | one destructive step: the token is terminated in place and the rest of the text is what follows the delimiter |
| `CText.NextToken` | routing_table_manager/src/input.c:47-52 | repeated steps enumerate the pieces of the original text |
| `CText.StrNCpy` | routing_table_manager/src/input.c:79-82 | copies at most `n` characters, pads with zeros, leaves the rest of the array alone |
| `Addresses.AcceptsAddressMeaning` | routing_table_manager/src/input.c:35-60 | accepted means: the first 16 characters are four numerals between 0 and 255 joined by dots |
| `Addresses.ReadIpAddressFromBuffer` | routing_table_manager/src/input.c:35-60 | the in-place loop over a copy decides exactly that, and the caller's buffer is unchanged |
| `Subnets.ReadSubnetMeaning` | routing_table_manager/src/input.c:68-95 | a line is accepted exactly when it is an address, one slash and a mask up to 32, and then yields those two |
| `Subnets.ReadSubnetLeaves` | routing_table_manager/src/input.c:72-93 | what any line with a slash leaves in destination and mask, refused lines included |
| `Subnets.StoreAddress` | routing_table_manager/src/input.c:78-83 | writes the destination only when the first piece is an address |
| `Subnets.StoreMask` | routing_table_manager/src/input.c:84-89 | writes the mask only when the second piece is one |
| `Subnets.ReadDestinationSubnetFromBuffer` | routing_table_manager/src/input.c:68-95 | verdict and both written fields, including what a refused line leaves behind |
| `Subnets.SubnetRoundTrip` | routing_table_manager/src/rtm.c:186-187 | a valid key is printed into the 19-byte buffer uncut, as its address, a slash and its mask in decimal, and is read back as that key |
| `Subnets.SubnetBoundTight` | routing_table_manager/src/rtm.c:186-187 | some valid key needs all 19 bytes |
| `Aliases.DuplicateCheckIff` | routing_table_manager/src/input.c:124-132 | over all tables of normal keys, the create prompt refuses a typed subnet exactly when the table has it, if and only if the typed key is normal |
| `Aliases.AliasNotRefused` | routing_table_manager/src/rtm.c:210-218 | every key that is not normal is let in beside a record of its own subnet |
| `Aliases.SpellingExample` | routing_table_manager/src/input.c:124-132 | typed at the prompt, `01.01.01.01/32` is let in beside `1.1.1.1/32` |
| `Aliases.HostBitsExample` | routing_table_manager/src/input.c:124-132 | and `1.1.1.1/0` beside `0.0.0.0/0` |
| `Aliases.NormalKeyUnique` | routing_table_manager/src/rtm.c:210-218 | a subnet, as the set of addresses it covers, has one normal key |
| `Aliases.NormalFormIsNormal` | routing_table_manager/src/input.c:68-95 | every valid key has a normal key for its subnet |
| `Networks.SameAddressesIff` | routing_table_manager/src/input.c:84-89 | two networks cover the same addresses exactly when their masks and the bits under them agree |
| `SubnetRuns.NoSubnetTwice` | routing_table_manager/src/input.c:119-163 | in every run in which only normal keys are typed at the create prompt, no subnet is stored twice |
| `Tables.InsertRefinesMap` | routing_table_manager/src/rtm.c:51-65 | inserting an absent key extends the map and goes to the end of the order |
| `Tables.UpdateRefinesMap` | routing_table_manager/src/rtm.c:72-86 | updating a present key overwrites that entry only and keeps keys and order |
| `Tables.DeleteRefinesMap` | routing_table_manager/src/rtm.c:90-108 | deleting a present key removes that entry only and keeps the others' order |
| `Tables.DeleteOnlyExistingIff` | routing_table_manager/src/rtm.c:90-108 | deletion is map removal if and only if the key is present or the table empty |
| `Tables.ReplayedConcat` | routing_table_manager/src/rtm_client.c:48-56 | receiving two streams one after the other is receiving their concatenation |
| `RoutingTables.RoutingTable.constructor` | routing_table_manager/src/rtm.c:21-24 | a new table is empty and owns nothing |
| `RoutingTables.RoutingTable.Insert` | routing_table_manager/src/rtm.c:51-65 | appends a copy in a fresh record; one more allocation |
| `RoutingTables.RoutingTable.ContainsDstSubnet` | routing_table_manager/src/rtm.c:210-218 | true exactly when some record has the key |
| `RoutingTables.RoutingTable.Update` | routing_table_manager/src/rtm.c:72-86 | overwrites the first match in place, or reports that there is none |
| `RoutingTables.RoutingTable.SearchForDeletion` | routing_table_manager/src/rtm.c:92-100 | the first match, else the last index, else -1; the loop variable points to the record at that index, on a miss too |
| `RoutingTables.RoutingTable.Unlink` | routing_table_manager/src/rtm.c:103-105 | frees the record the search stopped at: it is the one taken out of the list, and every other stays owned |
| `RoutingTables.RoutingTable.Delete` | routing_table_manager/src/rtm.c:90-108 | new contents, return code, and every record still owned exactly once: allocations minus frees is the size |
| `RoutingTables.RoutingTable.FreeAll` | routing_table_manager/src/rtm.c:28-35 | every record is freed once, nothing is left allocated and the list is gone |
| `FdSets.FdSet.constructor` | unix_domain_sockets/multiplexing/fd_set_mgmt.c:11-15 | every slot is free |
| `FdSets.FdSet.Add` | unix_domain_sockets/multiplexing/fd_set_mgmt.c:19-27 | the first free slot takes the descriptor; a full table is unchanged |
| `FdSets.FdSet.Remove` | unix_domain_sockets/multiplexing/fd_set_mgmt.c:31-39 | the first slot holding the descriptor is freed |
| `FdSets.AddedDistinct` | unix_domain_sockets/multiplexing/fd_set_mgmt.c:19-27 | a new descriptor keeps slots distinct, is in the table exactly if there was room, and disturbs no occupied slot |
| `FdSets.RemovedAll` | unix_domain_sockets/multiplexing/fd_set_mgmt.c:31-39 | with distinct descriptors exactly the slot holding it is freed |
| `FdSets.FdSet.Refresh` | unix_domain_sockets/multiplexing/fd_set_mgmt.c:43-50 | the set holds exactly the occupied slots' descriptors |
| `FdSets.FdSet.GetMaxFd` | unix_domain_sockets/multiplexing/fd_set_mgmt.c:54-64 | the maximum, or -1 |
| `FdSets.WatchedSet` | unix_domain_sockets/multiplexing/server.c:45-49 | everything `select` watches lies below the bound it is given |
| `Broadcasts.Sender.Send` | routing_table_manager/src/rtm.c:112-122 | one write; the slot of a socket that fails is freed |
| `Broadcasts.Sender.Broadcast` | routing_table_manager/src/rtm.c:151-156 | the loop that frees slots of the array it walks has the effect of a simultaneous broadcast |
| `Broadcasts.Sender.Dump` | routing_table_manager/src/rtm.c:126-136 | the socket holds the table as CREATE messages up to the first failing write |
| `RtmServers.BroadcastExact` | routing_table_manager/src/rtm.c:112-156 | one copy to every monitored client that can be written to, exactly the failing ones lose their slot, stdin and the master socket are untouched |
| `Consoles.EditKeepsInv` | routing_table_manager/src/input.c:119-216 | create and update keep keys unique and the pending key absent, respectively present, and commit well-founded operations |
| `Consoles.DeleteKeepsInv` | routing_table_manager/src/input.c:224-242 | delete removes a present key and leaves a valid table |
| `Consoles.LineKeepsInv` | routing_table_manager/src/rtm_server.c:116-170 | every line in every mode keeps the automaton's invariant; the table changes by the one operation broadcast, or not at all |
| `Consoles.AppliedContents` | routing_table_manager/src/rtm_client.c:66-89 | what a message does to the records: the one with its key is replaced or removed, every other stays |
| `Consoles.AppliedRefinesMap` | routing_table_manager/src/rtm_client.c:66-89 | and to the map of routes and the order of the keys |
| `Sessions.EditCommits` | routing_table_manager/src/input.c:119-216 | commit freshness: whatever the pending record held, a session commits its first selecting subnet, then first gateway, then first interface, on that line |
| `Sessions.DeleteCommits` | routing_table_manager/src/input.c:224-242 | a delete session commits on the first line naming a stored subnet and broadcasts that subnet |
| `Sessions.PrintedSubnetTyped` | routing_table_manager/src/input.c:124-133 | any printed subnet typed at the create prompt goes on exactly when it is absent, at the update prompt exactly when it is present |
| `Sessions.PrintedSubnetDeleted` | routing_table_manager/src/input.c:224-242 | typed at the delete prompt it commits exactly when it is present |
| `SessionRuns.EditSessionCommits` | routing_table_manager/src/input.c:119-216 | the same in every run, with connections and receives in between: the next message logged is the one the typed lines spell |
| `SessionRuns.DeleteSessionCommits` | routing_table_manager/src/input.c:224-242 | the same for deletion |
| `SessionRuns.EditTakesEffect` | routing_table_manager/src/input.c:119-216 | in every run, after a create or update session the server has the typed route for the typed subnet and every other record as before |
| `SessionRuns.DeleteTakesEffect` | routing_table_manager/src/input.c:224-242 | after a delete session the typed subnet is gone and every other record is as before |
| `SessionRuns.SessionEndsIff` | routing_table_manager/src/input.c:119-242 | a session ends exactly when it commits, and its kind stays the same until then |
| `Sessions.NoDeadMode` | routing_table_manager/src/input.c:171-242 | from updating or deleting at most three lines, starting with a printed subnet, lead back to the menu |
| `RtmServers.RtmServer.constructor` | routing_table_manager/src/rtm_server.c:41-47 | the initial state in objects of its own, with pending record and entry arbitrary |
| `RtmServers.RtmServer.HandleConnection` | routing_table_manager/src/rtm_server.c:102-112 | the accept step, in every part of the state |
| `RtmServers.RtmServer.SelectSubnet` | routing_table_manager/src/input.c:124-133 | the subnet prompt: pending record, verdict and membership |
| `RtmServers.RtmServer.SelectGateway` | routing_table_manager/src/input.c:134-142 | the gateway prompt |
| `RtmServers.RtmServer.CreateRecord` | routing_table_manager/src/input.c:119-163 | one line of creation is the line step |
| `RtmServers.RtmServer.UpdateRecord` | routing_table_manager/src/input.c:171-216 | one line of update is the line step |
| `RtmServers.RtmServer.DeleteRecord` | routing_table_manager/src/input.c:224-242 | one line of deletion is the line step |
| `RtmServers.RtmServer.Menu` | routing_table_manager/src/rtm_server.c:120-159 | one line at the menu is the line step |
| `RtmServers.StopsIff` | routing_table_manager/src/rtm_server.c:151-152 | the server stops exactly on the quit command at the menu |
| `RtmServers.StopsClean` | routing_table_manager/src/rtm_server.c:174-184 | stopping frees the slot of the master socket and changes nothing else |
| `RtmServers.RtmServer.Shutdown` | routing_table_manager/src/rtm_server.c:174-184 | all records freed, master socket closed, unlinked and no longer watched |
| `RtmServers.RtmServer.HandleAdminInput` | routing_table_manager/src/rtm_server.c:116-170 | the line step in every mode; until shutdown every record has one owner and the pending record is none of the table's, and records newly owned are newly allocated |
| `RtmPrograms.ServeRun` | routing_table_manager/src/rtm_server.c:39-64 | the `main` loop over any run: while up, its state is that of the run, every record has one owner and allocations less frees are the size of the table; it ends with everything freed and its socket gone if and only if the quit command was typed at the menu |
| `RtmPrograms.StoppedIff` | routing_table_manager/src/rtm_server.c:39-64 | in every run the server has stopped exactly when the quit command was typed at its menu |
| `RtmPrograms.Watch` | routing_table_manager/src/rtm_server.c:51-53 | stdin and the master socket are watched in every state, and what is watched is below the bound given to `select` |
| `RtmClients.RtmClient.Synchronize` | routing_table_manager/src/rtm_client.c:66-89 | one message applied to the local table, ownership kept |
| `RtmClients.RtmClient.Receive` | routing_table_manager/src/rtm_client.c:48-56 | the loop leaves the replay of the whole stream |
| `RtmClients.RtmClient.Shutdown` | routing_table_manager/src/rtm_client.c:93-100 | all records freed |
| `RtmPrograms.ReceiveRun` | routing_table_manager/src/rtm_client.c:48-56 | the client program fed with what it has read holds the replica of the run, its records owned once each |
| `Replication.StepKeepsInv` | routing_table_manager/src/rtm_server.c:50-63 | every accept, line and receive keeps the whole-system invariant |
| `Replication.BroadcastKeepsInv` | routing_table_manager/src/rtm.c:151-156 | a commit with any set of broken writes keeps it |
| `ReplicationRuns.ReplayedDump` | routing_table_manager/src/rtm.c:126-136 | replaying part of a dump rebuilds that part of the table, in order |
| `ReplicationRuns.Convergence` | routing_table_manager/src/rtm.c:126-156 | in every run, a monitored client's table with what is in flight to it is the server's table, in the same order |
| `Monitoring.CatchesUp` | routing_table_manager/src/rtm_client.c:48-56 | a monitored client that reads what is in flight to it has exactly the server's table |
| `Monitoring.GetsSlotIff` | routing_table_manager/src/rtm_server.c:102-112 | a connecting client is monitored if and only if a slot is free and its dump is written whole |
| `Monitoring.ConnectedIs` | routing_table_manager/src/rtm_server.c:102-112 | in every run, a connection leaves exactly the records that could be written on the socket, as CREATE messages in order, and the client in a slot exactly when one was free and all could |
| `Monitoring.LeftOutForGood` | routing_table_manager/src/rtm.c:151-156 | a client without a slot is never written to again |
| `Monitoring.KeptUpToDateIff` | routing_table_manager/src/rtm.c:112-156 | in every run, once something was committed since a client connected, it has been sent all it should have been if and only if it is in a slot |
| `Monitoring.LeftOutExample` | routing_table_manager/src/rtm_server.c:102-112 | a run after which a connected client that has read everything sent to it lacks the server's record |
| `ReplicationRuns.ReceiveWellFounded` | routing_table_manager/src/rtm_client.c:66-89 | in every run, the next message of any client creates an absent key or updates or deletes a present one |
| `ReplicationRuns.CommitWellFounded` | routing_table_manager/src/rtm_server.c:116-170 | in every run, so does every operation of the server |
| `SessionRuns.AlwaysAWayOut` | routing_table_manager/src/input.c:171-242 | no dead mode in any reachable state |
| `Histories.PrefixConsistency` | routing_table_manager/src/rtm_client.c:48-89 | in every run, every client that ever connected holds as much of the table at its connection as it has read, and once it has read all of that, exactly a table the server had at some moment since |
| `Histories.NeverBackwards` | routing_table_manager/src/rtm_client.c:48-89 | reading on, a client shows the same connection and a moment of the server that is no earlier; it never falls back to part of its dump |
| `SumServers.ServeOne` | unix_domain_sockets/no_multiplexing/server.c:40-56 | the sequential server replies with the sum up to the first 0 or end of file, after that many reads |
| `SumServers.SumConcat` | unix_domain_sockets/no_multiplexing/server.c:105-123 | the accumulated sum is the sum of the integers received, however they are split |
| `SumServers.ServeSlotKeepsInv` | unix_domain_sockets/multiplexing/server.c:117-151 | serving a slot keeps: accumulators match what their own client sent, free slots hold 0 |
| `SumServers.AcceptKeepsInv` | unix_domain_sockets/multiplexing/server.c:105-114 | so does accepting, also when descriptor and slot were used before |
| `SumServers.MultiplexingRefinesSequential` | unix_domain_sockets/multiplexing/server.c:117-151 | in every run every reply is the sequential server's, after the same number of reads, and no unanswered client was read past its first 0 |
| `SumServers.SlotTableInvariant` | unix_domain_sockets/multiplexing/fd_set_mgmt.c:7-39 | in every run occupied slots are distinct and a free slot's accumulator is 0 |
| `SumServers.RoundServesEach` | unix_domain_sockets/multiplexing/server.c:119-150 | one round serves every ready client exactly once, as if it were alone |
| `Responses.BoundedResponse` | unix_domain_sockets/multiplexing/server.c:117-151 | in every run, whatever else happens, a client in a slot has its reply, the sequential one, exactly when its descriptor was ready in more rounds than it has integers left |
| `Responses.AcceptGetsSlotIff` | unix_domain_sockets/multiplexing/server.c:105-114 | in every reachable state a client that connects is in a slot if and only if one was free |
| `Responses.ConnectionToReply` | unix_domain_sockets/multiplexing/server.c:105-151 | in every run, a client that connects gets the sequential server's reply if and only if a slot was free and its descriptor was ready in more rounds than it has integers to add |
| `MuxServers.MuxServer.HandleConnection` | unix_domain_sockets/multiplexing/server.c:105-114 | the accept step on the real arrays |
| `MuxServers.MuxServer.ServeClient` | unix_domain_sockets/multiplexing/server.c:120-149 | one slot: read, then reply, close and reset, or add |
| `MuxServers.MuxServer.HandleServiceRequest` | unix_domain_sockets/multiplexing/server.c:117-151 | the loop over the slots is one round, and the invariant holds after it |
| `MuxServers.ServeRun` | unix_domain_sockets/multiplexing/server.c:37-62 | the `main` loop over any run: the arrays hold the state of the run |
| `Decimals.DecValueDecimal` | routing_table_manager/unity/unity.c:331-347 | canonical decimal text denotes its number |
| `Decimals.CanonicalUnique` | routing_table_manager/unity/unity.c:331-347 | and is the only canonical text that does |
| `Decimals.SignedDecimalReadBack` | utils.c:58-80 | printed integers are read back when they fit in `int` and refused otherwise |
| `UnityNumbers.FirstDivisor` | routing_table_manager/unity/unity.c:333-339 | the divisor loop never leaves 64 bits and stops at the leading digit |
| `UnityNumbers.PrintNumberUnsigned` | routing_table_manager/unity/unity.c:331-347 | emits canonical decimal |
| `UnityNumbers.PrintNumber` | routing_table_manager/unity/unity.c:316-327 | for every 64-bit value, the least included: a minus sign exactly for negative numbers, then the magnitude in canonical decimal |
| `UnityNumbers.SignedTextUnique` | routing_table_manager/unity/unity.c:316-327 | there is only one such text for a number |
| `UnityNumbers.PrintThenRead` | routing_table_manager/unity/unity.c:316-347 | print then read: accepted exactly when the value fits in `int`, and then unchanged |
| `UnityNumbers.PrintNumberHex` | routing_table_manager/unity/unity.c:350-373 | the digits asked for, at most 16, denoting the number modulo 16 to their count |
| `UnityFloats.TextUnique` | routing_table_manager/unity/unity.c:520-559 | a printed float can be read in one way only |
| `UnityFloats.FillReversed` | routing_table_manager/unity/unity.c:521-527 | the filling loop stays within 16 bytes and holds the padded digits in reverse |
| `UnityFloats.TrimZeros` | routing_table_manager/unity/unity.c:514-519 | trimming keeps the scaled value and ends on a non-zero fraction digit |
| `UnityFloats.EmitExponent` | routing_table_manager/unity/unity.c:535-559 | nothing for exponent 0, else a sign and two digits, or more without leading zero, denoting it |
| `UnityFloats.EmitFloat` | routing_table_manager/unity/unity.c:504-559 | the text denotes exactly the scaled integer times its power of ten, carry included, without trailing zero; no exponent from place -(digits + 3) to 0, one digit before the point elsewhere, no superfluous zeros |
| `UnityFloats.OnlyText` | routing_table_manager/unity/unity.c:504-559 | value and layout leave only one text |
| `UnityFloats.PlacePoint` | routing_table_manager/unity/unity.c:510-519 | where the point goes, and trimming, with the value kept |
| `UnityMatching.IsStringInBiggerString` | routing_table_manager/unity/unity.c:1727-1769 | terminates; non-zero exactly when the pattern, cut at its first terminator from index 1 on, occurs; 2 exactly when that terminator is a colon |

## Left out

- Sockets, signals, `select`, console output and the real file system: replaced by the events accept, line, receive, write failure and ready set.
- `posix_message_queues` and `posix_shared_memory`: loops around library calls.
- The nodes and links of the list library, whose implementation is not part of this model: `InsertEnd` and `RemoveAt` state what its header promises.
- Null pointers, partial reads and writes, several messages in one read, and over-long unterminated fields.
- UnityFloats.EmitFloat: starts where the scaled integer is fixed; the floating-point scaling before it is not modelled, because rounding is its point.
- Unity's assertion macros, test control flow and option parsing.
- MuxServers.MuxServer.ServeClient: a failed write of the reply is not told apart from a successful one, as the server goes on in the same way.
- Fairness: nothing is claimed about when clients read or when descriptors are reported ready.
