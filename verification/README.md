# Transport state of libmcapi

libmcapi (MCAPI V2.015) keeps its transport state in one shared record, `mcapi_database`
(include/transport_sm.h:83-172). This project models that record and every live call that changes it:

- **Request pool** (`RequestPool.dfy`). A free list threaded through an array by `next_index`, with a head, a
  counter and a separate valid flag per slot. `FreeChain` says when the two representations of "free" agree.
  The pool size is any N from 1 to 65536 (request handles are decoded through a 16-bit index).
- **Request machine** (`Requests.dfy`, `RequestRuns.dfy`, `RequestAnswers.dfy`, `Rounds.dfy`). `endpoint_get_i`,
  `msg_send_i` and `msg_recv_i` issue, `test` polls, `wait` finishes and releases. `Step` gives the new state and
  everything the caller sees; the run theorems quantify over arbitrary sequences of calls, and the answers of
  every call, however late, are stated from what the driver said.
- **Registry and handles** (`Handles.dfy`, `Registry.dfy`, `RegistryRuns.dfy`). Domains, nodes, endpoint tables,
  the searches through them and the 32-bit handle codec.
- **The whole library** (`Api.dfy`). Request machine and registry driven together by public calls. A run of the
  library projects to a run of each part, so the theorems about the parts hold for it.
- **The code itself** (`Database.dfy`, `PublicApi.dfy`, `Client.dfy`). The class `Database` has the arrays and
  fields of `mcapi_database`; its methods make the same assignments and run the same loops as the C functions
  and are proved to compute `Reserve`, `Remove`, `Step`, `AddNode`, `PortIndex`, `Create` and `Delete`. The
  public checks and the message test client call those methods.
- **Two pieces of arithmetic** (`PacketBuffers.dfy`, `Scalars.dfy`): buffer address to slot, and scalar packing.

Modelling choices:

- The driver (ioctl on /dev/icc, whose header icc.h is not part of this model) is an oracle: each call takes its
  answer as a parameter (success, EAGAIN, ETIMEDOUT or another error, plus a length). A call returns 0 or -1, so
  narrowing its result to `mcapi_boolean_t` in test and wait loses nothing.
- No lock is held outside initialisation; each call is taken as one atomic step.
- Masks and shifts by constants are written as remainders and products; narrowing to 16 or 32 bits is explicit.
- `assert` in the code becomes a precondition of the method (a used slot in `RemoveRequest`, a registered node in
  `GetNodeIndex`, a free index in `EndpointCreate`). A lookup requires that no node's `num_endpoints` exceeds its
  table; `ReachableRegistry` and `ReachableSystemSound` say when that is so.
- The validity check of test and wait reduces a handle to 16 bits, but the record is then read at the full value.
  So a handle of 65536 or more, which the library never issues, is covered only where the check refuses it.
- `prev_index`, `full_head_index`, `buffer_ptr` and `status` are written at most once and never read; they are
  dropped, as are node and endpoint attributes and the receive queue of an endpoint.

Where code and documentation disagree, the model follows the code:

- mcapi.c:2724-2727 calls a timed out wait non-destructive and repeatable; the slot is released
  (`TimedOutWaitCannotBeRepeated`, `TimedOutWaitReachable`, `WaitFreesItsSlot`).
- mcapi.c:698 promises a size limit error from `mcapi_msg_send_i`; the status set by the checks is overwritten by
  the transport (`McapiMsgSendI`).
- A completed request inherits nothing from an earlier user of its slot, except after an issue that ended with an
  invalid endpoint: its slot keeps the old record (`UnboundInherits`, `InheritedCompletionReachable`).
- `remove_request` does nothing when the pool is full, so a full pool is stuck for ever (`FullIsAbsorbing`).
- The successful test of an endpoint get reports the driver's length once and the stored 0 afterwards
  (`GetSizeNotKept`).

## Model

| member | source | states |
|---|---|---|
| RequestPool.InitialChain | mcapi_trans_stub.c:428-443 | after initialising zeroed memory every record is zero, the chain is 0, 1, ..., N-1 and the pool is sound |
| RequestPool.ChainUnique | mcapi_trans_stub.c:396-426 | head and links determine the chain, so "the" free list is well defined |
| RequestPool.ReserveChain | mcapi_trans_stub.c:411-426 | reserving pops the first slot of the chain; it fails and changes nothing exactly when the chain is empty |
| RequestPool.RemoveChain | mcapi_trans_stub.c:396-409 | releasing a used slot pushes it on the chain, unless the pool is full, when nothing changes |
| RequestPool.ReserveOutcome | mcapi_trans_stub.c:411-426 | a slot is granted exactly when the pool is not full, was free before, only its flag changes, and the pool stays sound |
| RequestPool.RemoveOutcome | mcapi_trans_stub.c:396-409 | releasing a used slot succeeds exactly when the pool is not full, only its flag and its link change, and the pool stays sound |
| RequestPool.CountIsUsedSlots | mcapi_trans_stub.c:405-422 | curr_count is the number of slots whose valid flag is on |
| RequestPool.ReserveThenRemove | mcapi_trans_stub.c:396-426 | reserve then remove restores head, count, links and flags exactly when two slots were free |
| RequestPool.ReinitialisedSound | mcapi_trans_stub.c:428-443 | running initialisation again gives the initial table with the old records: a sound pool exactly when no request is outstanding |
| Handles.DecodeUndoesEncode | mcapi_trans_stub.c:458-496 | decode undoes encode exactly for domain and node below 256; otherwise their low bytes survive, the port always |
| Handles.EncodeUndoesDecode | mcapi_trans_stub.c:458-496 | encode undoes decode for every 32-bit handle |
| Handles.EncodeInjective | mcapi_trans_stub.c:458-470 | two triples share a handle exactly when they agree on low bytes and port |
| Handles.Layout | mcapi_trans_stub.c:458-470 | in literals: port in the low 16 bits, the node's low byte in the next 8, the domain's in the top 8 |
| Handles.HandleOfDecodes | mcapi_trans_stub.c:928-942 | a handle made for a node and port is 65536 times the node's low byte plus the port's low half, with domain 0; it names the port itself exactly when below 65536 |
| Requests.StepFreeList | mcapi_trans_stub.c:946-1263 | every call acts on the free list as Reserve, as Remove or not at all, and the outcome tells which |
| Requests.StepKeepsInv | mcapi_trans_stub.c:946-1987 | no call breaks the agreement of free chain and valid flags |
| Requests.HandleIsFresh | mcapi_trans_stub.c:411-426 | a new handle is in range and names a slot that was free |
| Requests.LimitOnlyWhenFull | mcapi_trans_stub.c:1155-1158 | the request limit status is reported exactly when a slot is needed and the pool is full, and then nothing changes |
| Requests.OthersUntouched | mcapi_trans_stub.c:498-514 | no call changes a record it neither targets nor hands out, so none of another outstanding request |
| Requests.BindingKept | mcapi_trans_stub.c:1835-1987 | a call that leaves a request outstanding leaves the operation it stands for unchanged |
| Requests.WaitFreesItsSlot | mcapi_trans_stub.c:1944-1985 | a wait past its checks frees exactly its slot on success, timeout and error alike, unless the pool is full; of the record only the flag changes, and the size when this wait completed a send or receive |
| Requests.ReleasedIsInvalid | mcapi.c:2692-2700 | test and wait on a free slot report an invalid request and change nothing |
| RequestRuns.ReachableFreeListSound | mcapi_trans_stub.c:396-443 | after any run from initialisation, for any N, the chain is sound and no request is cancelled |
| RequestRuns.CountBalance | mcapi_trans_stub.c:401-422 | over any run curr_count moves by the handles granted, whatever their status, minus the effective releases |
| RequestRuns.BoundedRunNeverRefused | mcapi_trans_stub.c:396-426 | a caller whose own balance, handles received minus releases seen in the answers to wait, stays below N never gets the limit status and has every release take effect |
| RequestRuns.FullIsAbsorbing | mcapi_trans_stub.c:401-424 | from a full pool no run ever changes the free list, grants a handle or releases one |
| RequestRuns.LeakedSlotsExhaustThePool | mcapi_trans_stub.c:1155-1170 | as many sends on a missing endpoint as there are free slots fill the pool for good |
| RequestRuns.OutstandingNeverReissued | mcapi_trans_stub.c:411-426 | a handle is not issued again while its request is outstanding |
| RequestRuns.UntargetedUnchanged | mcapi_trans_stub.c:1835-1987 | over any run that does not target it an outstanding request keeps its whole record |
| RequestRuns.UnwaitedStaysOutstanding | mcapi_trans_stub.c:1835-1987 | only a wait on it can end a reservation |
| RequestRuns.IssueBinds | mcapi_trans_stub.c:965-1262 | a successful, pending or failed transmission leaves a record describing exactly the issued operation, completed exactly when the driver said so |
| RequestRuns.CompletedMeansReported | mcapi_trans_stub.c:1172-1186 | while a bound request is outstanding, completed holds exactly when the driver, asked at issue or in a later test, reported success for this reservation |
| RequestRuns.UnboundInherits | mcapi_trans_stub.c:1161-1186 | for any issue that got a slot and any outstanding run, that law holds exactly when the issue bound the slot or the previous user's request had not completed |
| RequestRuns.InheritedCompletionReachable | mcapi_trans_stub.c:1145-1187 | such a false success is reachable from initialisation for every N but 1 |
| RequestRuns.CompletedFrozen | mcapi_trans_stub.c:1858-1862 | a completed record does not change while it is outstanding |
| RequestRuns.SuccessIsStable | mcapi_trans_stub.c:1858-1952 | after a test reports success with a size, every later test, and the closing wait while the endpoint is found, reports the same whatever the driver says |
| RequestRuns.IssueSuccessIsStable | mcapi_trans_stub.c:1181-1262 | the same for a send or receive that succeeded at issue, with the bytes sent or received |
| RequestRuns.GetSizeNotKept | mcapi_trans_stub.c:965-987 | over any run, the first successful test of an issued endpoint get and any later one agree on the size exactly when the get completed at issue or the driver's length was 0; later ones report 0 |
| RequestRuns.TimedOutWaitCannotBeRepeated | mcapi_trans_stub.c:1955-1962 | after a timeout the handle is invalid exactly when the pool was not full |
| RequestRuns.TimedOutWaitReachable | mcapi_trans_stub.c:946-1962 | a timed out wait is reached from initialisation; repeating it is refused for every N but 1 |
| RequestRuns.FreedStaysInvalid | mcapi.c:2763-2766 | a freed handle stays invalid over any run that does not grant it again, and test and wait on it change nothing |
| RequestRuns.GetWritesBlockingHandle | mcapi_trans_stub.c:1893-1971 | a non-blocking get completed by a later test or wait writes to its own cell the handle the blocking get returns, after any run in between |
| RequestRuns.GetAtIssueWritesBlockingHandle | mcapi_trans_stub.c:946-988 | the same for a get completed at issue |
| RequestAnswers.IssueAnswers | mcapi_trans_stub.c:946-1263 | a get found locally succeeds without a slot; a full pool refuses the rest; a failed lookup is an invalid endpoint; otherwise success, pending or a transmission error exactly as the driver answers success, EAGAIN or anything else |
| RequestAnswers.Standing | mcapi_trans_stub.c:1835-1987 | any issued slot, after any run that leaves it outstanding, is completed exactly when it was so after the issue or the driver reported success since |
| RequestAnswers.TestAnswers | mcapi_trans_stub.c:1835-1916 | a test after any such run answers success, with true, exactly when the driver reported success at issue, in the run or now; pending exactly when asked in vain with EAGAIN; a general error for any other refusal; an uninitialised node when it cannot be asked; unless it completes the request nothing changes |
| RequestAnswers.WaitAnswers | mcapi_trans_stub.c:1918-1987 | a wait after any such run, past its lookup, answers success, with true, exactly when the driver reported success at issue, in the run or now; a timeout exactly when not and the driver timed out; a general error exactly otherwise |
| RequestAnswers.RefusedArguments | mcapi.c:2684-2769 | a missing size parameter comes before the handle check; an invalid handle gives true from test and false from wait; only test refuses a cancelled request |
| RequestAnswers.CellsWritten | mcapi_trans_stub.c:946-1971 | a caller's cell is written only by a get that succeeds at issue and by the test or wait that completes a get, each to the cell the get named |
| Rounds.RoundRestores | tests/arm_sharc_msg_test.c:161-198 | issue, polls, wait restores the free list exactly when two slots were free |
| Rounds.RoundsRestore | tests/arm_sharc_msg_test.c:370-389 | any number of completed rounds leaves the free list exactly as it began |
| Registry.AddNodeKeepsInv | mcapi_trans_stub.c:292-394 | valid nodes stay the first num_nodes entries with distinct numbers, valid domains have distinct ids, a refused call changes nothing |
| Registry.AddNodeAccepts | mcapi_trans_stub.c:306-357 | a node is accepted exactly when it is new, its domain has room and the first domain is not full |
| Registry.AddNodeRegisters | mcapi_trans_stub.c:360-389 | an accepted call registers that node and no other |
| Registry.AddNodeWritesOneEntry | mcapi_trans_stub.c:360-389 | an accepted call writes only the first unused entry of its domain: valid, the number, one counted endpoint, an empty table |
| Registry.AddNodeKeepsLookups | mcapi_trans_stub.c:266-389 | the new node has no endpoint to find; every other node of the first domain is looked up as before |
| Registry.PortIndexIsLeast | mcapi_trans_stub.c:266-287 | the lookup is the least live index of that node holding the port, and the table size exactly when there is none |
| Registry.FoundMeansLive | mcapi_trans_stub.c:266-287 | a lookup by node and port succeeds exactly when some live entry of that node within the scan holds the port |
| Registry.FoundHandleMeansLive | mcapi_trans_stub.c:472-496 | a lookup by handle does so for the node in its second byte and the port in its low 16 bits |
| Registry.ValidEndpointExact | mcapi_trans_stub.c:542-562 | a handle is valid exactly when its node byte is 0, a live entry of node 0 holds its port, and the first node's entry at the least such index is in use |
| Registry.CreatedIsFound | mcapi_trans_stub.c:896-926 | on node 0 in the first slot a created handle looks up the new entry exactly when its port is below 65536 and the driver's index is within the scan |
| Registry.CreateWritesOneEntry | mcapi_trans_stub.c:912-921 | creation writes the driver's entry and the count of the first node and nothing else |
| Registry.CreateKeepsOtherLookups | mcapi_trans_stub.c:915-921 | creation leaves another port's lookup alone unless, and only unless, it brings into reach a live entry for that port just past a scan that found none |
| Registry.DeletedLookups | mcapi_trans_stub.c:1027-1043 | after deletion the handle is valid exactly when another live entry holds its port; other ports are looked up as before |
| Registry.DeleteClearsOneEntry | mcapi_trans_stub.c:1027-1043 | deletion zeroes the entry looked up, leaves the endpoint count, and changes nothing when the lookup finds none |
| RegistryRuns.ReachableRegistry | mcapi_trans_stub.c:266-921 | after any run num_endpoints is 1 plus the creations, of which there are at most 63, and scans stay inside the tables exactly for at most MCAPI_MAX_ENDPOINTS - 1 creations |
| RegistryRuns.EveryLiveEndpointIsReached | mcapi_trans_stub.c:266-921 | with a lowest-index driver, after any run, ports reused or not, every live endpoint lies below num_endpoints; while scans stay inside, the lookup of its port gives an index no higher, and its own exactly when no lower entry holds the port |
| RegistryRuns.EveryLiveEndpointIsFound | mcapi_trans_stub.c:266-287 | if moreover no live port is reused, every live endpoint is looked up at its own index |
| RegistryRuns.LookupFindsOwnIndex | mcapi_trans_stub.c:266-921 | for every driver and every run within the scan bound, a live endpoint is looked up at its own index exactly when that index is at most the number of creations and no lower entry holds its port |
| RegistryRuns.HighIndexIsLost | mcapi_trans_stub.c:902-921 | a first creation at any index past 1 is such a live endpoint that no lookup finds |
| Api.TableProjection | mcapi_trans_stub.c:1163-1170 | a run of the library is, for the request table, a run of the request machine |
| Api.DomainProjection | mcapi_trans_stub.c:896-1043 | and, for the registry, a run of the registry |
| Api.LookupsMade | mcapi_trans_stub.c:946-1943 | a get is looked up by its node and port, a send or receive by its own endpoint, a test or wait by the handle in the record, and found exactly when a live entry holds it |
| Api.ReachableSystemSound | mcapi_trans_stub.c:396-1987 | every state reached after one initialisation by any mix of public calls has a sound pool without cancelled requests, a sound registry, and scans inside the tables exactly for at most MCAPI_MAX_ENDPOINTS - 1 creations |
| Api.CompletedOutlivesEndpoint | mcapi_trans_stub.c:1858-1952 | a completed request keeps answering tests with its size until waited for, even after its endpoint was deleted; the closing wait answers the same exactly when the endpoint is found, and an uninitialised node otherwise |
| Api.DeletedEndpointStrandsRequest | mcapi_trans_stub.c:1027-1938 | after deleting an endpoint whose port no second entry holds, and while no call creates the port again, its sends and receives keep their slots and records and every wait on them reports an uninitialised node |
| Api.StrandedRequestReachable | mcapi_trans_stub.c:1027-1938 | a stranded request is reached from initialisation, for every N |
| Api.DeletionRemovesPort | mcapi_trans_stub.c:1027-1043 | deletion makes the port disappear exactly when no second entry held it |
| Api.PortGoneStrandsRequest | mcapi_trans_stub.c:1931-1938 | while no entry holds its port no run frees a send or receive or changes its record |
| Api.WaitReleasesWhenFound | mcapi_trans_stub.c:1931-1985 | a wait frees an outstanding request exactly when the pool is not full and, for a send or receive, its endpoint is found |
| Api.StrandedStep | mcapi_trans_stub.c:1935-1938 | a wait whose lookup fails reports an uninitialised node and leaves the record alone |
| Database.Database.InitRequestIndexedArray | mcapi_trans_stub.c:428-443 | the loop rebuilds links and counters and leaves the records |
| Database.Database.ReserveRequest | mcapi_trans_stub.c:411-426 | computes Reserve in place |
| Database.Database.RemoveRequest | mcapi_trans_stub.c:396-409 | computes Remove in place and reports whether the pool was not full |
| Database.Database.GetNodeIndex | mcapi_trans_stub.c:250-264 | the first node with the number |
| Database.Database.GetPortIndex | mcapi_trans_stub.c:266-287 | the double loop, in which a later node could overwrite an earlier match, computes PortIndex |
| Database.Database.CheckEndpoint | mcapi_trans_stub.c:542-562 | accepts exactly the valid endpoint handles |
| Database.Database.AddNodeToDb | mcapi_trans_stub.c:292-394 | the nested search loops compute AddNode |
| Database.Database.EndpointCreate | mcapi_trans_stub.c:896-926 | computes Create and returns the handle of node and port |
| Database.Database.EndpointDelete | mcapi_trans_stub.c:1027-1043 | computes Delete |
| Database.Database.EndpointGet | mcapi_trans_stub.c:991-1019 | returns true with success, and writes the handle, exactly when a live entry holds the port or the driver answers success; otherwise writes nothing, with a timeout exactly when the driver timed out and a general error else |
| Database.Database.MsgAvailable | mcapi_trans_stub.c:1300-1324 | the driver's count, or 0 with the error when the lookup or the driver fails |
| Database.Database.EndpointGetI | mcapi_trans_stub.c:946-988 | computes Step for a non-blocking endpoint get |
| Database.Database.MsgSendI | mcapi_trans_stub.c:1145-1187 | computes Step for a non-blocking send |
| Database.Database.MsgRecvI | mcapi_trans_stub.c:1221-1263 | computes Step for a non-blocking receive |
| Database.Database.TestI | mcapi_trans_stub.c:1835-1916 | computes Step for a test on a valid handle |
| Database.Database.Wait | mcapi_trans_stub.c:1918-1987 | computes Step for a wait on a valid handle |
| PublicApi.McapiInitialize | mcapi.c:150-168 | refuses only the node in the first slot; otherwise reports success, and the pool is sound exactly when no request was outstanding |
| PublicApi.McapiEndpointCreate | mcapi.c:428-460 | is the library step for creation, the entry not anonymous; fails only before initialisation |
| PublicApi.McapiEndpointDelete | mcapi.c:620-636 | is the library step for deletion; refuses exactly the invalid handles |
| PublicApi.McapiEndpointGetI | mcapi.c:506-522 | is the library step for a non-blocking get |
| PublicApi.McapiMsgSendI | mcapi.c:720-739 | is the library step for a send whatever the checks found, and never reports the size limit |
| PublicApi.McapiMsgRecvI | mcapi.c:860-879 | is the library step for a receive whatever the buffer and endpoint checks found; only a missing request parameter is refused, with no effect |
| PublicApi.McapiMsgAvailable | mcapi.c:985-998 | an endpoint that is not valid has no messages; otherwise the driver's count |
| PublicApi.CheckRequest | mcapi_trans_stub.c:516-523 | accepts exactly the handles whose low 16 bits name a used slot |
| PublicApi.McapiTest | mcapi.c:2684-2702 | is the library step for a test, with the parameter and handle errors, also for handles of 65536 and more that the check refuses |
| PublicApi.McapiWait | mcapi.c:2750-2769 | is the library step for a wait, with the parameter and handle errors, also for handles of 65536 and more that the check refuses |
| Client.Poll | tests/arm_sharc_msg_test.c:169-171 | polling leaves the free list alone; a finished request is reported with its recorded size, a pending one with the length the driver ends it with, and no other active request as a success |
| Client.Send | tests/arm_sharc_msg_test.c:148-214 | a send leaves the free list as it was or ends holding exactly one slot; it succeeds exactly when there is a slot, the endpoint is found and the driver takes the message at issue, or after EAGAIN in a later poll or the wait |
| Client.AwaitMessage | tests/arm_sharc_msg_test.c:234-236 | the availability loop ends exactly on a valid endpoint for which the driver gives a positive count |
| Client.Receive | tests/arm_sharc_msg_test.c:216-301 | as Send, with the message announced where asked for and not longer than the buffer; in mode 0 it issues only after a positive count, and on an invalid endpoint loops without effect |
| Client.RunRound | tests/arm_sharc_msg_test.c:370-409 | a round passes only if the driver lets both operations succeed, and, with two free slots and a valid endpoint, whenever it does |
| Client.TransRounds | tests/arm_sharc_msg_test.c:370-409 | over any number of rounds the counter grows by exactly the operations that kept their slot; with none the free list is as it began; no more rounds pass than the driver lets succeed, and a driver that lets all succeed has every round run and passed |
| PacketBuffers.InteriorAddressRecovers | mcapi_trans_stub.c:1550-1563 | with an aligned pool base every address inside a buffer recovers its slot |
| PacketBuffers.StartAddressesRecoverIffAligned | mcapi_trans_stub.c:1550-1563 | all start addresses recover their slots exactly when the base is a multiple of the message size |
| PacketBuffers.MisalignedBaseShifts | mcapi_trans_stub.c:1556-1559 | otherwise a start address names the slot before its own |
| PacketBuffers.AcceptedAddresses | mcapi_trans_stub.c:1556-1559 | with an aligned base an address names an existing slot exactly when it lies in the pool; only the one address past it is accepted besides |
| PacketBuffers.PacketRoundTrip | mcapi_trans_stub.c:1481-1563 | reserving a packet buffer and freeing it by any inner address restores the free list exactly when two slots were free |
| Scalars.WordsSent | mcapi_trans_stub.c:1767-1784 | an 8-byte word travels in two halves, the high one first; a shorter one modulo 256^size in the first word; an unknown size as zeros |
| Scalars.ReceiveUndoesSend | mcapi_trans_stub.c:1767-1830 | a receive succeeds exactly for the supported size that was sent; the word modulo 256^size is written for every supported sent size, even when the expected one differs |

## Left out

- The driver calls in trans_impl/tran_impl_dev.c beyond their result codes, and the type codes under which a scalar's size travels.
- Semaphores, shared memory, `ftok` and `mcapi_finalize`: operating system plumbing.
- Interleaving inside a call: calls are atomic steps.
- Packet and scalar channel connect, open, close, send and receive: unsupported at the public layer; only the slot and word arithmetic is kept.
- `mcapi_wait_any` and `mcapi_cancel`: unsupported at the public layer, so no request is ever cancelled.
- Blocking message send and receive: they do not touch the database.
- Message contents, and with them the client's count of matching messages.
- Node attributes, constant stub predicates, status strings and debug printing.
- `MCAPI_PORT_ANY` and request handles the library did not issue.
- RegistryRuns.EveryLiveEndpointIsReached: the lookup is claimed only within the scan bound, because past it the code reads outside the table.
- Registry.CreatedIsFound: stated for node 0 in the first slot, because the code accepts only node 0 handles and reads the first node's table.
- Client.Send: an unbounded poll loop, like the availability loop of a receive, is modelled as a finite script that may end with the client still polling.
