# Permission-based mutual exclusion: one node's decision logic

This project models, in Dafny, the per-node core of a Ricart–Agrawala style
mutual-exclusion protocol (Ricart and Agrawala, CACM 1981) as the program
`trabalho_sd_dalton/codigo_fonte/algoritmo_sd.py` implements it. Each node of a four-node
cluster (ids 1 to 4) keeps four variables:

- whether it is accessing the shared data;
- a FIFO queue of deferred `(id, timestamp)` requests;
- the number of grants it has received;
- the timestamp of its own request.

The node exchanges two text messages, `REQ:<id>:<timestamp>` and `GRANT:<id>`.

The model has two layers:

- `protocol.dfy` (module `Protocol`) describes each handler as a pure step function. The function takes a `NodeState` and returns the next state together with the messages sent.
- `coordinator.dfy` (module `Node`) holds the class `Coordinator`. It keeps the same variables as fields plus an `outbox` of every message sent. Its methods update those fields step by step: the broadcast loop, the queue-draining loop, and the append or increment of a handled message. Each handler method (`HandleMessage`, `RequestAccess`, `Enter`, `Release`) is proved to have exactly the effect of the matching step function.

`wire.dfy` models how messages are formatted and read back. `text.dfy` supplies Python's `str.split` on one character, and decimal rendering and parsing of numbers.

The model follows the code as written, not the textbook protocol. Where this differs from the protocol's usual description, the code was followed:

- The "accessing" flag is set on entry and never cleared. `CriticalSectionIsSticky` proves that, once the flag is set, the node stays in the critical section whatever events follow, and defers every later request.
- Releasing does not clear the node's own timestamp.
- Starting a new request empties the queue without granting the requesters in it. `RestartDropsDeferredRequester` proves this.
- The own timestamp is tested for truth. An absent timestamp and a zero one both mean "no request" (`Protocol.Claiming`).
- Grants are counted even when the node is not requesting, and duplicate grants are not detected.
- A request whose fields are missing or are not numbers raises an exception before any state changes. It is not silently discarded: `Coordinator.HandleMessage` reports it with `ok == false` and changes nothing.

Timestamps and node ids are natural numbers. The current time is a parameter of `RequestAccess` and of the `StartRequest` event, and the node's id is a constructor parameter. Every send is an unconditional append to the outbox, because the program catches and ignores send failures.

## Model

| member | source | states |
|---|---|---|
| Text.Split | trabalho_sd_dalton/codigo_fonte/algoritmo_sd.py:102 | splitting on ':' always yields at least one piece, no piece contains ':', and joining the pieces with ':' gives back the payload |
| Text.SplitJoin | trabalho_sd_dalton/codigo_fonte/algoritmo_sd.py:102 | splitting undoes joining when no piece contains the separator (the inverse direction of Split's contract) |
| Text.ShowNat | trabalho_sd_dalton/codigo_fonte/algoritmo_sd.py:64 | the decimal rendering of a number is a non-empty digit string without a leading zero (except for 0 itself), as str() gives it, and parsing it gives the number back |
| Text.ParseNat | trabalho_sd_dalton/codigo_fonte/algoritmo_sd.py:106 | parsing succeeds exactly on non-empty strings of decimal digits |
| Text.ShowParse | trabalho_sd_dalton/codigo_fonte/algoritmo_sd.py:106 | the converse round trip: a digit string without leading zeros that parses to n is the rendering of n |
| Text.LeadingZeroIgnored | trabalho_sd_dalton/codigo_fonte/algoritmo_sd.py:106 | leading zeros are accepted and do not change the value: for every non-empty digit string s, "0" + s parses to the same number as s, as with int() (so "012" parses to 12) |
| Wire.Format | trabalho_sd_dalton/codigo_fonte/algoritmo_sd.py:64 | splitting `REQ:<id>:<ts>` on ':' gives `["REQ", id, ts]`, and splitting `GRANT:<id>` (line 91) gives `["GRANT", id]` |
| Wire.Decode | trabalho_sd_dalton/codigo_fonte/algoritmo_sd.py:102-117 | the first piece decides the message: a payload is a grant exactly when its tag is GRANT, and a request or a malformed request exactly when its tag is REQ. A REQ is a request exactly when there are at least three pieces and the second and third parse as numbers, and then the requester and timestamp are those parsed values (extra pieces ignored); otherwise it is malformed |
| Wire.DecodeFormat | trabalho_sd_dalton/codigo_fonte/algoritmo_sd.py:102-106 | a formatted request decodes to the same requester and timestamp, and a formatted grant decodes as a grant |
| Protocol.Claiming | trabalho_sd_dalton/codigo_fonte/algoritmo_sd.py:108 | the truth test on the own timestamp: it holds exactly when a timestamp is present and non-zero, so a zero timestamp counts as no request |
| Protocol.Precedes | trabalho_sd_dalton/codigo_fonte/algoritmo_sd.py:109-110 | the priority rule: the earlier timestamp goes first, and equal timestamps go to the lower id; its order properties are proved in Protocol.PrecedesIsStrictTotal |
| Protocol.Defers | trabalho_sd_dalton/codigo_fonte/algoritmo_sd.py:108-110 | the guard of the REQ branch: inside the critical section it always defers; outside it, it defers exactly when there is an outstanding own request whose (timestamp, id) precedes the requester's |
| Protocol.OnRequest | trabalho_sd_dalton/codigo_fonte/algoritmo_sd.py:105-115 | a REQ either queues the requester at the back and sends nothing, or sends exactly one GRANT:self to it and keeps the queue, never both. In the critical section it always defers. With no own request (absent or zero) and outside the critical section it always grants. While requesting, it defers exactly when the own (timestamp, id) precedes the requester's. Flag, count and timestamp are unchanged, and the queue grows only while in the critical section or requesting |
| Protocol.Receive | trabalho_sd_dalton/codigo_fonte/algoritmo_sd.py:105-119 | a decoded REQ is handled exactly as Protocol.OnRequest decides (deferred at the back of the queue, or granted at once). A GRANT adds exactly one to the count, whether or not the node is requesting, and changes nothing else. An unknown tag changes nothing and sends nothing. Only a request is ever answered, with one GRANT to the requester |
| Protocol.GrantsTo | trabalho_sd_dalton/codigo_fonte/algoritmo_sd.py:79-81 | one GRANT:self per queued requester, at the same position as the requester in the queue |
| Protocol.ReleaseStep | trabalho_sd_dalton/codigo_fonte/algoritmo_sd.py:74-82 | draining sends exactly one GRANT:self to each deferred requester, in FIFO order, and empties the queue. It leaves the flag, the own timestamp and the count alone |
| Protocol.Broadcast | trabalho_sd_dalton/codigo_fonte/algoritmo_sd.py:59-67 | every broadcast message is REQ:self:ts and goes to a listed node other than self |
| Protocol.BroadcastReachesEachOnce | trabalho_sd_dalton/codigo_fonte/algoritmo_sd.py:59-67 | over distinct ids, the broadcast reaches every id other than self, once each (no two messages share a destination), so its length is the number of ids minus one when self is among them |
| Protocol.BroadcastToPeers | trabalho_sd_dalton/codigo_fonte/algoritmo_sd.py:12-24 | a cluster member's broadcast sends NUM_DISPOSITIVOS = len(PORTAS) - 1 = 3 requests, one to each other member and none to itself |
| Protocol.RequestStep | trabalho_sd_dalton/codigo_fonte/algoritmo_sd.py:52-67 | starting a request sets the own timestamp, resets the count to 0 and empties the queue, keeping the flag. It sends REQ:self:ts to every id of the cluster other than self, once each (no two messages to the same node), which is NUM_DISPOSITIVOS = 3 messages for a cluster member. It sends nothing else and nothing to self, so no dropped requester is granted |
| Protocol.HasQuorum | trabalho_sd_dalton/codigo_fonte/algoritmo_sd.py:69 | the exit condition of the waiting loop: at least NUM_DISPOSITIVOS = 3 grants received |
| Protocol.EnterStep | trabalho_sd_dalton/codigo_fonte/algoritmo_sd.py:69-72 | entry requires a grant count of at least NUM_DISPOSITIVOS. Entry sets the flag (line 34) and changes nothing else |
| Protocol.PrecedesIsStrictTotal | trabalho_sd_dalton/codigo_fonte/algoritmo_sd.py:108-110 | the priority rule (earlier timestamp, ties to the lower id) is irreflexive and transitive. Of two requests from distinct nodes, exactly one has priority |
| Protocol.ExactlyOneYields | trabalho_sd_dalton/codigo_fonte/algoritmo_sd.py:108-114 | two distinct nodes, both requesting and neither in the critical section, that receive each other's REQ: exactly one grants the other |
| Protocol.Apply | trabalho_sd_dalton/codigo_fonte/algoritmo_sd.py:48-119 | one event of either thread, handled atomically: the flag becomes set only by a poll that finds the quorum, and is never cleared. Every message sent carries the node's own id |
| Protocol.Run | trabalho_sd_dalton/codigo_fonte/algoritmo_sd.py:121-155 | over any sequence of events, the node only sends grants and requests in its own name, and it gets from outside into the critical section only through a poll of the waiting loop |
| Protocol.CriticalSectionIsSticky | trabalho_sd_dalton/codigo_fonte/algoritmo_sd.py:29-46 | once the flag is set, no sequence of well-formed deliveries, request starts, polls and releases clears it. Every request received afterwards is deferred |
| Protocol.IdleNodeGrants | trabalho_sd_dalton/codigo_fonte/algoritmo_sd.py:113-115 | a fresh node 1 receiving the text REQ:3:12345 sends exactly GRANT:1 to node 3 and keeps its state |
| Protocol.EarlierOwnRequestDefers | trabalho_sd_dalton/codigo_fonte/algoritmo_sd.py:108-112 | node 1 whose own request is stamped 12340 queues requester 3 (stamped 12345) and sends nothing |
| Protocol.DrainFollowsArrivalOrder | trabalho_sd_dalton/codigo_fonte/algoritmo_sd.py:79-81 | requests from b then c, deferred in the critical section, are granted once each, b first, on release |
| Protocol.RestartDropsDeferredRequester | trabalho_sd_dalton/codigo_fonte/algoritmo_sd.py:53-55 | a node that has entered the critical section and drained its queue defers the next REQ it receives; its next request start removes that requester from the queue, and no GRANT is ever sent to it |
| Node.Coordinator.constructor | trabalho_sd_dalton/codigo_fonte/algoritmo_sd.py:20-23 | a node starts outside the critical section, with an empty queue, no grants, no own request and nothing sent |
| Node.Coordinator.SendGrant | trabalho_sd_dalton/codigo_fonte/algoritmo_sd.py:84-94 | sending a grant appends exactly GRANT:self for that node to the outbox and changes nothing else |
| Node.Coordinator.HandleMessage | trabalho_sd_dalton/codigo_fonte/algoritmo_sd.py:96-119 | handling a payload has the effect of Receive on the decoded message: the new state and the messages sent are Receive's. A malformed REQ is reported (ok false) and changes nothing |
| Node.Coordinator.RequestAccess | trabalho_sd_dalton/codigo_fonte/algoritmo_sd.py:48-67 | the reset of the request state and the broadcast loop have exactly RequestStep's effect on the state and the outbox |
| Node.Coordinator.Enter | trabalho_sd_dalton/codigo_fonte/algoritmo_sd.py:33-34 | with a quorum of grants, entry has exactly EnterStep's effect |
| Node.Coordinator.Release | trabalho_sd_dalton/codigo_fonte/algoritmo_sd.py:74-82 | the pop-and-grant loop has exactly ReleaseStep's effect: each deferred requester gets one GRANT in FIFO order and the queue ends empty |
| Node.Coordinator.RegisterAccess | trabalho_sd_dalton/codigo_fonte/algoritmo_sd.py:29-46 | one access with a quorum: entry followed by the drain of the queue, with the flag left set |

## Left out

- Sockets, connecting, accepting and receiving (lines 62-65, 89-92, 121-135) are not modelled: every send becomes an append to the outbox. That includes a grant to an id missing from the host table, which the program's caught `KeyError` turns into a failed send: nothing is sent, and the error message printed at line 94 is left out with the rest of the console output.
- The server and client threads and their races on the shared variables (lines 145-155) are not modelled: each handler call is one atomic step. No multi-node safety proof is attempted. `ExactlyOneYields` is the two-node decision fact such a proof would rest on.
- The polling wait (lines 69-70) becomes the precondition `HasQuorum` of `Enter` and `RegisterAccess`, and the `PollQuorum` event of `Protocol.Run`. The ten-second hold (line 43) and the random sleeps (lines 143, 152) are left out.
- `Protocol.Run` accepts client events in any order. The program's client thread only ever runs request start, polls, then access and drain. The lemmas about `Run` therefore cover a superset of the program's runs.
- The file lock, the log-file line, the time-zone formatting and the console output (lines 36-44 and every `print`) are external I/O and are not modelled.
- Timestamps are whole numbers, not the floats of `time.time()`. `float()` parsing (line 106) is modelled as decimal-digit parsing: signs, whitespace, underscores between digits (`1_0`), non-ASCII decimal digits, decimal points, exponents and `inf`/`nan` are not accepted. The same holds for `int()` on the requester id.
- The node id read from the environment (line 11) is a constructor parameter. The clock (line 53) is a parameter of `RequestAccess`.
- Wire.Decode: a malformed REQ is reported as `Malformed`. In the program the exception ends the server thread, so no later message is handled; the model does not capture that halt. `Protocol.Run` only admits well-formed deliveries.
- Protocol.Receive: a bare `GRANT` without an id is counted like any grant. The program then raises an `IndexError` in its log print (line 119), after the increment, and that exception is not modelled.
