# asio_learn: verified models of its servers

A Dafny 4.11 model of the four hand-written protocols of the repository, with proofs
about whole runs. `dafny verify dfyconfig.toml` checks everything.

**The framed message pipeline** (`example/logicServer`, `example/BoostCoServer`).
A session turns TCP chunks into messages with a four-byte header, posts them to a queue
served by one worker, and sends the worker's answers through a queue with one write in
flight.

- `Wire` defines the frame format, the encoder and `Deframe`, the one-pass reader of a
  whole byte stream. `Deframe` is characterised from both sides (`DeframeConserves`,
  `DeframeFinds`).
- `Receiver` is a session's receiving side as a value: `Receive` is one read. It holds
  the laws of runs of reads, among them the exact condition of chunk independence.
- `MsgNodes`, `LogicQueues`, `LogicServer` are the classes with their buffers, cursors
  and queues. `CSession.HandleRead` is proved to do `Receive`, in place; `Valid` says
  that every node ever handed to the logic queue still holds its message, and
  `ReadAll` feeds a whole list of chunks to one session.
- `WriteQueues` is the write discipline (`Push`, `Completed`, `Failed`) that the logic
  server and the chat share; module `SendRuns`, in the same file, runs it against a
  socket.
- `Pipeline` composes the specifications of all these methods into one transition system
  for any number of sessions, and `Progress` says how far it can always come to rest;
  `Wakeup` is the mutex and condition-variable handshake at the queue.
- `CoReader` is the reading coroutine of BoostCoServer, which `HandleRead` refines.

**Distributed N-queens** (`example/nqueen`). `Queens` defines the set of solutions of a
partial board, `QueenServer` the in-place count, `QueenClient` the local solver and the
distribution over servers, `QueenBounds` symmetry and factorial bounds. The comparison
that the client program makes at run time is `DistributedEqualsLocal`.

**WebSocket chat** (`example/webSocket`). `Chat` is the broadcast as interleaved steps:
snapshot of the members, weak-pointer lock, post, strand, write completion, expiry and
removal. `ChatServer` has the two classes: a session's fields are, as a value, a
session of `Chat` that keeps its invariant, and the members together stay consistent.
`ChatProgress` adds that broadcasts can be finished and stopped sessions released.

The histories that the models keep (messages posted, chunks read, bytes sent, membership)
are tied to the actions of a run alone by `SendRuns.AccountOfEvents`,
`Wakeup.AccountOfActions`, `Pipeline.AccountOfActions` and `Chat.AccountOfActions`.

## Results that correct expectations

- The head node's cursor is never advanced (example/logicServer/CSession.cc:91-99), so a
  read that ends inside a header loses its one to three bytes.
  `Receiver.ChunkIndependentExactly` shows that a session stays in step with a one-pass
  reader exactly when no read boundary falls strictly inside a header, and
  `Receiver.SplitHeaderLosesMessage` gives the smallest loss.
  `Receiver.AdvancingIsChunkIndependent` is about the intended behaviour, with the cursor
  advanced: it holds for every chunking.
- The coroutine takes an empty body for the end of the connection, `HandleRead` posts it
  (example/BoostCoServer/CSession.cc:86-96): `CoReader.RefinesCoroutine` says exactly when
  the two agree, and `CoReader.EmptyFrameTellsThemApart` gives the smallest input on
  which they do not.
- The distributed and the local count differ for n = 0, and whenever a reply does not fit
  its 32 bits or a failed task had solutions: `QueenClient.DistributedEqualsLocal` is an
  if-and-only-if.

## Modelling decisions

- A negative length (only lengths above the limit are rejected by the program) gives the
  status `Faulted`. For lengths below -1 the allocation throws, the handler logs and
  returns without reading again; for -1 the program writes before its buffer, which has no
  defined meaning. The model promises that nothing more is posted.
- An asynchronous operation of the socket is a record that it is outstanding
  (`readsArmed`, `writesInFlight`); a handler runs as its completion and takes it off the
  record. A completed write has transmitted every byte; a failed one any part. A socket
  that a read error has closed transmits no more; a write of it whose bytes were all sent
  may still complete.
- `LogicSystem.DealMsg` takes what the other threads did between two acquisitions of the
  mutex as an input; `called` lists the nodes passed to callbacks. A callback is a
  function from a message to its reply (`Pipeline.Callbacks`).
- 32-bit counters wrap around (`Wrap32`); 64-bit totals are unbounded, and
  `QueenClient.AgreeUpTo13` shows that up to 20 queens they do not overflow. A negative n
  makes the service throw, which the caller sees as a failed RPC.
- The two halves of the reading loop share their last part, `TakeBody`, and its turns are
  methods of their own; the two overloads of `Send` and the two safety tests of the
  N-queens programs are one method each.

## Model

| member | source | states |
|---|---|---|
| Wire.DeframeConserves | example/logicServer/CSession.cc:110-160 | Whatever the bytes: the messages read, encoded, and the remainder make up the stream; every message is within the limits; reading stops exactly at a header with an id or length above 2048 or a negative length. |
| Wire.DeframeFinds | example/logicServer/CSession.cc:110-160 | Any split of a stream into acceptable messages and an incomplete frame is the one the reader finds, so the reading is unique. |
| Wire.RoundTrip | example/logicServer/MsgNode.cc:6-17 | Reading the encodings of a list of messages returns that list with nothing left over if and only if every id and length is at most 2048. |
| Wire.DeframeAppend | example/logicServer/CSession.cc:86-216 | Reading may stop after any prefix and go on from its remainder. |
| Wire.ReadsBytes | example/logicServer/CSession.cc:102-160 | What the reader makes of the first bytes of any stream, in numbers: id and length in network byte order, accepted up to 2048, cleared above, faulted if the length is negative, waiting while the frame is incomplete. |
| Wire.EncodedBytes | example/logicServer/MsgNode.cc:6-17 | The encoding of a message byte by byte: id in two's complement and length, more significant byte first, then the payload. |
| Receiver.ChunkIndependence | example/logicServer/CSession.cc:81-216 | With no boundary inside a header, the posts, the held bytes and the rejection of any chunking are those of one pass over the stream. |
| Receiver.ChunkIndependentExactly | example/logicServer/CSession.cc:91-99 | A session agrees with the one-pass reader at every point, whatever the next read brings, if and only if no boundary falls strictly inside a header. |
| Receiver.SplitHeaderLosesMessage | example/logicServer/CSession.cc:91-99 | A concrete frame cut after its first byte that is never posted. |
| Receiver.BytesConserved | example/logicServer/CSession.cc:86-216 | While the session is open, whatever the chunking: bytes read = 4 + length of every posted message + bytes held + header bytes dropped. |
| Receiver.NothingDroppedExactly | example/logicServer/CSession.cc:91-99 | No byte is dropped if and only if no boundary falls strictly inside a header. |
| Receiver.HoldsNoPartialHeader | example/logicServer/CSession.cc:134-147 | Between reads a session holds nothing, or a whole header with a proper part of its body. |
| Receiver.SessionRoundTrip | example/logicServer/CSession.cc:81-216 | Encodings of acceptable messages read in admissible chunks are posted as exactly those messages, nothing left over. |
| Receiver.AdvancingIsChunkIndependent | example/logicServer/CSession.cc:90-99 | The intended behaviour: with the cursor advanced every chunking agrees with the one-pass reader. |
| MsgNodes.MsgNode.Send | example/logicServer/MsgNode.cc:6-17 | The node's buffer is the encoding: two bytes of id and two of length, the more significant first, then the payload, then a zero byte. |
| MsgNodes.MsgNode.Recv | example/logicServer/MsgNode.h:9-12 | A new node is zeroed, its cursor at 0, with one byte more than the announced length. |
| MsgNodes.MsgNode.Clear | example/logicServer/MsgNode.h:19-22 | The contents are zeroed and the cursor is back at 0. |
| LogicServer.CSession.Start | example/logicServer/CSession.cc:31-37 | One read is armed on a cleared buffer. |
| LogicServer.CSession.TakeHeader | example/logicServer/CSession.cc:102-132 | The header is copied and checked; forbidden ids and lengths clear the session, otherwise a fresh body node is made with the id and length that the four bytes give in network order. |
| LogicServer.CSession.TakeBody | example/logicServer/CSession.cc:134-214 | The body takes its share of the chunk; a complete message is posted and the head node cleared, a partial one kept, and a read is armed when the chunk is used up. |
| LogicServer.CSession.HandleRead | example/logicServer/CSession.cc:81-225 | Takes the one outstanding read, posts exactly the messages that `Receive` finds, in order, and holds what it holds; afterwards exactly one read is outstanding, or none if the session was cleared or faulted, and every node ever handed over still holds its message. An error closes and clears the session. |
| LogicServer.CSession.ReadAll | example/logicServer/CSession.cc:81-225 | Over a whole run of reads the posts are those of `ReceiveAll`, all nodes posted hold their messages to the end, one read is outstanding exactly while the session is open, and further reads, or the error that ends the session, may follow. |
| LogicServer.CSession.Send | example/logicServer/CSession.cc:38-75 | A call on a queue of more than 1000 nodes changes nothing; otherwise the encoded message is queued, and written at once only if nothing else was queued. |
| LogicServer.CSession.HandleWrite | example/logicServer/CSession.cc:226-248 | Success pops the front and starts the next write; failure pops nothing, starts nothing, closes and clears the session. |
| SendRuns.EveryRun | example/logicServer/CSession.cc:38-75 | In every interleaving: one write, of the front, is in flight exactly while the queue is not empty until a write fails, and none from then on; the wire is a prefix of the accepted nodes in order; at most 1001 queued; completed + queued + dropped = calls. |
| SendRuns.AccountOfEvents | example/logicServer/CSession.cc:38-75 | Every call is accepted or dropped, every completion ends one more node, and every byte transmitted is on the wire. |
| SendRuns.DroppedExactlyWhenFull | example/logicServer/CSession.cc:59-64 | A call is dropped exactly when it finds 1001 queued nodes; otherwise its node is accepted after those before it. |
| SendRuns.NoWriteAfterFailure | example/logicServer/CSession.cc:226-248 | After a failed write no write is ever started and no byte sent, in every continuation. |
| LogicQueues.LogicSystem.PostMsgToQue | example/logicServer/LogicSystem.cc:73-80 | The message is appended; a notification is sent exactly when the queue was empty. |
| LogicQueues.LogicSystem.DealFront | example/BoostCoServer/LogicSystem.cc:60-72 | The front message is popped, and its callback run if its id is registered, keeping the account of everything posted. |
| LogicQueues.LogicSystem.DealMsg | example/BoostCoServer/LogicSystem.cc:35-74 | Popped messages followed by the queue are everything posted; callbacks ran for exactly the popped messages with a registered id, in order; a turn that finds a message pops exactly one; the worker leaves its loop in the first turn in which it gets past the wait and sees the stop flag, with the queue emptied. |
| LogicQueues.HandledExactly | example/BoostCoServer/LogicSystem.cc:35-74 | The number handled in a list of turns: the least, over all points k, of what was posted by then plus the turns since. |
| Wakeup.StepKeepsInv | example/logicServer/LogicSystem.cc:11-49 | Every step of any thread keeps mutual exclusion, first-in-first-out order, and that a waiting worker with a non-empty queue is owed a notification. |
| Wakeup.AccountOfActions | example/logicServer/LogicSystem.cc:36-80 | From the actions of any run alone: each producer's messages are posted in the order it was asked to, each handling takes one, and a producer notifies once for each push that found the queue empty and never otherwise. |
| Wakeup.NeverLostWakeup | example/logicServer/LogicSystem.cc:73-80 | In every reachable state with any number of producers: no lost wakeup, and posted = popped + queued. |
| Wakeup.SomebodyMoves | example/logicServer/LogicSystem.cc:11-80 | While messages are queued some thread can move without a spurious wakeup or a new post: no deadlock. |
| Wakeup.EveryRunDrains | example/logicServer/LogicSystem.cc:11-80 | Under any scheduling, a run without new posts longer than a computed bound has emptied the queue. |
| Wakeup.CanDrain | example/logicServer/LogicSystem.cc:11-80 | From every reachable state the threads can run, without spurious wakeups, until everything posted has been handled. |
| Wakeup.CanHandleAll | example/logicServer/LogicSystem.cc:11-80 | Any run has a continuation without posts and spurious wakeups in which everything that the producers were asked to post is handled, each producer's in order. |
| Pipeline.StepKeepsInv | example/logicServer/CSession.cc:38-248 | Every read, post, worker step and write of any session keeps each session's order and accounting. |
| Pipeline.AccountOfActions | example/logicServer/CSession.cc:81-225 | In every run the sessions are those accepted, each with exactly the chunks read of it, in order; the worker pops one node in each of its steps; nodes are queued in the order of all posts. |
| Pipeline.ExactlyOnceInOrder | example/logicServer/LogicSystem.cc:36-47 | In every run a session's popped, queued and still unposted messages, in that order, are those that the chunks read of it decode to; with no header cut, the frames of its stream. |
| Pipeline.AnswersInOrder | example/logicServer/LogicSystem.cc:55-67 | A session's wire is a prefix of its accepted answers, which are the answers to its popped messages in request order, all of them if and only if none was dropped. |
| Pipeline.EndToEnd | example/logicServer/CSession.cc:38-248 | With no header cut, a peer reading the wire has, at any moment, some of the replies to the frames of the stream read of it in the run, in order and each at most once; with no answer dropped, a prefix of them. |
| Pipeline.AllAnsweredAtRest | example/logicServer/CSession.cc:38-248 | With no header cut and no write failed, a session with nothing unposted or queued and no write in flight has written exactly the encoded replies to the frames of the stream read in the run, in order, as many missing as were dropped. |
| Pipeline.NothingSentOnceClosed | example/logicServer/CSession.cc:76-79 | Once a read or a write of a session has failed, its socket is closed and its wire is the same in every continuation. |
| Progress.CanRest | example/logicServer/CSession.cc:38-248 | From every reachable state some run without new connections, reads, read errors or failed writes leaves nothing unposted or queued, and every session none of whose reads or writes had failed with all accepted answers written; on the wires of the others nothing is added. |
| Progress.CanServe | example/logicServer/CSession.cc:38-248 | Any chunks of 1 to 2048 bytes, none after a rejection, can be served: some run reads exactly these and comes to rest, having sent, if no header is cut, the encoded replies to their frames except those dropped. |
| Progress.AnythingMayHappen | example/logicServer/CSession.cc:81-248 | Once a session's handler has posted, any chunk or an error may arrive; anybody may connect; a write in flight may fail, and transmit any part of itself. |
| CoReader.CoSession.ReadMessage | example/BoostCoServer/CSession.cc:46-102 | One exact read of header and body posts the first message of the remaining stream, or ends the session: too few bytes, forbidden header, empty body. |
| CoReader.CoSession.Start | example/BoostCoServer/CSession.cc:40-110 | The coroutine posts exactly the messages in front of the first empty one, notifying the worker if the queue was empty, and always ends cleared; it stays unclosed only after a forbidden id or length. |
| CoReader.RefinesCoroutine | example/BoostCoServer/CSession.cc:46-102 | Under any admissible chunking the coroutine's posts are a prefix of `HandleRead`'s, and the same if and only if no message is empty. |
| CoReader.EmptyFrameTellsThemApart | example/BoostCoServer/CSession.cc:86-96 | One frame with an empty body: `HandleRead` posts it, the coroutine posts nothing. |
| Queens.SolutionsExactly | example/nqueen/nqueen_server.cc:41-71 | The counted set is exactly the peaceful boards that keep the fixed rows and fill the free ones with columns 0 to n-1. |
| Queens.SolutionsAre | example/nqueen/nqueen_server.cc:41-71 | The same in plain numbers: no two queens with the same column, sum or difference of row and column. |
| Queens.SafeMeans | example/nqueen/nqueen_server.cc:64-71 | A square is safe exactly when no queen above has its column, its sum or its difference of row and column. |
| Queens.FourQueens | example/nqueen/nqueen_server.cc:41-71 | Four queens have exactly the two solutions 1,3,0,2 and 2,0,3,1. |
| QueenServer.IsSafe | example/nqueen/nqueen_server.cc:64-71 | True exactly when no queen above attacks the square. |
| QueenServer.SolveFrom | example/nqueen/nqueen_server.cc:41-62 | Adds, modulo 32 bits, exactly the number of solutions of the board, fixed rows below free ones included, and leaves the board as it found it. |
| QueenServer.Solve | example/nqueen/nqueen_server.cc:23-37 | The reply is, modulo 32 bits, the number of solutions of the partial board brought up to n rows; a negative n fails the RPC. |
| QueenServer.Padded | example/nqueen/nqueen_server.cc:26-31 | The rows given are kept, missing ones are free, and there are at least n. |
| QueenServer.WrapMeans | example/nqueen/nqueen_server.cc:33-44 | The 32-bit counter differs from the true count by a multiple of 2^32. |
| QueenClient.LocalNQueenSolver.Backtrack | example/nqueen/nqueen_client.cc:88-100 | Adds exactly the number of solutions that extend the placed rows and restores the board. |
| QueenClient.LocalNQueenSolver.Solve | example/nqueen/nqueen_client.cc:77-81 | The total is the number of n-queens boards. |
| QueenClient.ClientSolve | example/nqueen/nqueen_client.cc:50-65 | The server's reply, or 0 when the RPC fails. |
| QueenClient.DistributeTasks | example/nqueen/nqueen_client.cc:112-163 | The collected sum is that of the replies to the n tasks, a failed one counting 0; every task goes to a port of one of the servers. |
| QueenClient.RoundRobin | example/nqueen/nqueen_client.cc:129-131 | Over a positive number of servers the tasks go to ports 50051, 50052 and so on, and after the last to the first again. |
| QueenClient.TasksPartition | example/nqueen/nqueen_client.cc:149-155 | After k replies the sum is at most the number of solutions with the first queen in those k columns, and equal if and only if every reply was faithful. |
| QueenClient.DistributedEqualsLocal | example/nqueen/nqueen_client.cc:211-216 | The distributed sum never exceeds the local count, and equals it if and only if n >= 1 and every task either succeeded with a count that fits 32 bits or failed with nothing to count. |
| QueenClient.AgreeUpTo13 | example/nqueen/nqueen_client.cc:211-216 | With all servers reachable both sides agree for 1 to 13 queens; up to 20 queens the total fits 64 bits. |
| QueenClient.MirrorTasks | example/nqueen/nqueen_client.cc:115-119 | The tasks for column c and column n-1-c get the same reply. |
| QueenBounds.MirrorCount | example/nqueen/nqueen_server.cc:41-71 | A partial board and its mirror image have equally many solutions, by a bijection. |
| QueenBounds.AtMostFact | example/nqueen/nqueen_server.cc:41-71 | A search entered at a row with the rows above placed finds at most (n - row)! solutions. |
| QueenClient.CountBounds | example/nqueen/nqueen_client.cc:88-100 | The whole count is at most n!, a task's at most (n-1)!. |
| Chat.StepKeepsInv | example/webSocket/shared_state.cc:18-52 | Every step of any session keeps the broadcast, ownership and write invariants. |
| Chat.AccountOfActions | example/webSocket/websocket_session.cc:37-72 | From the actions of any run alone: which sessions exist, are alive and are members, and what each reads: it stops only when its accept or a read has failed, has read as many messages as it began broadcasts, and reads again after each. |
| Chat.BroadcastOrder | example/webSocket/websocket_session.cc:54-121 | In every run a session gets each sender's messages in order without repeats and writes them in that order; one write, of the front, is in flight exactly while its queue is not empty until a write fails, and none from then on; no member is destroyed. |
| Chat.BroadcastExactlyOnce | example/webSocket/shared_state.cc:31-52 | A broadcast reaches a member that stays alive exactly once, nobody twice, and no session that was not a member when it looked. |
| Chat.CanDeliver | example/webSocket/websocket_session.cc:88-121 | A session whose reads and writes have not failed can write all that it got by running its own posted handlers and writes. |
| ChatProgress.CanBroadcast | example/webSocket/shared_state.cc:31-52 | A reading session can, by steps of its own alone and in any order of the members, get its next message to every live member exactly once, and then reads again. |
| ChatProgress.CanLeave | example/webSocket/websocket_session.cc:21-25 | A session that has stopped reading can always be released: some run destroys it and it is no member. |
| ChatProgress.CanJoin | example/webSocket/websocket_session.cc:37-52 | From any state a new session can be accepted; it is then a member and reads. |
| ChatProgress.MayFail | example/webSocket/websocket_session.cc:37-121 | An accept, a read and a write may each succeed or fail at any time. |
| Chat.NoWriteAfterFailure | example/webSocket/websocket_session.cc:105-109 | A session whose write failed starts and completes no write in any continuation. |
| ChatServer.SharedState.Join | example/webSocket/shared_state.cc:18-22 | The session is a member afterwards, the others are kept. |
| ChatServer.SharedState.Leave | example/webSocket/shared_state.cc:24-28 | The session is no member afterwards, the others are kept. |
| ChatServer.SharedState.Send | example/webSocket/shared_state.cc:31-52 | Each member that has not expired is posted the message once, and nothing else changes. |
| ChatServer.WebsocketSession.OnAccept | example/webSocket/websocket_session.cc:37-52 | Without an error the session joins and arms one read; with one it does neither; the members stay consistent. |
| ChatServer.WebsocketSession.OnRead | example/webSocket/websocket_session.cc:54-72 | Takes the outstanding read. Without an error every live member is posted the message once and one read is outstanding again; with one nobody is posted anything. The members stay valid, and nobody has got a message not yet read. |
| ChatServer.WebsocketSession.OnSend | example/webSocket/websocket_session.cc:88-103 | The first posted handler runs: its message is queued, and written at once only if it is the only one, as in a step of `Chat`; the session stays valid. |
| ChatServer.WebsocketSession.OnWrite | example/webSocket/websocket_session.cc:105-121 | Takes the write in flight: success removes the front and starts the next write, failure does neither, as in a step of `Chat`; the session stays valid. |
| ChatServer.WebsocketSession.Destroy | example/webSocket/websocket_session.cc:21-25 | An expired session leaves the members, and the members stay consistent. |

## Left out

- Sockets, acceptors, strands, threads and condition variables as implementations: they appear as steps with their documented guarantees.
- JSON, logging, UUID generation, timing measurements, exceptions other than those named above, and the release of memory.
- The stop branch of the logic server (example/logicServer/LogicSystem.cc:18-34): it has no `break`, so after draining it would take the front of an empty queue; the drain property is proved of the BoostCoServer version.
- That the worker does leave its loop on stop: the flag is set without the mutex, so its notification can be missed (example/BoostCoServer/LogicSystem.cc:16-20).
- The write path of BoostCoServer: follow-up writes are sized by a cursor that the encoder never sets (example/BoostCoServer/CSession.cc:148-149).
- LogicServer.CSession.Send: requires a payload of at most 32763 bytes; a longer one makes a node length that does not fit a short, and the program has no defined answer to that.
- A negative board size in the local solver, where the vector's constructor throws.
- The generated RPC and protocol-buffer code, the HTTP servers, service pools, `CServer` beyond `ClearSession`, the echo programs and the client mains.
- CoReader.CoSession.Start: does not model `_b_close` being set by a failed write while the coroutine is reading; the stream is all the bytes that its reads deliver.
- ChatServer.SharedState.Send: a message is represented by its tag (sender and number), its text being immutable; one thread's view: what other threads do between the snapshot and the posts is in `Chat`.
- That a failed write also ends the reads of its session, and in the chat a failed read its writes: such a read or write may still succeed in `Pipeline` and `Chat`, so their safety results cover more runs than exist, while `Chat.CanDeliver` and `Progress.CanRest` do not rest on these runs.
