# Verified models of the game-server kit

This project models the algorithms and protocols of the server kit as Dafny modules and proves
what they promise. Check it with `dafny verify dfyconfig.toml`.

| file | what it models |
|---|---|
| Explorer.dfy | the grid explorer of the NPC web demo: two breadth-first passes, backtracking, the fallback, and whole runs of ticks |
| PriorityQueue.dfy, PriorityChannel.dfy | the max-heap with handles, and the bounded channel on top of it |
| CycleChannel.dfy | the overwrite-oldest ring buffer with free-running 32-bit cursors |
| MessageFrame.dfy | the fixed-layout message frame and the length-prefixed stream |
| Membership.dfy, MembershipRuns.dfy | acceptor and client handlers of the server as a state machine over atomic steps, and what a finished join, leave, admission or ending has done |
| GroupAdmission.dfy | concurrent admission to a group or scope |
| ScopeData.dfy, ScopeRaces.dfy | the byte accounting of a scope, for calls that follow one another and for calls that overlap |
| BehaviourTree.dfy, BehaviourMeaning.dfy, BehaviourLaws.dfy, CooldownRuns.dfy | ticks of behaviour trees, what each node does in terms of its children's results, algebraic laws, and the spacing a cooldown guarantees |
| TreeLoader.dfy | the memoising builder of trees from a declaration |
| AtomicDeltas.dfy | merging a batch of deltas into an atomic integer |
| FieldTransactions.dfy | optimistic transactions and merges on one field, interleaved |
| Sharding.dfy | rounding a shard count up to a power of two and choosing shards by mask |
| RunningMean.dfy | the truncating running averages of latencies |
| Basics.dfy | optional values, sizes of finite sets, sums over maps, uniqueness of remainders |

Code that works in place is modelled in place: classes over fields, arrays and maps whose methods are
proved against functions on plain data, and the properties are lemmas about those functions.
Concurrent code is a state machine whose steps are its atomic operations; its results hold in every
interleaving. Machine integers wrap where the source's do.

Promises that hold only in part are stated with the exact condition under which they hold:

- A message of fewer than 32 payload bytes is never received. The comment beside the header size
  (internal/core/protocol/quic/stream.go:230) says 234 bytes, but the sum there is 202, while the
  parser asks for 234 (line 283). The model follows the code.
- A ring buffer whose size does not divide 2^32 loses an item's place once its cursors wrap.
- An explorer with no safe neighbour jumps to cell (0, 0).
- A group can exceed its limit by one less than the number of additions in flight, and reaches that.
- Inverting a Selector differs from a Sequence of inverted children when children report errors.
- A batch with several newest Sets that disagree depends on the order a sort leaves them in.
- Rounding up to a power of two fails for numbers with a gap of 32 zero bits below the highest, the
  first of them 2^32 + 1.
- The byte count of a scope goes wrong when a set overlaps another call on its key, and size limits
  above 2^63 can be passed by a sum that wraps around.
- A send that saw its channel open may still add its item after the channel was closed.
- The comment on Transaction speaks of 25 retries (internal/core/fields/field_accessor.go:236); the
  constant is 10 (line 13). The model follows the code.

## Model

| member | source | states |
|---|---|---|
| `Explorer.Bfs` | examples/npc_web/main.go:391-421 | One search pass succeeds exactly when some unvisited cell can be reached through allowed cells. Then its target ends the first of all shortest such paths, comparing direction by direction with right before left before down before up, and its parent links spell that path out |
| `CellPaths.Search.DiscoveryIsNearest` | examples/npc_web/main.go:411-416 | Returning when an unvisited cell is discovered, before it is dequeued, is early enough: no other path to an unvisited cell is shorter |
| `CellPaths.Search.DiscoveryIsFirst` | examples/npc_web/main.go:399-416 | That path is also the first of all shortest ones to any unvisited cell, in the order right, left, down, up: equally near targets are never chosen otherwise |
| `CellPaths.Search.TrailIsFirst` | examples/npc_web/main.go:397-417 | The path recorded for each queued cell is the first of all shortest paths to that cell |
| `CellPaths.Search.EarliestExtends` | examples/npc_web/main.go:411-417 | Discovering a cell leaves every recorded parent the earliest queued one from which the cell can be reached |
| `CellPaths.Search.RankedExtends` | examples/npc_web/main.go:399-417 | Going through the directions in order keeps the queue in the order of the paths it stands for |
| `CellPaths.FirstIsOne` | examples/npc_web/main.go:391-421 | There is only one such first path |
| `CellPaths.Search.PathsAreSeen` | examples/npc_web/main.go:397-419 | Up to the depth of the cell being expanded, every path from the start runs through cells already seen, and none of them is recorded deeper than the path reaches it |
| `CellPaths.Search.ExploredExtends` | examples/npc_web/main.go:411-417 | Appending a discovered, visited cell keeps the queue sorted by depth over at most two depths and keeps every dequeued cell fully expanded |
| `CellPaths.Search.LinkedExtends` | examples/npc_web/main.go:411-412 | Recording a parent for a new cell keeps every link one allowed step long and one depth apart |
| `CellPaths.Search.Trail` | examples/npc_web/main.go:412 | Following the parent links from any queued cell gives a path from the start whose length is that cell's depth |
| `CellPaths.Search.SearchExhausted` | examples/npc_web/main.go:397-420 | When the queue runs out, no path leads to an unvisited cell at all |
| `Explorer.Discovered` | examples/npc_web/main.go:399-417 | Looking at one more direction and discovering a visited cell keeps the whole search invariant |
| `Explorer.Skipped` | examples/npc_web/main.go:402-410 | Passing over a cell that is outside, seen, dangerous or closed off by fog loses no reachable cell |
| `Explorer.LookEnds` | examples/npc_web/main.go:399-418 | After its four directions a cell is fully expanded: every allowed step from it leads to a seen cell |
| `Explorer.Backtrack` | examples/npc_web/main.go:427-437 | Walking the parent links back from the target ends, and ends at the second cell of the path |
| `Explorer.Explore` | examples/npc_web/main.go:375-453 | A tick marks the current cell and moves to the first step of the first shortest path around the fog, else of the first one through it, else by the fallback |
| `Explorer.ChosenIsSafe` | examples/npc_web/main.go:425-450 | The new position is a neighbour inside the world and free of danger exactly when the current cell has one; otherwise the explorer jumps to cell (0, 0) |
| `Explorer.MayJump` | examples/npc_web/main.go:425-450 | The jump does happen: a safe explorer shut in by danger moves to cell (0, 0), far off and itself dangerous |
| `Explorer.ShutIn` | examples/npc_web/main.go:391-421 | With no safe neighbour neither pass finds anything |
| `Explorer.FallbackIsFirst` | examples/npc_web/main.go:438-446 | The fallback finds a safe neighbour whenever there is one, and otherwise leaves the zero cell |
| `Explorer.NeighboursAreBeside` | examples/npc_web/main.go:386 | The four directions reach exactly the cells at distance 1 in x and y together, and are tried in the order right, left, down, up |
| `Explorer.MovesAre` | examples/npc_web/main.go:402-410 | A search steps exactly to cells at distance 1 that are inside the world, not dangerous and, in the first pass, not fog |
| `Explorer.NothingLeftGoes` | examples/npc_web/main.go:438-450 | With nothing left to find, a tick at (x, y) goes to (x+1, y) if that is inside and free of danger, else to (x-1, y), else to (x, y+1), else to (x, y-1), else to (0, 0) |
| `Explorer.TickMarks` | examples/npc_web/main.go:377-384 | A tick marks the cell it starts from and no other |
| `Explorer.TickIsDetermined` | examples/npc_web/main.go:375-453 | World, danger, position and marked cells leave one possible outcome of a tick |
| `Explorer.TickDescends` | examples/npc_web/main.go:375-453 | As long as something is left to find, every tick stays on safe ground and lowers the measure made of cells left, whether fog must be crossed, and distance to the target |
| `Explorer.PotentialFits` | examples/npc_web/main.go:375-453 | On a grid of n cells the measure of any safe state is below 2n(n + 1) |
| `Explorer.Coverage` | examples/npc_web/main.go:375-453 | A run longer than the measure of any of its states has visited everything that safe cells connect to that state's position |
| `Explorer.ExploresEverything` | examples/npc_web/main.go:375-453 | From a safe start, 2n(n + 1) ticks on a grid of n cells visit every cell that safe cells connect to the start |
| `HeapOrder.StepUp` | pkg/sequence/queue.go:60 | Swapping an item with its smaller parent leaves only the parent's place out of order |
| `HeapOrder.StepDown` | pkg/sequence/queue.go:69 | Swapping an item with its larger child leaves only the child's place out of order |
| `HeapOrder.KeyChanges` | pkg/sequence/queue.go:81-84 | A changed priority leaves only that item's place out of order, seen from above and from below |
| `HeapOrder.KeyAppended` | pkg/sequence/queue.go:60 | An item appended to a heap is all that may be out of order |
| `HeapOrder.RootLeaves` | pkg/sequence/queue.go:69 | Swapping the first item behind the last leaves a shorter heap with only its root out of order |
| `HeapOrder.RootIsMax` | pkg/sequence/queue.go:73-78 | No item of a heap has a higher priority than the first |
| `PriorityQueues.PriorityQueue.Swap` | pkg/sequence/queue.go:23-27 | Two items change places, each item's index still is its own position, and no item is gained or lost |
| `PriorityQueues.PriorityQueue.Push` | pkg/sequence/queue.go:29-33 | The item is appended and knows its position |
| `PriorityQueues.PriorityQueue.Pop` | pkg/sequence/queue.go:35-43 | The last item is removed and marked with index -1, the others keep theirs |
| `PriorityQueues.PriorityQueue.Up` | pkg/sequence/queue.go:60 | Sifting up restores the heap and permutes the items, for index -1 changing nothing |
| `PriorityQueues.PriorityQueue.Down` | pkg/sequence/queue.go:69 | Sifting down within a prefix makes it a heap if it moved anything, and otherwise leaves all in place with only upward order in doubt |
| `PriorityQueues.PriorityQueue.Fix` | pkg/sequence/queue.go:84 | Sifting down, or else up, restores the heap from one item out of order |
| `PriorityQueues.PriorityQueue.Enqueue` | pkg/sequence/queue.go:55-62 | The queue stays a max-heap with correct indices and gains exactly the new item, which is queued under its handle |
| `PriorityQueues.PriorityQueue.Dequeue` | pkg/sequence/queue.go:64-71 | An empty queue gives nothing; otherwise exactly one item of highest priority leaves, is returned and is marked as not queued |
| `PriorityQueues.PriorityQueue.Peek` | pkg/sequence/queue.go:73-79 | Gives the value of an item of highest priority without taking it, and nothing exactly when the queue is empty |
| `PriorityQueues.PriorityQueue.Update` | pkg/sequence/queue.go:81-85 | For any handle whose index is a place in the queue or -1: a queued item gets its new value and priority and the queue is a heap of the same items again; an item that is not queued is changed but not requeued, and for index -1 nothing moves |
| `PriorityQueues.Drain` | pkg/sequence/queue.go:64-71 | Dequeuing until the queue is empty gives all its items, each once, in non-increasing priority |
| `PriorityQueues.TookOne` | pkg/sequence/queue.go:64-71 | Taking one item keeps what was put in equal to what was taken out plus what is queued |
| `PriorityChannels.PriorityChannel.SendWithPriority` | internal/core/syncv2/vars/channel.go:321-340 | With no close between its check and the lock, a send fails exactly when the channel is closed or full; otherwise the item joins the queue, everything sent still being what was received plus what is queued, and the queue no fuller than the largest size set |
| `PriorityChannels.PriorityChannel.Offer` | internal/core/syncv2/vars/channel.go:326-339 | The part under the lock, which may run after a close: it fails exactly when the channel is full, and keeps the same balance |
| `PriorityChannels.PriorityChannel.Receive` | internal/core/syncv2/vars/channel.go:348-359 | Gives nothing exactly when the queue is empty; otherwise moves one item of highest priority from the queue to the received ones, closed or not |
| `PriorityChannels.PriorityChannel.SetBufferSize` | internal/core/syncv2/vars/channel.go:421-432 | Refused once closed; shrinking drops nothing, growing keeps the queue within the size |
| `PriorityChannels.PriorityChannel.Close` | internal/core/syncv2/vars/channel.go:450-457 | Closing keeps what is queued |
| `CycleChannels.CycleChannel.constructor` | internal/core/syncv2/vars/channel.go:675-687 | A new channel is empty, for every size; one that is not positive becomes 1, and the size is kept as a uint32 even when that is 0 or less than the buffer |
| `CycleChannels.CycleChannel.Send` | internal/core/syncv2/vars/channel.go:702-730 | With no close between its check and the lock, answer and new state are those of the step on plain data |
| `CycleChannels.CycleChannel.Append` | internal/core/syncv2/vars/channel.go:707-729 | The part under the lock, which may run after a close: buffer, cursors and counters change in place as the step on plain data says, with uint32 cursors and an int32 count; the current value is the one sent, one version further and marked |
| `CycleChannels.CycleChannel.Receive` | internal/core/syncv2/vars/channel.go:733-753 | Same for receiving: answer and new state are those of the step on plain data |
| `CycleChannels.CycleChannel.Peek` | internal/core/syncv2/vars/channel.go:859-870 | Answers what Receive would, and changes nothing |
| `CycleChannels.CycleChannel.CopyFront` | internal/core/syncv2/vars/channel.go:840-844 | The copying loop reads the items from the tail on, in order, wrapping with the cursors |
| `CycleChannels.CycleChannel.DrainAll` | internal/core/syncv2/vars/channel.go:873-896 | Returns the items from the tail on and resets cursors and count, as the step on plain data says |
| `CycleChannels.CycleChannel.SetBufferSize` | internal/core/syncv2/vars/channel.go:817-856 | For every size: refuses those below 1 and closed channels; otherwise moves the newest items that fit to the front of a new buffer and keeps the size as a uint32 |
| `CycleChannels.CycleChannel.Close` | internal/core/syncv2/vars/channel.go:807-814 | Only the closed flag changes |
| `CycleChannels.SendKeepsSound` | internal/core/syncv2/vars/channel.go:702-730 | A send keeps the count within the size and the two cursors exactly count apart modulo 2^32, even after they wrapped |
| `CycleChannels.SendAgreesIff` | internal/core/syncv2/vars/channel.go:702-730 | A send appends the newest item and drops the oldest of a full buffer, for every value, exactly when the slot it writes holds no item that must survive |
| `CycleChannels.SendAgrees` | internal/core/syncv2/vars/channel.go:702-730 | With a free slot, the contents after a send are the bounded queue's |
| `CycleChannels.UnwrappedIsFree` | internal/core/syncv2/vars/channel.go:710-720 | The slot is free whenever the size divides 2^32 or the write cursor has not wrapped past the items held |
| `CycleChannels.ReceiveAgrees` | internal/core/syncv2/vars/channel.go:733-753 | Receive and Peek answer with the oldest item and leave the rest in order |
| `CycleChannels.DrainAgrees` | internal/core/syncv2/vars/channel.go:873-896 | DrainAll answers with all items, oldest first, and leaves none |
| `CycleChannels.TrimAgrees` | internal/core/syncv2/vars/channel.go:832-838 | Moving the tail before shrinking leaves exactly the newest items that fit, in order |
| `CycleChannels.MoveAgrees` | internal/core/syncv2/vars/channel.go:840-851 | Copying into a new buffer and restarting the cursors keeps the items and their order |
| `CycleChannels.ResizeAgrees` | internal/core/syncv2/vars/channel.go:817-856 | SetBufferSize agrees with the bounded queue in result, capacity and items, also after a wrap |
| `CycleChannels.StepAgrees` | internal/core/syncv2/vars/channel.go:702-896 | Every operation agrees with the bounded queue in answer and contents, and so does the locked part of a send on its own; a send needs its cursor unwrapped or a size dividing 2^32 |
| `CycleChannels.RunAgrees` | internal/core/syncv2/vars/channel.go:702-896 | Over every run in which no send happens after the cursor wrapped, or wrapping is harmless, all answers and the final contents are the bounded queue's, sends that complete after a close included |
| `CycleChannels.SendsFill` | internal/core/syncv2/vars/channel.go:702-730 | Until the write cursor wraps, n sends leave it at n and the channel holding the last ones |
| `CycleChannels.WrapBreaks` | internal/core/syncv2/vars/channel.go:710-714 | For every size that does not divide 2^32, after 2^32 sends the next one overwrites an item that should have survived, and draining shows it |
| `CycleChannels.HugeBreaks` | internal/core/syncv2/vars/channel.go:715-721 | A size whose uint32 is 2^31 or more is negative as an int32, and the first item sent is lost |
| `CycleChannels.LargestCountBreaks` | internal/core/syncv2/vars/channel.go:715-721 | With 2^31 - 1 slots the count of a full channel turns negative and the oldest item is overwritten, not dropped |
| `CycleChannels.TruncatedSizeBreaks` | internal/core/syncv2/vars/channel.go:680-683 | Beyond 2^32 slots the channel drops items although it was asked to hold them |
| `CycleChannels.WrapClobbers` | internal/core/syncv2/vars/channel.go:710-714 | The slot a wrapped cursor writes still belongs to an item that should survive |
| `CycleChannels.AlwaysAgreesIff` | internal/core/syncv2/vars/channel.go:656-896 | For every size whose uint32 is not 0: a channel that is never resized answers all runs as the bounded queue does exactly when its size divides 2^32 and is below 2^31 |
| `CycleChannels.QueueMeans` | internal/core/syncv2/vars/channel.go:702-856 | What the bounded queue itself does: a send keeps the last items that fit, a receive takes the first, a resize keeps the last that fit and is refused for sizes below 1 or once closed |
| `ByteFields.BigEndianValue` | internal/core/protocol/quic/stream.go:99-100 | Reading back a big-endian number gives the number, if it fits |
| `ByteFields.BigEndianBytes` | internal/core/protocol/quic/stream.go:146 | Writing back a big-endian number that was read gives the same bytes |
| `ByteFields.BigEndianAt` | internal/core/protocol/quic/stream.go:99-100 | Byte i of n is v / 256^(n-1-i) modulo 256: the first byte weighs most |
| `ByteFields.FourBytes` | internal/core/protocol/quic/stream.go:272 | The four bytes of a payload length, written out |
| `ByteFields.EightBytes` | internal/core/protocol/quic/stream.go:248-252 | The eight bytes of a length, time stamp or time to live, written out |
| `ByteFields.ReadsFour` | internal/core/protocol/quic/stream.go:336 | Reading four bytes weighs them 2^24, 2^16, 2^8 and 1 |
| `ByteFields.ReadsEight` | internal/core/protocol/quic/stream.go:146 | Reading eight bytes weighs them from 2^56 down to 1 |
| `ByteFields.FieldRoundTrip` | internal/core/protocol/quic/stream.go:235-237 | A 36-byte ID field gives an ID back exactly when the ID has at most 36 bytes and no zero byte |
| `ByteFields.FieldReencodes` | internal/core/protocol/quic/stream.go:282-362 | A parsed ID field is written back unchanged exactly when nothing but zeros follows its first zero |
| `MessageFrames.CreateMessageFrame` | internal/core/protocol/quic/stream.go:216-279 | Filling the frame at a moving offset gives the fixed layout of all ten fields |
| `MessageFrames.ParseMessageFrame` | internal/core/protocol/quic/stream.go:282-362 | Reading at a moving offset accepts and rejects exactly as the layout says, and gives its fields |
| `MessageFrames.FindNullTerminator` | internal/core/protocol/quic/stream.go:365-372 | Finds the first zero byte, or the length if there is none |
| `MessageFrames.CopyInto` | internal/core/protocol/quic/stream.go:236 | Copying into a field writes as much as fits there and nothing else |
| `MessageFrames.TakeId` | internal/core/protocol/quic/stream.go:282-362 | An ID is the field up to its first zero |
| `MessageFrames.Pieces` | internal/core/protocol/quic/stream.go:216-279 | Every field stands at the offset that the documented layout gives it |
| `MessageFrames.FrameBytes` | internal/core/protocol/quic/stream.go:230-278 | The bytes of a built frame at literal offsets: IDs at 0, 54, 90, 126 and 162, kind and priority at 36 and 37, time stamp and time to live at 38 and 46 in two's complement, payload length at 198, payload from 202 |
| `MessageFrames.WireBytes` | internal/core/protocol/quic/stream.go:99-112 | What is sent is the eight bytes of the frame's length, most significant first, and the frame |
| `MessageFrames.FrameMeans` | internal/core/protocol/quic/stream.go:282-362 | A frame is accepted exactly when it has 234 bytes or more and the number at 198 to 201 is the rest after 202; its fields are those at the literal offsets, each ID cut at its first zero |
| `MessageFrames.ReceiveMeans` | internal/core/protocol/quic/stream.go:128-177 | What a read answers and leaves over, in terms of the weighted first eight bytes: end of stream, short read, too large, or the frame parsed |
| `MessageFrames.DecodeEncode` | internal/core/protocol/quic/stream.go:216-362 | Every frame the sender builds is parsed to the message with its IDs cut to their fields, if the payload has 32 bytes or more and fewer than 2^32, and is rejected otherwise |
| `MessageFrames.RoundTripIff` | internal/core/protocol/quic/stream.go:216-362 | A message comes back whole exactly when its IDs fit their fields and its payload has 32 bytes or more and fewer than 2^32 |
| `MessageFrames.ReencodeIff` | internal/core/protocol/quic/stream.go:216-362 | Encoding a parsed message gives the same frame exactly when the padding of all five ID fields is zero |
| `MessageFrames.Stream.SendMessage` | internal/core/protocol/quic/stream.go:85-125 | A closed stream refuses and writes nothing; an open one writes the frame's length and the frame, once |
| `MessageFrames.Stream.ReadFull` | internal/core/protocol/quic/stream.go:135 | Takes exactly n bytes, or fails and uses up what is left, telling an empty stream from a short one |
| `MessageFrames.Stream.ReceiveMessage` | internal/core/protocol/quic/stream.go:128-177 | Result, error and unread bytes are those of taking one length and one frame off the incoming bytes |
| `MessageFrames.ReceiveSentIff` | internal/core/protocol/quic/stream.go:85-177 | What was sent is received whole, whatever follows it, exactly when it round-trips as a frame and fits the size limit, and then nothing behind it is touched |
| `MessageFrames.StreamRoundTrip` | internal/core/protocol/quic/stream.go:85-177 | Receiving from the bytes of any list of sendable messages gives that list in order with nothing left over |
| `MessageFrames.NoPartialMessage` | internal/core/protocol/quic/stream.go:128-177 | No proper prefix of a message's bytes is received as a message |
| `Membership.MembershipIsConsistent` | internal/server/server.go:260-562 | In every state of every interleaving each group and scope counts its members up to the updates still owed, a client between messages lists exactly the rooms that list it, a finished handler's client is listed nowhere, and clients never exceed the maximum |
| `Membership.QuietCountsAreExact` | internal/server/server.go:260-562 | With all handlers between messages or done, every counter is the exact number |
| `Membership.StepKeepsInv` | internal/server/server.go:260-562 | Each atomic step of acceptor and handlers keeps the whole invariant |
| `Membership.RunKeepsInv` | internal/server/server.go:260-562 | Every state of every run satisfies the invariant |
| `Membership.KeepsCounts` | internal/server/server.go:454-457 | A room's count, its members and the updates still owed move together in every step, also when the room is made |
| `Membership.KeepsPlaced` | internal/server/server.go:439-562 | In every step each handler's position still tells in which rooms its client is, whatever the others do |
| `Membership.KeepsBounded` | internal/server/server.go:285-301 | The client count is off only by the updates still owed, so the acceptor's check keeps the maximum |
| `Membership.KeepsConnected` | internal/server/server.go:292-321 | Members of rooms have handlers, and running handlers have clients on the map |
| `Membership.AdvanceIsOwn` | internal/server/server.go:439-562 | A handler's step moves no client but its own and leaves other sessions alone |
| `Membership.AdvancePlaces` | internal/server/server.go:439-562 | After its own step a handler's new position tells the truth about its client |
| `Membership.NewRoomCounts` | internal/server/server.go:448-452 | A room starts with no members, no count and no update owed, however handlers race to make it |
| `Membership.CountsMove` | internal/server/server.go:455-457 | A count that moves with members and owed updates stays right |
| `MembershipRuns.JoinJoins` | internal/server/server.go:439-517 | From the step that takes up a join to the handler's next pause, whatever others do meanwhile: the client is then in the room and the room on its list, and its other rooms are as before |
| `MembershipRuns.LeaveLeaves` | internal/server/server.go:468-540 | The same for a leave: it is in neither, and its other rooms are as before |
| `MembershipRuns.HandlerMoves` | internal/server/server.go:439-540 | A join or leave takes at most four steps of its own handler, which no other step lengthens or undoes |
| `MembershipRuns.AcceptedBecomesClient` | internal/server/server.go:285-308 | When the acceptor next waits, the connection it admitted is a client on the map with a handler between messages, in no room yet |
| `MembershipRuns.FinishedIsGone` | internal/server/server.go:314-321 | A finished handler's client is off the map and in no room |
| `MembershipRuns.EndGoesOn` | internal/server/server.go:314-321 | A handler that is ending always has a next step and gets closer to its end with each, room by room |
| `MembershipRuns.StepsOffered` | internal/server/server.go:285-290 | Connections are admitted exactly below the maximum and refused exactly from it on; joins, leaves and endings begin exactly between messages, with a room that has a name |
| `MembershipRuns.RunKeepsPending` | internal/server/server.go:543-562 | In every state of every run the rooms an ending handler has still to visit exist |
| `GroupAdmission.AdmissionIsBounded` | internal/core/protocol/group.go:109-123 | With at most n additions in flight, membership never exceeds the positive limit by more than n - 1, whatever is removed meanwhile |
| `GroupAdmission.LargestGroup` | internal/core/protocol/group.go:109-123 | That bound is reached: for every limit and n some run ends with limit + n - 1 members, and none with more |
| `GroupAdmission.QuietCountIsExact` | internal/core/protocol/group.go:109-131 | With no call in flight the counter is the number of members |
| `GroupAdmission.StepKeepsInv` | internal/core/protocol/group.go:109-131 | Each step of each call keeps the counter right up to the updates owed and keeps members plus admitted callers within the bound |
| `GroupAdmission.RunKeepsInv` | internal/core/protocol/group.go:109-131 | Every state of every run satisfies the invariant |
| `GroupAdmission.ClassesMove` | internal/core/protocol/group.go:109-131 | One call's step moves each class of calls by at most that call |
| `GroupAdmission.RushEnters` | internal/core/protocol/group.go:114-121 | Callers that all pass the check before any is counted all become members |
| `GroupAdmission.AddAdds` | internal/core/protocol/group.go:109-123 | An addition that met an open group below its limit throughout has made its client a member when it returns, unless someone removes that client |
| `GroupAdmission.RemoveRemoves` | internal/core/protocol/group.go:126-131 | When a removal returns its client is no member, unless someone adds it meanwhile |
| `GroupAdmission.ClosedAdmitsNobody` | internal/core/protocol/group.go:110-112 | Once a group is closed and nobody is past its checks, no run adds a member |
| `GroupAdmission.FullRefuses` | internal/core/protocol/group.go:114-116 | A caller that finds the limit reached returns with nothing changed |
| `GroupAdmission.CallsEnd` | internal/core/protocol/group.go:109-131 | Every call returns after at most four steps of its own |
| `BehaviourTrees.RunTree` | internal/core/npc/decorators.go:26-275 | Ticking any tree over the blackboard in place gives the status, error and blackboard of its meaning as a function |
| `BehaviourTrees.RunSequence` | internal/core/npc/composites.go:23-39 | The loop over children is the recursive meaning of Sequence, including when it stops and with what error |
| `BehaviourTrees.RunSelector` | internal/core/npc/composites.go:53-70 | The loop is the meaning of Selector, including which error it remembers |
| `BehaviourTrees.RunParallel` | internal/core/npc/composites.go:92-138 | All children are ticked once and the verdict follows from the policy, the successes and whether any is running; without children it succeeds |
| `BehaviourTrees.RunPriority` | internal/core/npc/composites.go:175-196 | The loop is the meaning of Priority, joining all errors met |
| `BehaviourTrees.RunRepeat` | internal/core/npc/decorators.go:26-43 | The counting loop is the meaning of Repeat |
| `BehaviourTrees.RunUntil` | internal/core/npc/decorators.go:215-275 | The attempts loop is the meaning of UntilSuccess and UntilFailure with a limit |
| `BehaviourTrees.RunTimer` | internal/core/npc/decorators.go:59-79 | The start key is written once, kept while waiting and removed after the child ran |
| `BehaviourTrees.RunCooldown` | internal/core/npc/decorators.go:174-199 | The last key is read before and written after the child as the meaning of Cooldown says |
| `BehaviourMeaning.TimerMeans` | internal/core/npc/decorators.go:59-79 | With no start stored a Timer stores now and is running; with start s it is running and changes nothing exactly while now - s is below the duration; otherwise it has the child's status and error and the key is gone |
| `BehaviourMeaning.CooldownMeans` | internal/core/npc/decorators.go:174-199 | A Cooldown fails with no error and an unchanged blackboard exactly when a time is stored less than the duration ago; otherwise it has the child's result, and now is stored exactly after a success, or also after a failure without SuccessOnly |
| `BehaviourMeaning.SequenceMeans` | internal/core/npc/composites.go:23-39 | With child k the first that does not succeed without error, a Sequence has its result, a failure if it reported an error, and later children are not ticked; with none it succeeds |
| `BehaviourMeaning.SelectorMeans` | internal/core/npc/composites.go:53-70 | With child k the first that does not fail, a Selector has its result and ticks no later child; with none it fails with the last error reported |
| `BehaviourMeaning.PriorityMeans` | internal/core/npc/composites.go:175-196 | The same for Priority, with the errors of all children ticked joined in order |
| `BehaviourMeaning.ParallelTicksAll` | internal/core/npc/composites.go:92-138 | Parallel ticks every child once in order and joins their errors; without children it succeeds |
| `BehaviourMeaning.RepeatMeans` | internal/core/npc/decorators.go:26-43 | Repeat, with or without StopOnFailure, ticks its child until it errs, runs or, with StopOnFailure, fails, and then has that result; else it succeeds after all its ticks, at once for a count below 1 |
| `BehaviourMeaning.UntilSuccessMeans` | internal/core/npc/decorators.go:215-237 | UntilSuccess with a limit ticks its child as long as it fails without error: success ends it, an error fails it, a running child leaves it running, and after all attempts it fails |
| `BehaviourMeaning.UntilFailureMeans` | internal/core/npc/decorators.go:253-275 | UntilFailure ticks its child as long as it succeeds without error: a failing child makes it succeed, an error fails it, a running child leaves it running, and after all attempts it succeeds |
| `BehaviourMeaning.InverterMeans` | internal/core/npc/decorators.go:122-135 | An Inverter exchanges success and failure, and keeps running, error and blackboard |
| `BehaviourMeaning.SucceederMeans` | internal/core/npc/decorators.go:147-156 | A Succeeder never fails: it is running exactly when its child is, with the child's error and blackboard |
| `BehaviourMeaning.ChildlessMeans` | internal/core/npc/decorators.go:26-275 | Without a child a Succeeder succeeds, and every other decorator fails with its own error |
| `BehaviourLaws.SequenceAppends` | internal/core/npc/composites.go:23-39 | A Sequence over two lists goes on to the second exactly when the first succeeds without error |
| `BehaviourLaws.SequenceFlattens` | internal/core/npc/composites.go:23-39 | A nested Sequence may be replaced by its children: same status, error and blackboard |
| `BehaviourLaws.SelectorAppends` | internal/core/npc/composites.go:53-70 | A Selector over two lists goes on to the second exactly when the first fails, carrying its last error along |
| `BehaviourLaws.SelectorRemembers` | internal/core/npc/composites.go:53-70 | An error remembered from before shows only if the Selector fails and its own children report none |
| `BehaviourLaws.SelectorFlattens` | internal/core/npc/composites.go:53-70 | A nested Selector may be replaced by its children: same status, error and blackboard |
| `BehaviourLaws.InvertedSelectorIff` | internal/core/npc/decorators.go:122-135 | Inverting a Selector has the status, error and blackboard of the Sequence of its inverted children exactly when the first child to report an error succeeds, or fails and the children after it fail until one succeeds with that same error and the blackboard it left |
| `BehaviourLaws.RecoversIff` | internal/core/npc/composites.go:53-70 | The later children recover in that sense exactly when a Selector over them succeeds with that error and blackboard, whatever it remembers |
| `BehaviourLaws.ErrorsMayCommute` | internal/core/npc/decorators.go:122-135 | A failing child and a later one that succeeds with the same error meet the condition, however often they read the clock |
| `BehaviourLaws.ErrorFreeCommutes` | internal/core/npc/decorators.go:122-135 | In particular it does whenever no ticked child reports an error |
| `BehaviourLaws.ErrorsBreakInversion` | internal/core/npc/decorators.go:122-135 | A single child failing with an error makes the two differ: one succeeds, the other fails |
| `BehaviourLaws.PriorityIsSelector` | internal/core/npc/composites.go:175-196 | Priority has the status and blackboard of Selector for every tree, and reports an error when Selector does |
| `BehaviourLaws.ParallelMeans` | internal/core/npc/composites.go:92-138 | Parallel succeeds exactly when all of its children do, or some child does, depending on the policy; otherwise it is running exactly when some child is, every child having been ticked once in order |
| `BehaviourLaws.ParallelCounts` | internal/core/npc/composites.go:96-117 | The success count reaches the number of children exactly when all succeed and exceeds zero exactly when some does, and the running flag tells whether any is running |
| `BehaviourLaws.RepeatIsSequence` | internal/core/npc/decorators.go:26-43 | Repeat that stops on failure is a Sequence of as many copies of its child |
| `BehaviourLaws.UntilSuccessIsSelector` | internal/core/npc/decorators.go:215-237 | UntilSuccess with a limit is a Selector over that many copies of its child, as long as no copy reports an error |
| `CooldownRuns.CooldownHolds` | internal/core/npc/decorators.go:174-199 | Over every run of ticks with a clock that never goes back, two runs of a cooldown's child are at least the duration apart if the earlier one ended or, with SuccessOnly set, succeeded, in every tree where nothing else writes its key |
| `CooldownRuns.RunIsTracked` | internal/core/npc/decorators.go:174-199 | After every tick the record of child runs is spaced, lies in the past and is covered by the stored time |
| `CooldownRuns.TickKeeps` | internal/core/npc/decorators.go:174-199 | Every node of every such tree keeps that: inside the cooldown's child nothing about it changes, elsewhere the record stays in order |
| `CooldownRuns.CooldownKeeps` | internal/core/npc/decorators.go:174-199 | The cooldown itself keeps it, whatever its child does to the blackboard |
| `CooldownRuns.RunRecorded` | internal/core/npc/decorators.go:183-198 | A run let through after the duration keeps the record spaced, and storing its time covers it |
| `CooldownRuns.OtherCooldownKeeps` | internal/core/npc/decorators.go:174-199 | A cooldown of another name never touches this one's key |
| `CooldownRuns.TimerKeeps` | internal/core/npc/decorators.go:59-79 | A timer never touches a cooldown's key, whatever the names |
| `TreeLoader.Build` | internal/core/npc/loader.go:55-193 | Without a root nothing is built. With one that reaches no cycle, the build succeeds exactly when no declaration reachable from it is at fault and every sensor can be made. The result is then the root's node; every node is what its declaration says, over its declared children; the nodes unfold to what plain recursion builds, each needed name made once and no other. Else the error is that of a declaration at fault under the root, or of the first sensor that cannot be made |
| `TreeLoader.MakeSensors` | internal/core/npc/loader.go:181-191 | The sensors are made in order, up to the first that fails |
| `TreeLoader.PlainSucceedsIff` | internal/core/npc/loader.go:61-172 | Recursion succeeds exactly when every name reachable from the root has a declaration that is in order |
| `TreeLoader.Builder.BuildNode` | internal/core/npc/loader.go:61-172 | With the memo the result, and the error, is that of plain recursion; stored nodes stay, only names below are added, nothing is made twice |
| `TreeLoader.Builder.BuildChildren` | internal/core/npc/loader.go:77-84 | The children come in the order of the references, shared through the memo, and the first failing one decides the error |
| `TreeLoader.Builder.Finish` | internal/core/npc/loader.go:75-89 | A node gets its children and is stored only when they are all built |
| `TreeLoader.Builder.Store` | internal/core/npc/loader.go:87 | Storing one more node keeps every stored node linked to stored nodes |
| `TreeLoader.Builder.LinkedIsPlain` | internal/core/npc/loader.go:62-64 | A node found in the memo is the root of what plain recursion builds for its name |
| `TreeLoader.Builder.StoredBelow` | internal/core/npc/loader.go:62-64 | Every name under a stored one is stored |
| `TreeLoader.LinkedAsDeclared` | internal/core/npc/loader.go:70-175 | A linked node is what its declaration says in the type names themselves: a group of its name and kind over the declared children in order, a Parallel needing one success exactly for the policies one and any, a decorator made from params and name over its one child, or a leaf made by its factory |
| `TreeLoader.ReferencesMean` | internal/core/npc/loader.go:70-153 | A declaration of a group type refers to its children, one of a decorator to its child if that is named, and any other to nothing |
| `TreeLoader.FaultyIff` | internal/core/npc/loader.go:66-175 | A declaration is at fault, with that error, exactly when it is missing, of no known type, refused by its factory, or a decorator without a child |
| `TreeLoader.PlainErrorIsFault` | internal/core/npc/loader.go:61-175 | Every error of the recursion is that of some declaration at fault under the name |
| `TreeLoader.MadeIsNeeded` | internal/core/npc/loader.go:58-87 | A finished build made exactly the names its root needs, each once |
| `TreeLoader.RankFalls` | internal/core/npc/loader.go:78-79 | With no cycle at or under a name, the same holds of every name it refers to, and fewer names lie under that one, so the build ends |
| `TreeLoader.FirstFailure` | internal/core/npc/loader.go:78-82 | The first child that fails decides the error |
| `TreeLoader.AllPlain` | internal/core/npc/loader.go:77-85 | If all children build, their list is complete and in order |
| `AtomicDeltas.AtomicInt.ApplyDeltas` | internal/core/syncv2/vars/atomic_int.go:68-100 | Stores the value of a newest Set if the batch has one, else adds all updates with wrap-around; at most one version step, and none with nothing marked when the updates cancel out |
| `AtomicDeltas.AtomicInt.Set` | internal/core/syncv2/vars/atomic_int.go:35-39 | Stores the value, counts one version modulo 2^64 and marks the variable |
| `AtomicDeltas.AtomicInt.Add` | internal/core/syncv2/vars/atomic_int.go:50-55 | Adds with wrap-around and returns the new value, one version further |
| `AtomicDeltas.Merge` | internal/core/syncv2/vars/atomic_int.go:79-91 | The loop finds the last Set of the sorted batch, or the wrapped sum of its updates |
| `AtomicDeltas.SortByVersion` | pkg/sequence/functional.go:66-75 | The sorted batch is a permutation in order of version |
| `AtomicDeltas.ScanFindsTop` | internal/core/syncv2/vars/atomic_int.go:79-91 | Over any arrangement by version the loop finds the value of a newest Set, or without Sets the wrapped total of the batch |
| `AtomicDeltas.LastSetWins` | internal/core/syncv2/vars/atomic_int.go:79-91 | The last Set of the sorted batch wins over everything before it, and no update after it counts |
| `AtomicDeltas.UpdatesAddUp` | internal/core/syncv2/vars/atomic_int.go:87-90 | Without a Set the updates add up, the same whether wrapped step by step or once |
| `AtomicDeltas.OrderFreeIff` | internal/core/syncv2/vars/atomic_int.go:68-100 | A batch has the same effect in every order exactly when its newest Sets agree on the value |
| `AtomicDeltas.OrderMayMatter` | internal/core/syncv2/vars/atomic_int.go:68-100 | Two Sets of one version and different values do not, and have an order each with a different effect |
| `AtomicDeltas.DistinctVersionsAgree` | internal/core/syncv2/vars/atomic_int.go:68-100 | Batches with distinct versions do |
| `AtomicDeltas.TopCanDecide` | internal/core/syncv2/vars/atomic_int.go:69-72 | Whichever newest Set is chosen, some sort by version makes it decide |
| `AtomicDeltas.TotalPermutes` | internal/core/syncv2/vars/atomic_int.go:87-90 | The total of the updates does not depend on their order |
| `AtomicDeltas.WrapAdds` | internal/core/syncv2/vars/atomic_int.go:89 | Wrapping after each addition comes to wrapping the sum |
| `AtomicDeltas.WrapMeans` | internal/core/syncv2/vars/atomic_int.go:89 | Wrapping gives the one number in the signed range that differs by a multiple of 2^64 |
| `AtomicDeltas.TopsAre` | internal/core/syncv2/vars/atomic_int.go:80-83 | A newest Set is one of the batch that no other Set is newer than |
| `FieldTransactions.ValueIsReplay` | internal/core/fields/field_accessor.go:209-284 | In every interleaving the value is the initial one with exactly the successful updates applied in the order of their swaps; each call is among them at most once, one that returned its update is and returned what its update made, one that gave up is not |
| `FieldTransactions.VersionCountsSuccesses` | internal/core/fields/field_accessor.go:209-218 | The version is one more than the calls that returned their update, and one more than all swaps once none waits to be counted, modulo 2^64 |
| `FieldTransactions.GivingUpNeedsRivals` | internal/core/fields/field_accessor.go:237-284 | A transaction gives up only after 10 other calls, a merge after 100, each swapped in an update since it began |
| `FieldTransactions.TenAlwaysSucceed` | internal/core/fields/field_accessor.go:237-252 | With at most ten calls in all, none ever gives up |
| `FieldTransactions.ElevenMayGiveUp` | internal/core/fields/field_accessor.go:237-252 | With any larger number of increments some run makes one give up |
| `FieldTransactions.MergeMayGiveUp` | internal/core/fields/field_accessor.go:267-284 | With 101 calls or more some run makes a merge give up |
| `FieldTransactions.GivingUpReturnsValue` | internal/core/fields/field_accessor.go:250-251 | A call that gave up changed nothing in doing so, and what it returns is the value at that moment |
| `FieldTransactions.CallsEnd` | internal/core/fields/field_accessor.go:237-284 | Every unfinished call has a next step of its own that brings it nearer to its end |
| `FieldTransactions.StepKeepsInv` | internal/core/fields/field_accessor.go:209-284 | Each atomic step of each call keeps the record, the value and all positions consistent |
| `FieldTransactions.RunKeepsInv` | internal/core/fields/field_accessor.go:209-284 | Every state of every run satisfies the invariant |
| `FieldTransactions.SwapReplays` | internal/core/fields/field_accessor.go:209-211 | A successful swap stores the call's update applied to the value at that moment, even if that value came back in between |
| `Sharding.NextPowerOf2` | internal/core/sync/vars/sharded.go:197-206 | For every positive int the result is the least power of two from it on exactly when that is an int and n - 1 has no 32 zero bits in a row below its highest; always up to 2^32, and never less than n as long as that power is an int |
| `Sharding.SmearDoubles` | internal/core/sync/vars/sharded.go:199-203 | Each shift and or doubles the stretch of bits that every bit is copied over |
| `Sharding.SmearIsMaskIff` | internal/core/sync/vars/sharded.go:199-203 | The five steps set all bits below the highest one exactly when there is no gap of 32 |
| `Sharding.SmallHasNoGap` | internal/core/sync/vars/sharded.go:197-206 | Below 2^32 there is no room for such a gap |
| `Sharding.PowersHaveGaps` | internal/core/sync/vars/sharded.go:197-206 | Every power of two from 2^32 on has such a gap |
| `Sharding.RoundsWrongly` | internal/core/sync/vars/sharded.go:197-206 | So rounding up 2^t + 1 gives no least power of two, for every t from 32 to 61 |
| `Sharding.IncrementDecides` | internal/core/sync/vars/sharded.go:204 | Adding one to a smear gives the least power of two exactly when all its bits are set and the sum is an int |
| `Sharding.SmearDecides` | internal/core/sync/vars/sharded.go:197-206 | The increment then gives the least power of two exactly in those cases, with the wrap-around of the largest int |
| `Sharding.LeastPowerIsLeast` | internal/core/sync/vars/sharded.go:197-206 | No power of two from n on is smaller than the result |
| `Binary.SharesNoDigitIff` | internal/core/sync/vars/sharded.go:28 | A positive number shares no bit with its predecessor exactly when it is a power of two |
| `Binary.MaskIsRemainder` | internal/core/sync/vars/sharded.go:79 | Masking with one less than a power of two is taking the remainder |
| `Sharding.MaskPicksRemainderIff` | internal/core/sync/vars/sharded.go:77-80 | Masking picks the shard of the remainder for every hash exactly when the shard count is a power of two |
| `Sharding.EveryShardUsedIff` | internal/core/sync/vars/sharded.go:77-80 | Every shard belongs to some hash exactly when the shard count is a power of two |
| `Sharding.Sharded.constructor` | internal/core/sync/vars/sharded.go:27-45 | There are at least as many shards as asked for, all alike; their number is the least power of two that is enough exactly when the number asked for is one or its predecessor has no gap; asking for none leaves none |
| `Sharding.Sharded.ShardOf` | internal/core/sync/vars/sharded.go:77-80 | The shard always exists; with a power of two of shards it is the hash's remainder |
| `Sharding.Sharded.GetWithKey` | internal/core/sync/vars/sharded.go:62-75 | Reads the value of the hash's own shard |
| `Sharding.Sharded.SetWithKey` | internal/core/sync/vars/sharded.go:99-114 | Only the hash's own shard changes, one version further and marked |
| `Sharding.WriteThenRead` | internal/core/sync/vars/sharded.go:62-114 | A write under one key is seen under another exactly when their hashes have the same remainder |
| `RunningMean.LossIsBounded` | internal/core/sync/metrics/metrics.go:31-47 | As long as no step overflows, what the truncating average loses of the sum is between 0 and n(n - 1)/2 |
| `RunningMean.SmallSumsFit` | internal/core/sync/metrics/metrics.go:31-64 | No step overflows as long as the latencies add up to less than 2^63 |
| `RunningMean.AverageNearMean` | internal/core/sync/metrics/metrics.go:31-64 | As long as no step overflows, the average is never above the true mean and at most (n - 1)/2 below it |
| `RunningMean.AverageWithin` | internal/core/sync/metrics/metrics.go:31-64 | As long as no step overflows, the average lies between any bounds all latencies lie between |
| `RunningMean.BoundIsReached` | internal/core/sync/metrics/metrics.go:38 | For every count the bound is reached: latencies 0, 1, 2, ... are reported as 0 on average |
| `RunningMean.NextLoses` | internal/core/sync/metrics/metrics.go:38 | One step loses at most one less than the count |
| `RunningMean.Wrapper.Get` | internal/core/sync/metrics/metrics.go:31-47 | After any reads the read average is the old one times the count, plus the new latency, over the new count, fractions dropped; it obeys the bound and the write average is untouched; failed reads count like others |
| `RunningMean.Wrapper.Set` | internal/core/sync/metrics/metrics.go:49-64 | The same for writes |
| `ScopeData.Scope.SetData` | internal/core/protocol/group.go:376-409 | With no other call in between: refused when closed, too big or too many keys, in that order, with nothing changed; else the key holds exactly the given bytes, all other keys what they held, and the byte count modulo 2^64 is that of the stored data |
| `ScopeData.Scope.DeleteData` | internal/core/protocol/group.go:420-425 | With no other call in between the key is gone and the byte count is that of the remaining data, closed or not |
| `ScopeData.PerformStores` | internal/core/protocol/group.go:376-425 | On plain data: a set refused by a limit changes nothing, an accepted one leaves exactly the given bytes under its key, a delete leaves nothing there, and all other keys keep what they held |
| `ScopeData.SetThenDelete` | internal/core/protocol/group.go:376-425 | Deleting a key just set for the first time, or refused, brings back data and byte count, with no other call in between |
| `ScopeData.TotalAfterSet` | internal/core/protocol/group.go:401-407 | The stored total moves by the new bytes less the old ones under the key |
| `ScopeData.ComplementSubtracts` | internal/core/protocol/group.go:403 | Adding the complement of n - 1 to the 64-bit count takes n away |
| `ScopeData.LimitsHoldIff` | internal/core/protocol/group.go:376-425 | Over all runs of calls that follow one another the size and key limits are kept exactly when the size limit is at most 2^63, or the key limit leaves no room for a sum that wraps around |
| `ScopeData.OverflowPasses` | internal/core/protocol/group.go:381-385 | Otherwise two values of 2^63 - 1 bytes and one of 2 are accepted beyond the limit |
| `ScopeData.RunKeepsLimits` | internal/core/protocol/group.go:376-425 | Where they are kept, they are kept by every call of every run |
| `ScopeRaces.CountIsExact` | internal/core/protocol/group.go:376-425 | In every interleaving where no set overlaps another call on its key, the byte count is that of the stored data up to what the calls in flight owe, modulo 2^64, and exact with none in flight |
| `ScopeRaces.ExactIff` | internal/core/protocol/group.go:376-425 | Whatever the limits, the count is right in every interleaving whenever no call is in flight exactly when sets may overlap neither sets nor deletes on any key |
| `ScopeRaces.SetsClash` | internal/core/protocol/group.go:401-407 | Two overlapping sets of one new key both add: one byte is stored and two are counted |
| `ScopeRaces.SetAndDeleteClash` | internal/core/protocol/group.go:401-425 | A set and a delete overlapping on one key both take the old value off: nothing is stored and 2^64 - 1 bytes are counted |
| `ScopeRaces.LimitMayBePassed` | internal/core/protocol/group.go:381-385 | Sets on different keys may pass the check together, so every size limit can be exceeded |
| `ScopeRaces.StepKeepsInv` | internal/core/protocol/group.go:376-425 | Each atomic step keeps the count right up to what is owed, and every set's view of the old value true |
| `ScopeRaces.CountKept` | internal/core/protocol/group.go:401-422 | The count moves by as much as stored bytes and debts do, in every step of a call |
| `ScopeRaces.OthersSettled` | internal/core/protocol/group.go:401-405 | No step of a call makes false what a set on another key found |
| `ScopeRaces.RunKeepsInv` | internal/core/protocol/group.go:376-425 | Every state of every run satisfies the invariant |
| `ScopeRaces.SetStores` | internal/core/protocol/group.go:376-409 | Where no set overlaps another call on its key, a set that meets no refusal has left its bytes under the key when it returns |
| `ScopeRaces.DeleteDeletes` | internal/core/protocol/group.go:420-425 | There a delete has left nothing under its key when it returns |
| `ScopeRaces.OtherKeysStay` | internal/core/protocol/group.go:376-425 | No step of a call on one key changes what is stored under another |
| `ScopeRaces.Refusals` | internal/core/protocol/group.go:377-398 | A set returns with nothing changed when it finds the scope closed, the sum beyond the limit, or too many keys and its own not among them |
| `ScopeRaces.CallsEnd` | internal/core/protocol/group.go:376-425 | Every call returns after at most eight steps of its own |

## Left out

- CycleChannels.CycleChannel.DrainAll: asks for a count that is not negative, where the source would panic; the runs of AlwaysAgreesIff include that panic. A size that is a multiple of 2^32 makes the next operation divide by zero, and runs stop there.
- CycleChannels.RunAgrees: resizes to fewer than 2^31 - 1 slots; larger sizes disagree, as AlwaysAgreesIff shows.
- CycleChannels: waiting in ReceiveBlocking, Get, Set and MarkClean, and the lock; what runs under the lock follows one another as the lock makes it.
- PriorityQueues.PriorityQueue.Update: an index beyond the queue, which a handle of another, longer queue may have and on which the source panics.
- PriorityChannels: the blocking calls and their shared condition variable, so nothing is said about progress.
- Explorer: random worlds, clearing tiles, smart moves and other actions of the demo; danger flags are a map from cells instead of formatted keys, and world and danger stay fixed during a run.
- HeapOrder: the sift loops are those of Go's container/heap, which is not part of the repository.
- Membership: logging, time stamps, connections, message parsing, broadcasting, the health monitor and stopping the server, which end handlers early; any handler may end between any two messages instead. Overflow of the 64-bit counters is not modelled, and a Range over a concurrent map visits at least the keys present when it starts.
- GroupAdmission: overflow of the 64-bit counter. A scope admits clients by the same steps (internal/core/protocol/group.go:330-352).
- MessageFrames: QUIC itself, partial writes and wrapped error texts; the stream is a byte sequence and reading is taking bytes from its front.
- MessageFrames.ReceiveSentIff: frames below 2^64 bytes, as any slice is.
- BehaviourTrees: Random and Probability, which draw numbers; UntilSuccess and UntilFailure without a limit, which may tick for ever; statuses and policies outside the declared constants; a Timer's or Cooldown's stored value that is no time counts as infinitely long ago.
- CooldownRuns.CooldownHolds: asks that no other node writes the cooldown's key, that its child holds no cooldown of its name, and that cooldowns of that name share duration and SuccessOnly setting. With SuccessOnly set, runs that failed do not count, since the child then runs again at once.
- TreeLoader: a root that reaches a cycle, on which the recursion does not end unless an error comes first, because the memo is filled only after the children; reading JSON and YAML; factories are functions of name and parameters.
- TreeLoader.Builder.Finish: the source repeats these lines for each kind of composite; the model has them once.
- AtomicDeltas: other goroutines between the steps of one ApplyDeltas, client ids and time stamps of deltas, and the generic AtomicValue, whose loop is never run.
- FieldTransactions: plain Set, Swap and CompareAndSwap calls between the transactions, subscribers, history and backoff sleeps; a Merge reads the other field as some value at each attempt.
- Sharding.Sharded.constructor: at most 2^62 shards and not fewer than 0; others cannot be allocated. The hash function, locks and metrics are left out.
- RunningMean: LastAccessed, LastModified and the lock; counts are unbounded.
- RunningMean.BoundIsReached: counts below 2^31, so that the latencies fit.
- ScopeData: values are shorter than 2^63 bytes, as slices are; metadata and time to live are not modelled.
- ScopeRaces: counting the keys of a map that changes meanwhile may find any number.
- The rest of the repository (message pooling, client SDK, auto-optimiser, pipelines, consistent hashing, cluster, storage, schema, user interface, configuration defaults) is not modelled.
