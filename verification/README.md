# Common utilities: a verified model

This project models the data structures, protocols and codecs of the common utilities library in Dafny
and proves what they promise. `dafny verify dfyconfig.toml` checks all of it.

| files | what they model | source |
|---|---|---|
| `Bits`, `PrefixSet`, `TrieShape`, `Preorder` | addresses as bit strings, and what a path-compressed trie over a set of prefixes is | `src/std_radix.c` |
| `Radix`, `RadixLookup`, `RadixNext`, `RadixSubtree`, `RadixWalk`, `RadixProperties` | the radix table: nodes on the heap with links in both directions, glue nodes, counters and versions | `src/std_radix.c`, `sonic/std_radix.h` |
| `LinkedList`, `Radical` | the doubly linked list with sentinels, and the change list on it with its walkers' markers | `src/std_llist.c`, `src/std_radical.c` |
| `RbShape`, `RbColor`, `RbInsertFix`, `RbRemoveFix`, `RbUpdate`, `RbTree`, `RbLookup`, `RbWalk` | the red-black tree with its shared sentinel, whose parent link is used while a node is removed | `src/std_rbtree.c` |
| `ThreadPool`, `SocketService`, `SocketProgress` | two step machines: every interleaving of workers, producers, the server thread and its jobs | `src/std_thread_pool.cpp`, `src/std_socket_service.cpp` |
| `EventService` | the tree of event subscriptions | `src/std_event_service.cpp` |
| `Crc32` | the table-driven CRC against the bit-serial one | `src/std_crc32.c` |
| `Tlv` | tag-length-value records, written in place and searched | `sonic/std_tlv.h` |
| `Options`, `Versions` | shared types | |

What is updated in place in the source is a class here, with the same fields and loops. Each class has
ghost fields that say what it stands for: the radix table maps prefixes to nodes (`nodeAt`) and to routes
(`routeAt`), a list has the sequence of its items, and the red-black tree maps each node to a cell with its
colour, links and place in the order (a real number, so that a rotation changes no place). `Valid()` ties
the ghost fields to the real ones; every method keeps it, and its other clauses say what the call did.

## Main results

- The radix table is a finite map from prefixes to routes, whatever is inserted and removed in whatever
  order and whichever allocation fails, and its shape depends on the stored prefixes alone. All lookups
  are the longest, next longest or exact match over that map; subtree walks, full walks and version walks
  visit exactly what they are to, in prefix order.
- `getnext` is the successor for every stored prefix. For other prefixes it is not always, and `NextOf`
  gives the exact condition: it fails if and only if the search ends at a stored prefix with keys on its
  zero side only while the prefix asked for is on its one side (`WrongTurn`), or, for an absent prefix, the bits
  of the address beyond the length asked for lead the search past keys that come first (`HostBits`). Two runs show both failures.
- A walk of the change list delivers, oldest first and once each, the routes changed after its marker, for
  any number of interleaved walkers, changes from inside callbacks, stops and restarts. After a callback
  that asks for a revisit the marker separates old from new changes if and only if no other change lies
  between its version and the new version of that route; a run shows a change that is lost otherwise.
- The red-black tree stays ordered, balanced and black-rooted under insertion and removal, with duplicate
  keys in insertion order, and the escape for a missing sibling is never taken.
- Thread pool: jobs start once each, in the order in which they were added, and no wakeup is lost. Threads
  that are left alone come to rest, and then all added jobs have been started.
  Socket service: every connection lives through its callbacks in order; one is closed without
  `del_client` after an accepted `new_client` if and only if a job could not be queued, and a run shows it.
  Every job can go on, rounds of the server and jobs end, every client that select reports gets a job or is
  to be closed, and when no job is left every client is waited for again or closed next.
- The table-driven CRC equals the bit-serial one, composes over pieces, and tells apart any two messages
  that differ inside four consecutive bytes only. A message followed by its own CRC always has the CRC
  0x2144DF1C, and the CRC of the digits 1 to 9 from zero is 0xCBF43926.
- Records written with `std_tlv_add` are read back; a search is right for every tag that is there, and for
  a tag that is not there if and only if the bytes behind the records do not read as a header with a total
  length of zero.

## Model

| member | source | states |
|---|---|---|
| Bits.CompareIsKeyEquality | src/std_radix.c:152-164 | The address comparison at node bit n, masked last byte first, reports a difference if and only if the first n bits of the two addresses differ. |
| Bits.FirstByteDifference | src/std_radix.c:695-709 | The byte-stepping search with the first-bit-set table ends at the first bit in which two addresses differ; a result of n or more means that the first n bits are equal. |
| Bits.KeyOrder | src/std_radix.c:695-709 | The order of prefixes is the order of addresses as byte strings: of two addresses, the one with the smaller byte where they first differ comes first. |
| Radix.RtTable.DescendToRoute | src/std_radix.c:915-935 | The descent ends at a node with a route on the path of the address, and either its bit is at least the length or nothing is stored on the address's side below it. |
| Radix.RtTable.Insert | src/std_radix.c:801-1081 | Keeps the trie valid. The route map gains exactly the new prefix, or a duplicate returns the stored route with nothing changed. Null is returned if and only if no node has that prefix and the first allocation fails, or the second one does and the stored prefixes call for a fork; then no route and no node has changed. Versions stay dominated, and those of existing nodes are kept. |
| Radix.RtTable.RemoveNode | src/std_radix.c:1083-1238 | The four cases of taking out a node leave a valid trie whose route map lacks exactly that route, and keep versions dominated. |
| Radix.RtTable.Remove | src/std_radix.c:1241-1284 | Removing a stored route takes exactly its prefix out of the map, clears the address of the route, keeps the trie valid, allocates nothing, writes no version and keeps versions dominated. |
| Radix.RtTable.SetVersion | src/std_radix.c:1680-1706 | The route and every node above it get the next version, zero after 2^64 - 1, and all others keep theirs. Versions stay dominated if and only if no other route below these nodes is newer than the new version, which holds whenever the version does not wrap. |
| RadixLookup.GetExact | src/std_radix.c:563-634 | Returns the route stored under exactly the first bitlen bits, or null if there is none. |
| RadixLookup.GetBest | src/std_radix.c:226-296 | Returns the longest stored prefix of at most bitlen bits that matches the address, or null if and only if none does. |
| RadixLookup.GetBestAndPrev | src/std_radix.c:298-402 | Returns the longest match and the next longest strictly shorter one; on an empty table the second is left as the caller passed it. |
| RadixLookup.GetNextBest | src/std_radix.c:404-493 | Returns the longest match that is strictly shorter than the best match, or null. |
| RadixLookup.GetLessSpecific | src/std_radix.c:1708-1731 | Returns the longest stored prefix that strictly covers the given route, or null. |
| RadixNext.GetNext | src/std_radix.c:636-799 | Without an address the first route; otherwise, for any prefix, stored or not, the answer is the successor in prefix order if and only if neither WrongTurn nor HostBits holds of the stored prefixes. In all cases the answer is not the prefix and does not cover it, and if an absent prefix covers anything the answer is among what it covers. |
| RadixProperties.WrongTurnExample | src/std_radix.c:717-735 | A run: with the empty prefix and 0 stored, the answer for 1 is 0, which comes before it, although nothing comes after. |
| RadixProperties.HostBitsExample | src/std_radix.c:675-735 | A run: with 0 and 1 stored, the answer for the empty prefix of an address that starts with 1 is 1, although 0 comes first. |
| RadixProperties.Enumerate | src/std_radix.c:636-799 | Asking for the first route and then for the one after each answer, by its own address and length, ends and lists every stored route once, in prefix order. |
| RadixProperties.EnumerationsAgree | src/std_radix.c:1300-1365 | Any two complete listings of a table in prefix order, by getnext or by a walk, are the same sequence of routes. |
| RadixSubtree.GetSubtree | src/std_radix.c:495-561 | Returns null if and only if no stored route is covered by the first bitlen bits, otherwise the topmost node below which all covered routes and no others lie, whatever the address bits beyond the length. |
| RadixSubtree.PowerWalk | sonic/std_radix.h:553-618 | The walk from a subtree root ends and visits exactly the routes covered by the root prefix, once each, in prefix order. |
| RadixWalk.Walk | src/std_radix.c:1300-1365 | Visits all routes, or those after the start and its left subtree, in prefix order and once each until the callback or the count stops it, and returns the route at the left child of the last node visited, or at that node. A count of zero is no limit below 0xFFFFFFFF routes: all of them are visited if the callback never stops. Any other count is the limit, and is used up if the callback does not stop the walk before its end. |
| RadixWalk.VersionWalk | src/std_radix.c:1367-1473 | Visits in order the routes with versions from minVer to maxVer that are reached without passing a node older than minVer. The count limits the visits as in a walk, and zero is no limit. |
| RadixWalk.PruningIsFiltering | src/std_radix.c:1367-1473 | While versions are dominated, turning back at old nodes loses nothing: a version walk from the root is to visit exactly the routes in the range of versions. |
| RadixProperties.TablesAreCanonical | src/std_radix.c:801-1238 | Two valid tables with the same stored prefixes have the same nodes, the same root, the same links in every direction, the same glue and the same counts, whatever their histories. |
| RadixProperties.NodesAreBounded | src/std_radix.c:894-1238 | The node counter is allocations minus frees, and there are at most twice the routes minus one nodes, none for an empty table. |
| LinkedList.DllHead.InsertAtFront | src/std_llist.c:157-167 | The item becomes the first of the sequence and both directions of links agree with it. |
| LinkedList.DllHead.InsertAtBack | src/std_llist.c:170-180 | The item becomes the last of the sequence. |
| LinkedList.DllHead.InsertAfter | src/std_llist.c:183-194 | The item is put directly behind the given one and nothing else moves. |
| LinkedList.DllHead.InsertBefore | src/std_llist.c:197-208 | The item is put directly in front of the given one and nothing else moves. |
| LinkedList.DllHead.Remove | src/std_llist.c:211-225 | The item is taken out, the others keep their order, and its own links are cleared. |
| LinkedList.DllHead.GetFirst | src/std_llist.c:70-79 | Returns the first item of the sequence, or null if there is none. |
| LinkedList.DllHead.GetLast | src/std_llist.c:82-91 | Returns the last item of the sequence, or null if there is none. |
| LinkedList.DllHead.GetNext | src/std_llist.c:94-103 | Returns the item behind the given one in the sequence, or null at the end. |
| LinkedList.DllHead.GetPrev | src/std_llist.c:106-115 | Returns the item in front of the given one, or null at the beginning. |
| LinkedList.DllHead.Insert | src/std_llist.c:136-155 | With a compare function the item goes in front of the first one that is greater, without one to the back, and the rest keeps its order. |
| LinkedList.InsertKeepsSorted | src/std_llist.c:136-155 | For a consistent compare function that place keeps the list sorted and is behind all items that compare equal. |
| Radical.ChangeList.AppendToChangeList | src/std_radical.c:114-133 | The route moves to the back with the next version, zero after 2^64 - 1; every marker still separates older from newer changes if and only if the version has not wrapped to zero. |
| Radical.ChangeList.WalkConstructor | src/std_radical.c:65-79 | The new marker is in front of everything with version zero, and all markers still separate. |
| Radical.ChangeList.WalkConstructorAfter | src/std_radical.c:82-100 | The new marker is directly behind the given one with its version, and all markers still separate. |
| Radical.ChangeList.WalkDestructor | src/std_radical.c:103-111 | The marker is off the list, everything else keeps its order, and all markers still separate. |
| Radical.ChangeList.NextVersion | src/std_radical.c:172-188 | Returns the version of the oldest change newer than the marker, or zero if and only if there is none. |
| Radical.ChangeList.ProcVerWrap | src/std_radical.c:42-62 | Routes are numbered 1, 2, ... in list order and each marker keeps what is before and behind it apart. Because the table version is left alone, the list is sound afterwards if and only if the last number is at most that version. |
| Radical.ChangeList.WalkChangeList | src/std_radical.c:191-310 | The callbacks are made in ascending order of version, above the marker and at most maxVer, for what is on the list. If the walk is not asked to revisit and maxVer is not below the marker, then everything between the old and the new version of the marker has been delivered, and up to maxVer if the walk ended. If asked to revisit, the marker is in front of that route again, and the list is sound if and only if no other change lies between. If maxVer is below the marker nothing is delivered, and the list stays sound if and only if the old list has nothing after the marker or nothing between. With maxVer at most the table version at the start the walk ends even if callbacks keep appending, and visits nothing twice. Callbacks that do nothing are made for exactly the changes due. A maxnodes of zero is no limit below 0xFFFFFFFF items: the walk ends if no callback stops it and none appends, or maxVer is at most the table version. Any other maxnodes is the limit, and is used up if the walk neither ended nor was stopped. |
| Radical.RevisitExample | src/std_radical.c:255-276 | A run: a callback that appends its own route and asks for a revisit leaves an undelivered change in front of the marker. |
| Radical.LowerMaxVerExample | src/std_radical.c:291-309 | A run: a walk with maxVer below the version of its marker leaves the marker at the wrong place. |
| RbTree.RbTable.Rotate | src/std_rbtree.c:89-142 | Both rotations, one for each side, change exactly the cells of the two nodes, the child between them and the parent, keep every place in the order, and move the root if it was turned. |
| RbTree.RbTable.BalanceOnInsert | src/std_rbtree.c:145-208 | From a tree that is in order but for a red node with a red parent the loop ends with a red-black tree in the same order. |
| RbInsertFix.PushKeepsFix | src/std_rbtree.c:155-162 | With a red uncle, recolouring leaves at most the grandparent in conflict. |
| RbInsertFix.TurnInward | src/std_rbtree.c:166-171 | With a black uncle and the node on the inner side, turning the parent brings the conflict to the outer side with the same uncle. |
| RbInsertFix.TurnOutward | src/std_rbtree.c:173-176 | With the node on the outer side, recolouring and turning the grandparent removes the conflict. |
| RbTree.RbTable.BalanceOnRemove | src/std_rbtree.c:211-292 | From a tree that lacks one black node on one side of a given node the loop ends with a red-black tree in the same order. |
| RbTree.RbTable.SiblingKids | src/std_rbtree.c:229-230 | In every round the sibling is a node of the tree and never the sentinel, so that the early exit is never taken, and the colours read through the sentinel are those of the tree. |
| RbRemoveFix.TurnSibling | src/std_rbtree.c:221-227 | A red sibling is turned up, after which the sibling is black and the missing black node is where it was. |
| RbRemoveFix.LowerSibling | src/std_rbtree.c:232-236 | A black sibling without red children becomes red and the missing black node moves up. |
| RbRemoveFix.TurnNear | src/std_rbtree.c:239-245 | A red child on the near side is turned up to become the sibling, with the old one red on its far side. |
| RbRemoveFix.LastTurnEnds | src/std_rbtree.c:247-251 | With a red child on the far side the recolouring and the turn of the parent leave no black node missing. |
| RbTree.RbTable.Insert | src/std_rbtree.c:414-449 | Keeps the red-black tree valid, adds exactly the node behind all nodes that compare less or equal and in front of the greater ones, moves nothing else, and the search takes at most 2 log2(n + 1) steps. |
| RbTree.RbTable.GetNext | src/std_rbtree.c:477-507 | Returns the node in the next place of the order, or null after the last. |
| RbTree.RbTable.Remove | src/std_rbtree.c:532-603 | Keeps the red-black tree valid, removes exactly the given node, not one that compares equal, keeps the order of all others, also when the successor is put in its position, and clears its links. |
| RbUpdate.SpliceKeepsFix | src/std_rbtree.c:551-572 | Taking out a node with at most one child leaves a red-black tree, or one that lacks a black node where its child, or the sentinel, now is. |
| RbUpdate.RenamedIsRedBlack | src/std_rbtree.c:574-599 | Putting the successor in the position, with the colour and the links of the removed node, leaves a red-black tree. |
| RbUpdate.HeightBound | src/std_rbtree.c:368-394 | A subtree with h black nodes on each path has at least 2^h - 1 nodes. |
| RbLookup.GetExact | src/std_rbtree.c:368-394 | Returns a node that compares equal, or null if and only if there is none. |
| RbLookup.GetExactOrNext | src/std_rbtree.c:786-833 | Returns a least node that is not smaller than the probe, an equal one if there is one, or null if there is none. |
| RbLookup.GetExactOrPrev | src/std_rbtree.c:851-895 | Returns a greatest node that is not greater than the probe, an equal one if there is one, or null if there is none. |
| RbWalk.WalkFrom | src/std_rbtree.c:671-756 | Visits in order and once each all nodes, or all behind the start, until the callback or the count stops it, and returns the node visited last if it was stopped. A count of zero is no limit below 0xFFFFFFFF nodes; any other count is the limit, and is used up if the callback does not stop the walk before its end. |
| RbWalk.Walk | src/std_rbtree.c:759-783 | Starts behind a least node that is not smaller than the given data, or from the beginning if there is none. The count limits the visits as in `WalkFrom`, and zero is no limit. |
| RbWalk.WalkInChunks | src/std_rbtree.c:671-783 | With distinct keys, walks that each go on with the data returned by the last one together visit every node in order and once. |
| ThreadPool.RunInv | src/std_thread_pool.cpp:64-122 | In every state of every run the mutex has one holder, every added job is on the list, in one hand or started, and a non-empty list with a waiting thread has an alert one. |
| ThreadPool.JobsStartInOrder | src/std_thread_pool.cpp:64-122 | In every reachable state the started jobs are the first added ones, in order and once each, and the rest are on the list in order but for at most one in hand. |
| ThreadPool.NoLostWakeup | src/std_thread_pool.cpp:91-122 | Whenever the mutex is free, the list is not empty and a thread waits, another one is already on its way to the list and not inside a job. |
| ThreadPool.WorkEnds | src/std_thread_pool.cpp:64-122 | Without further calls of add_work and spurious wakeups a run has boundedly many steps, those of threads inside add_work included. |
| ThreadPool.RestMeansStarted | src/std_thread_pool.cpp:64-122 | When no worker and no thread inside add_work can step any more, all added jobs have been started, the list is empty, the mutex is free, all workers wait and no thread is inside add_work. |
| ThreadPool.AnyoneCanAdd | src/std_thread_pool.cpp:64-75 | While the mutex is free, any thread outside add_work can put any job at the end of the list, in two steps. |
| ThreadPool.JobIsStarted | src/std_thread_pool.cpp:64-122 | A whole run: a job is added, add_work is left, and a worker starts the job. |
| SocketService.RunInv | src/std_socket_service.cpp:77-272 | In every state of every run each descriptor is in one place only: waited for, to be closed, held by the server, or in one job; and what the server copied is still true. |
| SocketService.OneJobAtATime | src/std_socket_service.cpp:165-217 | A client has at most one job, and none while its descriptor is waited for or held by the server. |
| SocketService.NoClientIsForgotten | src/std_socket_service.cpp:77-115 | While select waits, every descriptor to wait for is among those it looks at, or a wakeup is under way. |
| SocketService.NothingToRepair | src/std_socket_service.cpp:246-264 | The repair after a failed select finds no invalid descriptor. |
| SocketService.ConnectionsAreServed | src/std_socket_service.cpp:165-272 | In every reachable state the calls made so far for every connection have the shape that its phase allows: new_client, then some_data repeatedly, then del_client, then close, or new_client refused and close, or, where a job could not be queued, close at that point. A connection not closed is open. |
| SocketService.ClosedIsDeleted | src/std_socket_service.cpp:212-230 | A closed connection has had del_client if and only if new_client accepted it and no job for it failed to be queued. |
| SocketService.ClosedWithoutDelClient | src/std_socket_service.cpp:221-226 | A run: a client that new_client accepted is closed without del_client because a job could not be queued. |
| SocketProgress.JobCanAct | src/std_socket_service.cpp:165-187 | Every job that exists can take its next step, with either answer of a callback. |
| SocketProgress.WaitsAgain | src/std_socket_service.cpp:108-115 | A client whose some_data or new_client has returned true is waited for again, within the largest descriptor, and the server is woken. |
| SocketProgress.ServerCanStep | src/std_socket_service.cpp:189-272 | The server has a next step in every reachable state, and where it queues a job it can queue one. |
| SocketProgress.RoundEnds | src/std_socket_service.cpp:165-272 | Whatever callbacks answer, the steps of the server up to its next process_closed and the steps of all jobs are bounded by a measure of the state. |
| SocketProgress.RestMeansDone | src/std_socket_service.cpp:165-272 | When a round has ended and no job can step, no job is left and every client is waited for or to be closed; it is waited for if its last callback returned true and no job was refused since. |
| SocketProgress.ClosesAll | src/std_socket_service.cpp:93-106 | The step before select closes every client that is to be closed and no other, and select looks at all others that are waited for. |
| SocketProgress.CanAccept | src/std_socket_service.cpp:193-199 | When the listening socket was reported, any socket that is free can be accepted, and becomes a client. |
| SocketProgress.AcceptedIsServed | src/std_socket_service.cpp:196-203 | A client that is accepted gets a job for new_client, or is to be closed because none can be queued. |
| SocketProgress.ReadyAreServed | src/std_socket_service.cpp:206-216 | In every run, when a round ends, each client that select had reported in it has got a job for some_data, or is to be closed because none could be queued. |
| EventService.ClientTree.Find | src/std_event_service.cpp:221-237 | Finds the node of a key. When asked to create, it adds what is missing, without clients, and null is returned if and only if memory fails for a node that is missing; otherwise nothing is added and null means an absent key. |
| EventService.ClientTree.RegClient | src/std_event_service.cpp:239-243 | The relation of clients and keys gains exactly this pair; the call fails, and leaves the relation as it was, if and only if memory fails for a missing node or for a pair that is new. |
| EventService.ClientTree.DeregClient | src/std_event_service.cpp:245-250 | The relation loses exactly this pair. |
| EventService.ClientTree.RemoveFromTree | src/std_event_service.cpp:199-206 | The relation loses exactly the pairs of this client, at every depth. |
| EventService.ClientTree.Publish | src/std_event_service.cpp:178-197 | One send is made to each client registered for a non-empty prefix of the key, none twice, and none to others. Clients with a shorter such prefix come first. |
| EventService.Serve | src/std_event_service.cpp:221-254 | After any sequence of operations on a new tree, with memory failing anywhere, the tree stands for the history of the operations that succeeded. |
| EventService.LiveSubscriptions | src/std_event_service.cpp:239-254 | A pair is in that history if and only if it was registered and later neither deregistered nor removed with its client. |
| Crc32.EntryIsShift8 | src/std_crc32.c:45-89 | Every entry of the table is its index divided for eight bits by the polynomial 0xEDB88320. |
| Crc32.StdCrc32 | src/std_crc32.c:92-103 | For every initial value and message the table-driven loop computes the bit-serial CRC. |
| Crc32.CrcComposes | src/std_crc32.c:92-103 | The CRC of two pieces, the second from the result of the first, is the CRC of the whole. |
| Crc32.CrcInPieces | src/std_crc32.c:92-103 | The same for the 32-bit results of two calls and one call. |
| Crc32.SameWord | src/std_crc32.c:92-103 | A 32-bit word is determined by its bits. |
| Crc32.BurstIsDetected | src/std_crc32.c:92-103 | Two messages of bits that differ only inside a window of 32 have different remainders. |
| Crc32.FourBytesAreDetected | src/std_crc32.c:92-103 | Two messages of equal length that differ only inside four consecutive bytes have different CRCs. |
| Crc32.CrcOfDamaged | src/std_crc32.c:92-103 | For such messages the 32-bit results are equal if and only if the four bytes are. |
| Crc32.ResidueIsConstant | src/std_crc32.c:92-103 | For every initial value, a message followed by its own CRC, low byte first, has the CRC 0x2144DF1C. |
| Crc32.CrcOfSigned | src/std_crc32.c:92-103 | The same for the 32-bit results of two calls. |
| Crc32.CheckValue | src/std_crc32.c:45-103 | The CRC of the nine digits 123456789 from zero is 0xCBF43926. |
| Tlv.Add | sonic/std_tlv.h:148-155 | With enough room exactly the bytes of the record are written at the pointer, which moves behind them, and the room shrinks by as much; otherwise nothing changes. The tag and the length are written lowest byte first in eight bytes each, and the content behind them. |
| Tlv.WriteThenRead | sonic/std_tlv.h:148-226 | Whatever list of records is added to a buffer until one does not fit, stepping through it with std_tlv_next reads exactly those records back. |
| Tlv.Next | sonic/std_tlv.h:220-226 | The pointer moves by the total length, which wraps at 2^64, if that much is left, and otherwise null is returned. |
| Tlv.SearchIsRight | sonic/std_tlv.h:235-241 | A search over written records returns the first one with the tag, or says that there is none, if and only if the tag is there or the sixteen bytes behind the records do not read as a header with a total of zero. |
| Tlv.BadEndExample | sonic/std_tlv.h:235-241 | A run: with such bytes behind an empty list one search never ends and another finds a record that was not written. |
| Tlv.EFind | sonic/std_tlv.h:256-268 | The loop over the tags is the descent over what the headers say, for any bytes, with the places where it would not end or would leave the buffer as outcomes. |
| Tlv.DescentIsRight | sonic/std_tlv.h:256-268 | In written nested records the descent ends at the tree reached by entering the first one with each tag, where its tag and content are read, with what is left from there; if there is no such tree it says so if the bytes behind do not read as a header with a total of zero. |

## Where code and documentation differ

The model follows the code.

- `std_radix_walk` and `std_radix_versionwalk`, when stopped, return the route at the left child of the last
  node visited or at that node, and go on from a route by leaving out its left subtree.
- `std_radix_getbestandprev` leaves the second result as it was when the table is empty.
- `std_radix_getnext` is not the successor for some absent prefixes (see `GetNext`).
- `std_radical_walkchangelist` never looks at the count computed from its parameter `cnt`, only at `maxnodes`.
- `std_radical_procverwrap` does not set the version of the table.
- `std_tlv_efind` returns in its length parameter what is left from the record found, not the length of it.

## Left out

- Radix.RtTable.Insert: bitlen at most maxaddrlen, and a route with version zero for versions to stay dominated, are asked of the caller; the checks for them are compiled in for debugging only. Locks, the deferred deletion of nodes, `rtt_convert`, `rtt_rmfree` and the CAR fields are left out.
- Radix.RtTable.Remove: the memory of freed nodes is not modelled, and neither is the direction that the helper returns to a version walk in progress.
- RadixWalk.Walk: callbacks do not change the table.
- RadixSubtree.PowerWalk: the start at a next address and leaving the loop body early are left out.
- Radical.ChangeList.WalkChangeList: callbacks append, remove and add or destroy other markers, but start no nested walk, do not append when the version is about to wrap, and, when they ask for a revisit, leave their route on the list, which the code asserts. `std_radix_setversion` is not mixed in.
- Radical.ChangeList.ProcVerWrap: more routes than there are versions are not on the list.
- RbTree.RbTable.Insert: the wrappers that allocate nodes, `getfirst`, the preorder walks, printing and destruction are left out. Code that is mirrored for left and right is one method with a side, and data is compared by any consistent compare function.
- RbWalk.WalkInChunks: with equal keys a walk may go on behind the wrong one of them, so distinct keys are asked for.
- ThreadPool.RunInv: shutdown, creating threads that fails, and the result of add_work are left out.
- SocketService.RunInv: shutdown and the calls by which a client is closed or added from outside are left out; sets of clients and descriptors change in one step each, also where the code does not hold the mutex; the timeout callback does nothing. A pool of one thread, which calls the job at once, is one of the interleavings.
- Nothing is said about the scheduler: the progress results say which steps can be taken, and how many at most.
- EventService.ClientTree.Publish: sending itself, locks, client buffers and the order of sends within one node are left out; `clean_empty_nodes` is never called.
- Tlv.Add: a content with a length within sixteen of 2^64 is not passed, since no buffer is that long; the helpers for integers of 16, 32 and 64 bits are left out.
- Tlv.SearchIsRight: sixteen bytes behind the records can be read, as the code reads them. What a search leaves in its length parameter when it finds nothing is left out.
- Tlv.DescentIsRight: a path of tags that leads into a content which is no list of records is left out.
- Counters of type `u_long` are unbounded, addresses given to the table are values, and structures embedded in others are fields of type `data` here.
- Sockets, files, processes, clocks, users, configuration files, XML, event logging, error packing, bit masks, sorting, printing and the conversion of addresses to text are not part of this model.
