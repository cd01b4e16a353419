# Caches, RPC transport, connection pools and message stores, verified

A Dafny model of the parts of the messaging system that hold state and run loops, with proofs of what they
promise over whole runs.

- `Recency`, `LinkedMap`: a bounded recency list as a machine of three events, and the pair of linked list and
  hash map that carries it. `StandardLru`, `FixedTtlLru`, `VariableTtlLru` (with its heap, `ExpireQueue`) and
  `RateLimiting` are the caches and the limiter built on it; `Paging`, `PagingExact` and `Benchmark` are the
  benchmark loop and what its miss counts mean.
- `MySqlPool`: the database connection pool, as a class and as a step system of many threads.
- `Bytes`, `Chunks`, `RpcFraming`, `Sockets`, `RpcChannel`, `RpcCalls`, `RpcProgress`, `EndpointCache`: the RPC wire format, the provider's
  frame loop, the client's pool and loops, concurrent calls over shared connections, and the address cache.
- `Base64`, `OfflineMessages`: the codec with its overflowing accumulator, and the offline store behind it.
- `Strings`, `LineProtocol`: the text protocol between client and gateway.
- `Decimal`, `FriendService`: the friend table and the cache in front of it.

Conventions. Code that changes state is a class whose methods are proved against functions; the properties are
lemmas about these functions. Interleavings are runs: a sequence of steps, each enabled where it is taken. Time is
an argument of each call. A failing statement, a spurious wake-up, a partial send or a foreign answer is an argument
too, so that a lemma for all runs covers every outcome. Integers are unbounded except where the code's width
matters, and there the wrap is written out.

Where the code and its comments differ, the code is followed: a hit in the fixed-TTL cache does not extend the
expiry (`examples/lru_algorithms/lru_with_fixed_ttl.cc:89-104`), the variable-TTL heap is not repaired when a
live key is put again (`examples/lru_algorithms/lru_with_variable_ttl.cc:128-136`), the environment variable of
the pool does not win over the argument (`thirdparty/mysqldb/db_pool.cpp:25-31`), and a message that could not be
stored is still reported as queued (`im-message/src/message_service.cc:118-124`).

## Model

| member | source | states |
|---|---|---|
| `StandardLru.LRUCache.Get` | examples/lru_algorithms/standard_lru.cc:58-67 | A hit returns the stored value and moves its entry to the front, the others keeping their order; a miss changes nothing. |
| `StandardLru.LRUCache.Put` | examples/lru_algorithms/standard_lru.cc:70-86 | The entry is at the front with the new value; a known key leaves its old place, an unknown one pushes the last entry out of a full list, and list and map still agree. |
| `StandardLru.LRUCache.Update` | examples/lru_algorithms/standard_lru.cc:73-76 | Writing the value in place and then splicing is a store of the key. |
| `StandardLru.LRUCache.EvictLRU` | examples/lru_algorithms/standard_lru.cc:42-48 | Exactly the last entry goes, from the list and from the map. |
| `StandardLru.LRUCache.Remove` | examples/lru_algorithms/standard_lru.cc:89-98 | Exactly the entry of the key goes; the answer says whether there was one. |
| `LinkedMap.SpliceAgrees` | examples/lru_algorithms/standard_lru.cc:37-39 | Splicing a node to the front keeps list and map in agreement: same keys, no duplicates, each map entry at its own node. |
| `LinkedMap.EraseAgrees` | examples/lru_algorithms/standard_lru.cc:95-96 | Erasing a node and its map entry keeps the agreement and the order of the rest. |
| `StandardLru.LRUCache.Size` | examples/lru_algorithms/standard_lru.cc:107-109 | The size is the number of entries, that of the map as well, and never above the capacity. |
| `Recency.KeptIsLatest` | examples/lru_algorithms/standard_lru.cc:58-98 | Over every run: an entry still in the list holds the value stored last under its key with no removal since, and only keys used since then stand before it. |
| `Recency.Retention` | examples/lru_algorithms/standard_lru.cc:70-86 | Over every run: a stored, unremoved key is still there if fewer than `capacity` distinct other keys were used since its last use. |
| `Recency.OrderedByLastUse` | examples/lru_algorithms/standard_lru.cc:37-86 | Over every run the list is in the order of last use. |
| `Paging.StretchMisses` | examples/lru_algorithms/benchmark.cc:106-129 | From any state, a stretch of accesses misses at most once per distinct key, when these are no more than the capacity. |
| `Paging.Competitive` | examples/lru_algorithms/benchmark.cc:149-157 | For every trace, start state and other demand policy of `size <= capacity` places: `(capacity - size + 1) * misses <= capacity * other misses + (capacity - size + 1) * size`. |
| `PagingExact.FactorReached` | examples/lru_algorithms/benchmark.cc:149-157 | For every pair of sizes and any number of phases there is a trace from an empty cache, and a demand policy, for which that bound is an equality: neither its factor nor its constant can be less. |
| `PagingExact.Phase` | examples/lru_algorithms/benchmark.cc:149-157 | A phase of `capacity` accesses that all miss, of which the other policy misses only the `capacity - size + 1` new keys, and after which both stand as before. |
| `Paging.CompetitiveEqual` | examples/lru_algorithms/benchmark.cc:149-157 | With equal sizes, misses are at most `capacity` times those of any other policy, plus `capacity`. |
| `Paging.StackInclusion` | examples/lru_algorithms/benchmark.cc:106-129 | From empty caches on the same trace the smaller cache is always a prefix of the larger, so hits are monotone in the capacity. |
| `Paging.NestedRun` | examples/lru_algorithms/benchmark.cc:142-157 | Caches that are nested but for some extra keys of the larger stay nested over every trace, and the larger never misses more. |
| `Benchmark.LookUp` | examples/lru_algorithms/benchmark.cc:151-156 | A hit exactly when the key was cached; either way the key order is that of the paging policy. |
| `Benchmark.WarmUp` | examples/lru_algorithms/benchmark.cc:142-144 | Leaves the keys `0 .. cache_size - 1`, the last first. |
| `Benchmark.RunBenchmark` | examples/lru_algorithms/benchmark.cc:133-170 | The reported misses are those of the policy on the keys from the warmed-up cache; hits and misses add up to the operations. |
| `Benchmark.BenchmarkMonotone` | examples/lru_algorithms/benchmark.cc:133-170 | A larger cache never reports more misses on the same keys, although each size is warmed up with keys of its own. |
| `Benchmark.BenchmarkCompetitive` | examples/lru_algorithms/benchmark.cc:133-170 | The reported misses against every other policy, as in `Paging.Competitive`. |
| `FixedTtlLru.LRUCacheWithFixedTTL.Get` | examples/lru_algorithms/lru_with_fixed_ttl.cc:89-104 | A value is returned exactly when it is present and not expired; an expired entry is removed, a fresh one moves to the front, and neither extends its life. |
| `FixedTtlLru.LRUCacheWithFixedTTL.Put` | examples/lru_algorithms/lru_with_fixed_ttl.cc:107-125 | The entry is at the front and expires `ttl` after the clock reading. |
| `FixedTtlLru.LRUCacheWithFixedTTL.CleanupExpired` | examples/lru_algorithms/lru_with_fixed_ttl.cc:128-143 | Erasing while walking leaves exactly the entries that were unexpired when read, in order; the count is the size drop. |
| `FixedTtlLru.LRUCacheWithFixedTTL.CleanupTurn` | examples/lru_algorithms/lru_with_fixed_ttl.cc:133-139 | One turn of that loop. |
| `FixedTtlLru.LRUCacheWithFixedTTL.Remove` | examples/lru_algorithms/lru_with_fixed_ttl.cc:146-155 | Exactly the entry of the key goes. |
| `FixedTtlLru.CleanupExact` | examples/lru_algorithms/lru_with_fixed_ttl.cc:128-143 | With a clock that does not run back, no survivor was expired at the start and every entry still alive at the end survives. |
| `FixedTtlLru.SurvivorsFrom` | examples/lru_algorithms/lru_with_fixed_ttl.cc:128-143 | The survivors stood in the list in the same order, each unexpired when read, and they are all that were. |
| `FixedTtlLru.CleanupEvents` | examples/lru_algorithms/lru_with_fixed_ttl.cc:128-143 | A cleanup is a run of removals, one for each key found expired. |
| `FixedTtlLru.GetIsFresh` | examples/lru_algorithms/lru_with_fixed_ttl.cc:89-125 | Over every run of get, put, remove and cleanup: a value returned is that of the latest put of the key, made less than `ttl` ago with no removal since. |
| `FixedTtlLru.GetFindsFresh` | examples/lru_algorithms/lru_with_fixed_ttl.cc:89-125 | Conversely it is returned, as long as fewer than `capacity` distinct other keys were put or hit since the last use of its key. |
| `VariableTtlLru.LRUCacheWithVariableTTL.Get` | examples/lru_algorithms/lru_with_variable_ttl.cc:100-117 | As for the fixed time to live, with each entry's own expiry; a removed node is marked and stays queued. |
| `VariableTtlLru.LRUCacheWithVariableTTL.Put` | examples/lru_algorithms/lru_with_variable_ttl.cc:120-148 | A zero time to live is refused; otherwise a store, after which every live node has a queue entry and the valid queued nodes are the live ones. The queue stays a heap unless the key was listed with another expiry. |
| `VariableTtlLru.LRUCacheWithVariableTTL.RemoveNode` | examples/lru_algorithms/lru_with_variable_ttl.cc:82-86 | The node leaves list and map and is marked in the queue. |
| `VariableTtlLru.LRUCacheWithVariableTTL.EvictLRU` | examples/lru_algorithms/lru_with_variable_ttl.cc:73-80 | Exactly the last entry goes, and is marked. |
| `VariableTtlLru.LRUCacheWithVariableTTL.Remove` | examples/lru_algorithms/lru_with_variable_ttl.cc:185-193 | Exactly the entry of the key goes. |
| `VariableTtlLru.LRUCacheWithVariableTTL.CleanupExpired` | examples/lru_algorithms/lru_with_variable_ttl.cc:157-182 | Removes only entries expired at its one clock reading, keeps the others in order, counts the size drop; if the queue is a heap or the capacity is 1 it removes all that are expired, and a heap it leaves a heap. |
| `VariableTtlLru.LRUCacheWithVariableTTL.GetNextExpireTime` | examples/lru_algorithms/lru_with_variable_ttl.cc:213-229 | Nothing exactly when the cache is empty, otherwise the expiry of a live entry, and of the earliest one when the queue is a heap. |
| `ExpireQueue.PushHeap` | examples/lru_algorithms/lru_with_variable_ttl.cc:136-146 | The new element rises to its place: a heap stays a heap, and the queued nodes, counted with their copies, are those before and the new one. |
| `ExpireQueue.PopHeap` | examples/lru_algorithms/lru_with_variable_ttl.cc:166-177 | Exactly one copy of the top leaves, all other copies stay, and a heap stays a heap. |
| `ExpireQueue.TopExpiresFirst` | examples/lru_algorithms/lru_with_variable_ttl.cc:51-56 | The top of a heap expires no later than any queued node. |
| `VariableTtlLru.Perform` | examples/lru_algorithms/lru_with_variable_ttl.cc:100-193 | One call on the cache adds its events to the history: a hit, a store, or the removal of what is expired. |
| `VariableTtlLru.RunCalls` | examples/lru_algorithms/lru_with_variable_ttl.cc:100-229 | Over every run of get, put, remove and cleanup: cleanups drop only what is expired; and if the capacity is 1 or no put hits a listed key with another expiry, every cleanup removes all that are expired and the next expiry is the earliest of the listed ones. |
| `VariableTtlLru.GetIsFresh` | examples/lru_algorithms/lru_with_variable_ttl.cc:100-148 | Over every run, a value found is that of the latest put of the key, not removed since, and its own time to live is not over. |
| `VariableTtlLru.GetFindsFresh` | examples/lru_algorithms/lru_with_variable_ttl.cc:100-148 | Conversely it is found while its time lasts, whatever gets and cleanups there were, as long as fewer than `capacity` distinct other keys were put or hit since its key was. |
| `VariableTtlLru.LaterExpiryHides` | examples/lru_algorithms/lru_with_variable_ttl.cc:128-136 | Why the condition is there, for every capacity of at least 2 and all expiries `a <= b <= now < c`: after puts of one key at `a`, another at `b` and the first again at `c`, a cleanup at `now` removes nothing and the entry due at `b` stays. |
| `VariableTtlLru.EarlierExpiryHides` | examples/lru_algorithms/lru_with_variable_ttl.cc:128-136 | The same for an earlier expiry, again for every capacity of at least 2 and with two keys. So the two halves meet: all runs of a capacity have complete cleanups exactly when it is 1, and at the others changing a listed expiry, either way, can hide a due entry while leaving all of them never does. |
| `RateLimiting.RateLimiter.AllowRequest` | examples/lru_algorithms/usage_examples.cc:375-410 | Verdict and new histories are those of one step of the limiter. |
| `RateLimiting.RateLimiter.Prune` | examples/lru_algorithms/usage_examples.cc:396-399 | The loop removes exactly the leading time stamps before the cutoff. |
| `RateLimiting.RateLimiter.KnownClient` | examples/lru_algorithms/usage_examples.cc:394-409 | A known client: its times are pruned; it is refused exactly when the maximum is left, and then the order of the clients stays; otherwise the time is recorded behind the others and the client moves to the front. |
| `RateLimiting.RateLimiter.NewClient` | examples/lru_algorithms/usage_examples.cc:380-391 | A new client pushes the last one out of a full list and is recorded at the front. |
| `RateLimiting.EvictionIsLossless` | examples/lru_algorithms/usage_examples.cc:375-410 | Over every run: if at most `capacity` distinct clients are allowed in any closed interval of the window's length, every verdict is that of a limiter that keeps the whole history. |
| `RateLimiting.Simulates` | examples/lru_algorithms/usage_examples.cc:375-410 | The simulation behind it: clients are sorted by last allowed time, no queue is empty, and each queue is the recent part of the unlimited limiter's record. |
| `RateLimiting.LosslessExactly` | examples/lru_algorithms/usage_examples.cc:375-410 | The bound on the load is exact, for every configuration: all in-order runs with at most `n` allowed clients a window agree with the limiter that keeps the whole history if and only if the limiter can hold `n` clients. |
| `RateLimiting.FloodForgets` | examples/lru_algorithms/usage_examples.cc:382-385 | The other half: one client more than the capacity always pushes out a client at its maximum, whose next request is then allowed once too often. |
| `RateLimiting.RefusedExactly` | examples/lru_algorithms/usage_examples.cc:395-409 | While a client is not evicted, a request is refused exactly when the maximum was already allowed in the closed window that ends now. |
| `RateLimiting.WindowSafety` | examples/lru_algorithms/usage_examples.cc:395-409 | While a client is not evicted, no closed interval of the window's length holds more than the maximum of allowed requests. |
| `RateLimiting.StayInvariant` | examples/lru_algorithms/usage_examples.cc:395-409 | The pruned queue is the recent part of all that was allowed to the client since it entered the list. |
| `MySqlPool.MySQLPool.Configure` | thirdparty/mysqldb/db_pool.cpp:22-32 | The target is the argument when it is positive, else the number in the environment when it is between 0 and 10000, else the target before; nothing changes once initialised. |
| `MySqlPool.MySQLPool.EnsureInitialized` | thirdparty/mysqldb/db_pool.cpp:34-48 | A pool not yet initialised gets exactly the attempts below its target that connect, each once and in their order, all of them free; an initialised one is left alone. |
| `MySqlPool.RunOpens` | thirdparty/mysqldb/db_pool.cpp:34-75 | Over every run: before a thread enters there is no connection, and from then on free and leased together are exactly the attempts below the target that connected when the first one entered. |
| `MySqlPool.EnterSleepsExactly` | thirdparty/mysqldb/db_pool.cpp:50-57 | A thread that enters sleeps exactly when every connection that could be opened is leased; otherwise it leases one that was not. |
| `MySqlPool.MySQLPool.TakeFront` | thirdparty/mysqldb/db_pool.cpp:53-55 | The front connection leaves the queue; it was in nobody's hands and now is. |
| `MySqlPool.MySQLPool.Release` | thirdparty/mysqldb/db_pool.cpp:71-75 | A leased connection is leased no more and waits behind those already free; no connection is ever free twice. |
| `MySqlPool.PoolSafety` | thirdparty/mysqldb/db_pool.cpp:50-75 | In every reachable state, with barging, spurious wake-ups and time-outs: the connections are the disjoint union of free and leased, each once, and while anyone sleeps the free ones are no more than the awake waiters that have yet to look. |
| `MySqlPool.NoLostWakeUpStep` | thirdparty/mysqldb/db_pool.cpp:50-75 | Each step keeps the second half. |
| `MySqlPool.ConservedStep` | thirdparty/mysqldb/db_pool.cpp:34-75 | Each step keeps the first half. |
| `MySqlPool.DrainLeavesNoneIdle` | thirdparty/mysqldb/db_pool.cpp:53-75 | Once every awake waiter has looked, in whatever order, no connection is idle while anyone slept. |
| `MySqlPool.DrainExactly` | thirdparty/mysqldb/db_pool.cpp:53-68 | When awake threads look in some order, the first ones lease the free connections from the front, one each; of the others exactly those whose time is over leave, and the rest sleep again. |
| `MySqlPool.ReturnedGoesLast` | thirdparty/mysqldb/db_pool.cpp:71-75 | A connection that comes back is handed out again only after all that were free before it, whichever threads look in whatever order. |
| `MySqlPool.LeavingExactly` | thirdparty/mysqldb/db_pool.cpp:50-69 | Over every run: a waiter that looks leaves with the front connection if there is one, and without any exactly when its time is over, which happens only to those that came with a limit. |
| `Base64.Encode` | im-message/src/offline_model.cc:12-27 | The streaming loop with its 32-bit accumulator gives the block encoding of section 4 of RFC 4648, for inputs of any length. |
| `Base64.EmitReady` | im-message/src/offline_model.cc:19-22 | The inner loop pushes the complete six-bit groups. |
| `Base64.Pad` | im-message/src/offline_model.cc:25 | The padding loop completes the last group. |
| `Base64.EncodedShape` | im-message/src/offline_model.cc:12-27 | The text has `4 * ceil(n / 3)` characters: alphabet characters, then one `=` for each byte the last group lacks. |
| `Base64.CharIsAlphabet` | im-message/src/offline_model.cc:13 | The character of a 6-bit value is the one at its place in the alphabet written out. |
| `Base64.OffsetIsPlace` | im-message/src/offline_model.cc:34-39 | A character is found exactly at its place in the alphabet, the NUL behind it, and any other nowhere. |
| `Base64.EncodeBits` | im-message/src/offline_model.cc:18-20 | The characters read from the wrapped accumulator are those of the exact bit string. |
| `Base64.Decode` | im-message/src/offline_model.cc:30-46 | The loop collects the bytes of the exact stream of six-bit values up to the first `=`, although its accumulator wraps. |
| `Base64.DecodeBits` | im-message/src/offline_model.cc:39-42 | The byte read from the wrapped accumulator is that of the exact stream. |
| `Base64.RoundTrip` | im-message/src/offline_model.cc:12-46 | Decoding undoes encoding, for byte strings of any length. |
| `Base64.JunkIgnored` | im-message/src/offline_model.cc:36-38 | A character outside the alphabet, other than `=` and NUL, may stand anywhere without changing what is decoded. |
| `Base64.JunkExactly` | im-message/src/offline_model.cc:34-44 | The exact condition, for every character: it may stand anywhere without changing what is decoded if and only if `strchr` does not find it and it is not `=`; NUL is found, as a 65th value. |
| `OfflineMessages.OfflineModel.Insert` | im-message/src/offline_model.cc:52-70 | A successful insertion adds one row with the encoded payload. |
| `OfflineMessages.OfflineModel.Query` | im-message/src/offline_model.cc:71-93 | The decoded payloads of the direct rows of the narrowed identifier, in order; nothing when the statement fails. |
| `OfflineMessages.OfflineModel.Remove` | im-message/src/offline_model.cc:94-101 | After it nothing waits for the narrowed identifier, and what waits for every other, and for groups, is unchanged. |
| `OfflineMessages.OfflineModel.InsertGroupMessage` | im-message/src/offline_model.cc:103-114 | The payload waits behind the other group messages and for no user. |
| `OfflineMessages.OfflineModel.RemoveGroupMessages` | im-message/src/offline_model.cc:136-142 | After it no group message waits, and what waits for every user is unchanged. |
| `OfflineMessages.MessageServiceImpl.Send` | im-message/src/message_service.cc:33-127 | A message that is routed and delivered is published and the table left alone; any other waits behind the receiver's others when the insertion succeeds, and is reported as queued even when it fails. |
| `OfflineMessages.MessageServiceImpl.PullOffline` | im-message/src/message_service.cc:130-167 | Returns what was waiting for the user, and all group messages, and deletes them. |
| `OfflineMessages.WaitingAfterInsert` | im-message/src/offline_model.cc:52-93 | A stored payload waits behind the others of its receiver, byte for byte, and nobody else's rows change. |
| `OfflineMessages.WaitingAfter` | im-message/src/message_service.cc:67-162 | How each call changes what waits for a user: only a stored message to that user and a deletion under that identifier do. |
| `OfflineMessages.Conservation` | im-message/src/message_service.cc:67-162 | Over every run whose pulls select and delete or do neither: what the pulls returned and what still waits are, together and in order, exactly the payloads stored for the user. |
| `OfflineMessages.MessagesConserved` | im-message/src/message_service.cc:67-162 | The same after parsing, as messages. |
| `OfflineMessages.GroupsAfter` | im-message/src/message_service.cc:152-162 | What each call makes of the waiting group messages: a store adds one behind, a pull whose deletion succeeds leaves none, any other call leaves them. |
| `OfflineMessages.GroupsConserved` | im-message/src/message_service.cc:152-200 | Over every run of whole pulls the group messages returned, to whomever, and those still waiting are together and in order those stored. |
| `OfflineMessages.PullExact` | im-message/src/message_service.cc:138-162 | A pull keeps that balance exactly when both statements succeed or both fail, or nothing waits. |
| `OfflineMessages.SentAccounted` | im-message/src/message_service.cc:33-167 | Over every run whose pulls select and delete or do neither, each message sent is, once: among those handed to Presence, or among those reported as queued although storing failed, or among those some pull returned, or among those still waiting. |
| `OfflineMessages.PullTakesOwn` | im-message/src/offline_model.cc:71-101 | A pull returns the messages of the identifier it was given, in every table, exactly when that fits in 32 bits. |
| `OfflineMessages.WideWaitsForEver` | im-message/src/offline_model.cc:71-101 | The messages stored under a wider identifier all keep waiting, whatever the pulls ask for. |
| `OfflineMessages.BetweenExactly` | im-message/src/message_service.cc:138-162 | When another call comes between the selection and the deletion of a pull, nothing waits afterwards, and the balance is kept exactly when that call neither stores a message to the user, which is deleted unread, nor returns messages of the user, which are returned twice. |
| `Bytes.LengthOfPrefix` | mprpc/src/mprpcchannel.cc:112-117 | The four length bytes are read back as the length. |
| `Bytes.LowestFirst` | mprpc/src/mprpcchannel.cc:112-117 | Byte `i` of the length field is the `i`-th lowest byte of the number. |
| `RpcFraming.BuildRequestFrame` | mprpc/src/mprpcchannel.cc:80-119 | The frame is length, header and arguments, the header naming service, method and argument size; nothing when the request does not serialise. |
| `RpcFraming.Connection.OnMessage` | mprpc/src/rpcprovider.cc:125-204 | Takes all complete frames off the buffer, in order, leaves the rest, and adds to the output exactly the responses to them, in order. |
| `RpcFraming.Connection.SendRpcResponse` | mprpc/src/rpcprovider.cc:207-232 | Sends length and body, or nothing when the response does not serialise. |
| `RpcFraming.RegisteredAnswered` | mprpc/src/rpcprovider.cc:149-232 | For every registry and every implementation registered under the names of a frame: when it replies to the arguments sent, the output is exactly the length of the reply and the reply. |
| `RpcFraming.UnregisteredSilent` | mprpc/src/rpcprovider.cc:157-168 | A frame for a service or method that is not registered is answered by nothing, and is taken off the buffer. |
| `RpcFraming.Serve` | mprpc/src/rpcprovider.cc:125-204 | The frame loop called for one chunk after the other sends the responses to the requests that came out, in order, and keeps the bytes left. |
| `RpcFraming.FramesAnswered` | mprpc/src/rpcprovider.cc:125-232 | Frames sent one after the other and cut anywhere are answered by the replies of the implementations to their arguments, in order and by nothing where there is none, with nothing left over. |
| `RpcFraming.ResponsesAppend` | mprpc/src/rpcprovider.cc:207-232 | The output of several turns is the output for all their requests, so that the responses do not depend on chunking either. |
| `RpcFraming.PeelFrame` | mprpc/src/rpcprovider.cc:131-152 | A frame at the head of the buffer is taken as the request it was built from, whatever follows. |
| `RpcFraming.DrainSplit` | mprpc/src/rpcprovider.cc:129-152 | Draining a longer stream is draining its start and then what that left together with the rest. |
| `RpcFraming.ChunksDoNotMatter` | mprpc/src/rpcprovider.cc:129-152 | However a byte stream is cut, the same requests come out and the same bytes are left. |
| `RpcFraming.RequestsArrive` | mprpc/src/mprpcchannel.cc:112-117 | Requests sent one after the other and cut anywhere arrive as they were sent, in order, with nothing left over. |
| `RpcFraming.RequestsArriveInOrder` | mprpc/src/rpcprovider.cc:129-152 | While they are under way, the requests taken are the first of those sent. |
| `RpcFraming.UnparsableHeader` | mprpc/src/rpcprovider.cc:138-144 | A frame with an unparsable header is dropped by its header size alone, and its arguments are read as a new frame. |
| `Sockets.SendAll` | mprpc/src/mprpcchannel.cc:220-238 | What was sent is the part of the data that the calls before the first fatal one make room for; it succeeds exactly when that is all of it. The client's loop (im-client/src/client.cc:291-307) is the same. |
| `Sockets.Fill` | mprpc/src/mprpcchannel.cc:244-275 | What was received is the part of the buffer that the peer sent and the calls before the first fatal one can move, no byte lost or repeated; it succeeds exactly when the buffer is full, with the calls after that left. |
| `RpcChannel.ConnectionPool.GetConnection` | mprpc/src/mprpcchannel.cc:190-211 | Takes the descriptor pooled last under the key, or the new one. |
| `RpcChannel.ConnectionPool.ReturnConnection` | mprpc/src/mprpcchannel.cc:213-218 | Pools the descriptor, or closes it when 64 are pooled under the key; no descriptor is ever pooled twice. |
| `RpcChannel.RecvResponse` | mprpc/src/mprpcchannel.cc:241-283 | It succeeds exactly when a whole response is there, its body parses and the calls can move first the length field and then the body; then that body is the result, and no byte more has been read. |
| `RpcChannel.ResponseReadBack` | mprpc/src/rpcprovider.cc:212-218 | What the provider sends as one response is read back as that response and no byte more. |
| `RpcChannel.ResponseIsWhole` | mprpc/src/mprpcchannel.cc:241-283 | What the provider sends as a response is a whole one, with its body. |
| `RpcChannel.CallMethod` | mprpc/src/mprpcchannel.cc:31-76 | One call alone succeeds exactly when it gets a connection, the calls can send the whole frame, and a response can be received as above; then its descriptor went back, and on failure it was closed. |
| `RpcCalls.OwnAnswer` | mprpc/src/mprpcchannel.cc:31-76 | Over every interleaving of calls, partial sends and receives, and answers: a call that succeeds got the provider's answer to the very request it was begun with, and no other answer was ever given to it. |
| `RpcProgress.CallSucceeds` | mprpc/src/mprpcchannel.cc:31-76 | From every state of a run, with whatever calls under way: a call whose key has an idle connection, or for which a new one can be made, can be begun, sent, answered and received in pieces of any sizes, and then has succeeded with that answer; its connection is the last idle one of its key, and no other call, connection or key has changed. |
| `RpcProgress.SucceedsAmongOthers` | mprpc/src/mprpcchannel.cc:31-76 | The same with any steps of other calls between its own, over every interleaving: once its own steps are done it can finish with its answer, and its connection is pooled behind the idle ones, or closed when 64 are. |
| `RpcProgress.NextCallReuses` | mprpc/src/mprpcchannel.cc:51-75 | A later call under the same key is sent on the connection of the one before. |
| `RpcProgress.FailureCloses` | mprpc/src/mprpcchannel.cc:61-71 | From every state of a run, a call that fails closes its connection, which is idle under no key, and changes nothing else. |
| `RpcProgress.NoConnectionFails` | mprpc/src/mprpcchannel.cc:53-60 | Without an idle and without a new connection a call fails at once. |
| `RpcProgress.KeyPerMethod` | mprpc/src/mprpcchannel.cc:52 | Different methods have different keys as long as no service name holds a slash. |
| `RpcCalls.PooledAreQuiet` | mprpc/src/mprpcchannel.cc:51-75 | A pooled connection has no outstanding request and no unread byte. |
| `RpcCalls.DescriptorsConserved` | mprpc/src/mprpcchannel.cc:190-218 | Every open descriptor is pooled under one key or used by one call, never both; each key pools at most 64. |
| `RpcCalls.TakenAreAsked` | mprpc/src/rpcprovider.cc:129-152 | The requests the provider has taken off a connection are the first of those the calls asked on it. |
| `RpcCalls.AnswerKeeps` | mprpc/src/rpcprovider.cc:207-232 | An answer the provider can give on a connection is to the request of the call that holds it. |
| `RpcCalls.FinishGives` | mprpc/src/mprpcchannel.cc:241-283 | A response received whole is the answer to the call's own request and leaves the connection quiet. |
| `RpcCalls.StepKeeps` | mprpc/src/mprpcchannel.cc:31-76 | Every step keeps the invariant of descriptors, calls and pool. |
| `RpcCalls.ProviderAnswersInOrder` | mprpc/src/rpcprovider.cc:125-232 | The output of the frame loop is answers to distinct requests, in order, each the response to its request: the rule that the calls rely on. |
| `EndpointCache.AddressCache.ResolveEndpoint` | mprpc/src/mprpcchannel.cc:122-187 | A live entry is returned without asking; otherwise ZooKeeper's data is parsed, errors leave the cache as it was, and an address is kept until a second after the first clock reading. |
| `EndpointCache.ResolvedHalves` | mprpc/src/mprpcchannel.cc:161-174 | Data is an address exactly when it has a colon; host and port are its two halves. |
| `EndpointCache.AddressIsRecent` | mprpc/src/mprpcchannel.cc:122-187 | Over every interleaving of calls: an address returned was read from ZooKeeper for that path less than 1000 ms before the call's clock reading. |
| `EndpointCache.ResolveTwice` | mprpc/src/mprpcchannel.cc:122-187 | An address that ZooKeeper gave is returned again without asking exactly for the next 1000 ms. |
| `EndpointCache.LookExactly` | mprpc/src/mprpcchannel.cc:150-160 | Over every interleaving: a call that looks finds an address exactly when the last one stored for its path came with a time less than 1000 ms before its own, and returns it without asking. |
| `EndpointCache.MissResolves` | mprpc/src/mprpcchannel.cc:161-187 | From every state of a run, a call that finds nothing and whose node has an address returns its two halves, and they are what is stored last. |
| `EndpointCache.MissFails` | mprpc/src/mprpcchannel.cc:162-174 | A call whose node has no address fails and caches nothing. |
| `Strings.SplitMeaning` | im-gateway/src/gatewayServer.cc:10-43 | Splitting loses nothing and cuts at every separator it may cut at. |
| `Strings.SplitJoined` | im-gateway/src/gatewayServer.cc:10-43 | Splitting undoes joining. |
| `LineProtocol.SplitEverywhere` | im-gateway/src/gatewayServer.cc:10-26 | The character loop splits at every separator. |
| `LineProtocol.SplitOnce` | im-gateway/src/gatewayServer.cc:28-43 | The searching loop splits into at most the given number of parts. |
| `LineProtocol.Gateway.OnMessage` | im-gateway/src/gatewayServer.cc:231-246 | Takes all complete lines off the buffer, strips one carriage return from each, and parses them in order. |
| `LineProtocol.Gateway.HandleLine` | im-gateway/src/gatewayServer.cc:249-318 | The command is recognised in either case and its rest is cut as that command wants it. |
| `LineProtocol.Client.ReadTask` | im-client/src/client.cc:176-195 | The client cuts lines off its own buffer in the same way. |
| `LineProtocol.Client.EnqueueRaw` | im-client/src/client.cc:279-287 | What is queued is complete lines; a command without newline is queued as that command and exactly one newline. |
| `LineProtocol.Client.SendLoop` | im-client/src/client.cc:310-325 | Frames are sent whole and in order up to the first whose calls cannot move all of it: that one contributes exactly what they can move and is lost, and exactly those behind it stay queued. If every frame has calls that can, all are sent and the queue is empty. |
| `LineProtocol.ChunksDoNotMatter` | im-gateway/src/gatewayServer.cc:231-246 | However a text is cut into chunks, the same lines come out and the same piece is left. |
| `LineProtocol.ParsePrinted` | im-gateway/src/gatewayServer.cc:249-309 | A printed command parses to its own command and fields when the fields cut at spaces have none. |
| `LineProtocol.ParseAnyCase` | im-gateway/src/gatewayServer.cc:249-309 | A command parses to itself in whatever case the letters of its verb are written. |
| `LineProtocol.VerbInAnyCase` | im-gateway/src/gatewayServer.cc:254-257 | A word is taken as a verb exactly when it has the letters of its name, each in either case. |
| `LineProtocol.UnknownExactly` | im-gateway/src/gatewayServer.cc:249-309 | A line is unknown exactly when its first word has the letters of no verb. |
| `LineProtocol.LineUnderstood` | im-client/src/client.cc:120-168 | A printed line whose fields hold no newline, nor a space where the gateway cuts, is understood exactly when its last field does not end in a carriage return. |
| `LineProtocol.QueueUnderstood` | im-client/src/client.cc:120-168 | A queue of any orders is taken as it was meant, with nothing left, exactly when every order is clean: no space or newline in a token, no newline in a text, no carriage return at its end. |
| `LineProtocol.OrdersArrive` | im-gateway/src/gatewayServer.cc:231-318 | Clean orders arrive, cut into any chunks, as the same commands with the same fields in order. |
| `LineProtocol.OrdersArriveInOrder` | im-gateway/src/gatewayServer.cc:231-318 | While they are under way, or when sending failed, the commands taken are the first of those sent. |
| `Decimal.StollOfPrint` | im-user/src/user_service.cc:370-404 | Parsing undoes printing, for every 64-bit number. |
| `Decimal.StollReads` | im-user/src/user_service.cc:366-372 | White space, a sign, digits and anything after them are read as the number of the digits; nothing when there is no digit or the number does not fit in 64 bits. |
| `Decimal.PrintInjective` | im-user/src/user_cache.cc:155-157 | Different identifiers have different decimal texts. |
| `FriendService.ListRoundTrip` | im-user/src/user_service.cc:366-405 | A list of ids joined with commas is read back as the same list. |
| `FriendService.ParseList` | im-user/src/user_service.cc:366-372 | The `getline` loop reads exactly the non-empty parts. |
| `FriendService.KeyInjective` | im-user/src/user_cache.cc:155-157 | Different identifiers have different cache keys. |
| `FriendService.UserCache.AddFriend` | im-user/src/user_cache.cc:109-112 | Never changes what reading any key gives: a set reads as nothing, and a list text is left alone. |
| `FriendService.UserCache.RemoveFriend` | im-user/src/user_cache.cc:114-117 | Never changes what reading any key gives. |
| `FriendService.UserServiceImpl.AddFriend` | im-user/src/user_service.cc:279-350 | Each code exactly under its condition on the table and the outcomes; with the last, both rows are added and both cached lists are dropped. |
| `FriendService.UserServiceImpl.RemoveFriend` | im-user/src/user_service.cc:420-459 | Deletes both directions and drops both cached lists. |
| `FriendService.UserServiceImpl.GetFriends` | im-user/src/user_service.cc:352-418 | Answers from the cached text or from the table, and caches a list that is not empty. |
| `FriendService.GetFriendsExact` | im-user/src/user_service.cc:352-418 | Over every run of sound calls and expiries, what it answers, from the cache or not, is the list of the table in its order. |
| `FriendService.GetCaches` | im-user/src/user_service.cc:352-418 | What was answered is answered again from the cache when the database is down, exactly when it was cached before or is a list of the table that is not empty. |
| `FriendService.ExpiryHeals` | im-user/src/user_cache.cc:85-92 | Once its key has expired the next answer is the table's, whatever was cached, and no other key is touched. |
| `FriendService.ChangeKeepsExactly` | im-user/src/user_service.cc:279-459 | A change of the table keeps the cache coherent if and only if nothing is cached for an identifier whose list it changes and does not drop: one with the same low 32 bits, one whose second statement fails, or one that Redis does not serve. Whose list changes is told from the table before the call. |
| `FriendService.AddChanges` | im-user/src/user_service.cc:318-325 | An added friend makes longer exactly the lists of the two narrowed identifiers, or of one when the second insertion fails, wherever the new rows stand. |
| `FriendService.AddLists` | im-user/src/user_service.cc:318-325 | After an addition each of the two has the other in the list, beside those that were there and in their order; only the user has when the second insertion failed. |
| `FriendService.RemoveChanges` | im-user/src/user_service.cc:427-434 | A removal changes exactly the lists whose row was in the table and whose deletion took effect. |
| `FriendService.RemoveLists` | im-user/src/user_service.cc:427-436 | After a removal the user's list is the old one without the friend and the friend's without the user, the rest as often and in the same order; only the user's changes when the second deletion failed. |
| `FriendService.WithoutCounts` | im-user/src/user_service.cc:429-436 | A deletion takes every copy of its row and leaves the copies of every other. |
| `FriendService.LateFillExactly` | im-user/src/user_service.cc:381-412 | When a query read a non-empty list before another call and fills the cache after it, the next answer is the list of the table exactly when the other call does not change that list. |
| `FriendService.StaysSymmetric` | im-user/src/user_service.cc:279-459 | Over every run in which no second statement fails after a first that succeeded, the friend relation stays symmetric, whatever the identifiers and whatever Redis does. |
| `FriendService.HalfAddExactly` | im-user/src/user_service.cc:327-334 | When only the first insertion succeeds, it stays symmetric exactly when the other row was there already or is the same. |
| `FriendService.HalfRemoveExactly` | im-user/src/user_service.cc:427-443 | When only the first deletion succeeds, it stays symmetric exactly when there was no such row or both rows are the same. |
| `FriendService.UserRoundTrip` | im-user/src/user_service.cc:493-507 | The identifier of a cached user record comes back for every name, and the name stands behind the first colon. |

## Left out

- Sockets, muduo, hiredis, libmysql, ZooKeeper, protobuf and `std::hash`: foreign; they are outcomes given to a call, plain maps, or a pair of functions of which the second undoes the first.
- StandardLru.LRUCache.constructor: the exception for capacity 0 is a precondition here, as in the two caches with expiry (and for a fixed time to live of 0).
- `SimpleLRU` of the benchmark is the class `LRUCache`: its `get` and `put` are the same statements. Its timing fields, and the overflow of `key * 10`, are not modelled.
- VariableTtlLru.LRUCacheWithVariableTTL.CleanupExpired: complete only for a capacity of 1 or while the queue is a heap, which every put keeps that does not give a listed key another expiry (`VariableTtlLru.LaterExpiryHides` and `VariableTtlLru.EarlierExpiryHides` show why). A removed node stays readable and marked, which is what the comment at `examples/lru_algorithms/lru_with_variable_ttl.cc:43` intends; in the program the iterator dangles.
- ExpireQueue.PopHeap: the textbook binary heap; the standard library's lets the hole sink to the bottom first, which can arrange elements otherwise, above all when the queue is no heap any more.
- RateLimiting.EvictionIsLossless: for capacity and maximum of at least 1 and a clock that does not run back.
- MySqlPool.PoolSafety: which sleeper is woken is free, so no waiter is promised to be served (`MySqlPool.DrainExactly` says who is among those that look); destroying the pool is left out.
- RpcFraming.Connection.OnMessage: stops at a frame whose 32-bit size sum overflows, where the program reads past its buffer; nothing is claimed about resynchronising after an unparsable header. Methods answer before the next frame is taken, as all services of the repository do.
- RpcChannel.RecvResponse: a response of 2^31 bytes or more is outside the model, because the program converts its size to `int`.
- RpcCalls.OwnAnswer: for requests whose frames fit in 32 bits; the provider answers each request at most once and in order, which `RpcCalls.ProviderAnswersInOrder` shows of the frame loop.
- EndpointCache.AddressIsRecent: measured at the call's clock reading, not at its return, which can be later. Converting the two halves of an address to numbers (`atoi`, `inet_addr`) is left out.
- OfflineMessages.Conservation: for pulls that select and delete or do neither (`OfflineMessages.PullExact` is the exact condition); calls are atomic (`OfflineMessages.BetweenExactly` says which one call may come in between), and rows come back in the order they were stored. Identifiers wider than the column are stored as they are.
- FriendService.GetFriendsExact: calls are atomic, identifiers fit in 32 bits, and a call that changes the table changes it wholly with its cache commands taking effect; `FriendService.ChangeKeepsExactly` and `FriendService.LateFillExactly` say what happens otherwise. A query gives the rows in the table's order, in which a new row can stand anywhere.
- Group messages are modelled only as far as the pull touches them: they are stored under one user for all groups.
- Login state, routes and end-to-end delivery: a route outlives its session and nothing strong holds.
- `MultiTenantCache`, `WebPageCache`, `DatabaseQueryCache`, the group service, configuration, logging, prompts and timing code: no invariant, or the same structures again.
- OfflineMessages.OfflineModel.QueryGroupMessages: only copies what the statement gives.
- `clear()` of the fixed-TTL cache, `capacity()`, `empty()` and the printing functions: easy members.
