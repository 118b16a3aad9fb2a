# DNS lookup proxy and directory backend — a Dafny model

This project models the two pieces of sequential logic in the Lab 3 DNS
system: the caching proxy (`multithreaded_proxy.c`) and the directory
backend it queries (`server.c`).

* **Proxy.** The proxy keeps a three-slot round-robin cache. It is two
  parallel columns, `host_cache` (names) and `ip_cache` (addresses), plus a
  cursor `idx`. The operations are `existsInCache`, `updateCache` and
  `retrieveQuery`. For every request `<digit>#<key>`, `child_thread` makes one
  decision:
  * type 0 closes the session;
  * a hit replies from the cache;
  * a miss forwards the raw request to the backend and decodes the status
    byte of the reply;
  * status 3 caches the reply and status -1 closes the session.
* **Backend.** `search_database` scans the database lines top to bottom for
  the first line where `strstr` finds the key in the right place. `main`
  frames the reply as `'4' - status`, `'#'`, result, or sends the fixed
  database error string.

Modules:

| file | module | contents |
|---|---|---|
| strings.dfy | `Strings` | `strstr` as the first-occurrence search `FindFirst` |
| wire.dfy | `Wire` | request parsing shared by both programs; the client's framing as its inverse |
| server.dfy | `Server` | `search_database` as a loop method and as a reference function (`Scan`/`Search`); reply framing; one accepted connection |
| cache_model.dfy | `CacheModel` | the cache as a value (`CacheState`), what each cache operation does to it, and the eviction properties |
| proxy.dfy | `Proxy` | status decoding; the reference handler step `Step` and session `Run`; class `Cache` with arrays `hosts`, `ips` and cursor `idx`, and the methods `UpdateCache`, `RetrieveQuery`, `HandleRequest` and `Serve` |
| end_to_end.dfy | `EndToEnd` | how the proxy reads the backend's framed replies |

Sockets, files and the backend's reply are inputs. A received message is
the bytes that `strlen` sees. The database file is a sequence of lines, each
ending in `'\n'` as `getline` returns them, or `Unreadable` when `fopen`
fails. The backend's answer to a forwarded request is `Unreachable` (socket
or connect failure) or `Replied(bytes)`. A buffer the C code allocates and
never initialises is given as an explicit parameter (`stale`). The one
exception is the proxy's reply buffer on a cache hit: `retrieveQuery` always
overwrites it there (`CacheModel.RetrievedOnHit`).

The model keeps these behaviours of the code, even where a reader might
expect a DNS proxy to act otherwise:

* The proxy caches the backend's whole reply, including its `3#` prefix
  (`updateCache(request_msg, reply, ...)` at line 214). A hit replays those
  bytes verbatim, so the client gets `3#<answer>` and never `0#<answer>`.
  The stored address carries the prefix, so a later reverse lookup of the
  plain address misses (`Proxy.ForwardEntryMissesReverse`).
* A not-found reply `4#Entry Not Found` is forwarded as is, not renumbered.
* On a backend failure (`-` marker, or no connection) the proxy closes the
  client's connection without sending anything.
* Names are not kept unique across slots: two reverse lookups answered with
  the same name store it twice (`Proxy.DuplicateNamesReachable`).
* Initially every slot holds `""`, so an empty key is a hit
  (`Proxy.EmptyKeyHitsFreshCache`).
* Any first reply byte of `'/'` decodes to -1, just like `'-'`.

## Model

| member | source | states |
|---|---|---|
| Strings.FindFirst | Lab3_DNS_Server/Lab3/server.c:28 | `strstr`: the result is a position where the key occurs and no earlier position holds it; it is None exactly when the key occurs nowhere |
| Wire.ParseRequest | Lab3_DNS_Server/Lab3/multithreaded_proxy.c:161-172 | parsing a request framed as `<digit>#<key>` gives back the digit as the type and the key |
| Wire.RequestReassembles | Lab3_DNS_Server/Lab3/server.c:128-134 | a request with a digit and a `#` separator is exactly the framing of its parsed type and key |
| Server.Extract | Lab3_DNS_Server/Lab3/server.c:34-44 | the answer copied from a qualifying line has length `len(line) - len(key) - 1`; for a forward query the line is key + answer + newline; for a reverse query the answer is a prefix of the line |
| Server.Search | Lab3_DNS_Server/Lab3/server.c:18-55 | the status is -1 exactly when the database cannot be opened, and otherwise 0 or 1 |
| Server.SearchDatabase | Lab3_DNS_Server/Lab3/server.c:10-56 | the line loop with its early exit computes the reference scan: status and final contents of the `queried_object` buffer |
| Server.ScanFindsFirst | Lab3_DNS_Server/Lab3/server.c:27-47 | if line i is the first qualifying line, the status is 1 and the result is line i's extract, whatever the earlier lines did to the buffer |
| Server.ScanStatus | Lab3_DNS_Server/Lab3/server.c:43-55 | the status is 1 if and only if some line qualifies (forward: the key first occurs at position 0; reverse: it first occurs elsewhere) |
| Server.ScanNotFound | Lab3_DNS_Server/Lab3/server.c:43-51 | with no qualifying line the status is 0; the result is "Entry Not Found" if some line lacks the key, and otherwise the untouched buffer |
| Server.ScanStopsAtFirstMatch | Lab3_DNS_Server/Lab3/server.c:43-47 | once some line qualifies, lines appended after it never change the answer |
| Server.ForwardLineAnswer | Lab3_DNS_Server/Lab3/server.c:34-37 | a line key + answer + newline qualifies for a forward query and yields exactly that answer |
| Server.ReverseLineAnswer | Lab3_DNS_Server/Lab3/server.c:38-41 | a line answer + key + newline, without the key at its start, qualifies for a reverse query and yields exactly that answer |
| Server.FrameReply | Lab3_DNS_Server/Lab3/server.c:155-166 | the reply starts with '3' for found, '4' for not found, '-' for a database error; then '#'; then the result (the error is exactly "-#Database corrputed") |
| Server.HandleConnection | Lab3_DNS_Server/Lab3/server.c:127-166 | a type other than 1 or 2 stops the server with no reply; an unreadable database sends the error and stops; otherwise the framed search result is sent and the server goes on |
| CacheModel.Exists | Lab3_DNS_Server/Lab3/multithreaded_proxy.c:30-46 | type 1 is a hit if and only if some name slot equals the key, type 2 if and only if some address slot does; any other type is never a hit |
| CacheModel.Updated | Lab3_DNS_Server/Lab3/multithreaded_proxy.c:49-64 | only the cursor slot is written: (key, message) for type 1, (message, key) for type 2, nothing for other types; the other slots stay the same; the cursor always moves to (cursor + 1) mod 3 |
| CacheModel.LastMatch | Lab3_DNS_Server/Lab3/multithreaded_proxy.c:69-72 | the highest slot holding the key, with no higher slot holding it; None if and only if no slot holds it |
| CacheModel.CursorAdvances | Lab3_DNS_Server/Lab3/multithreaded_proxy.c:63 | after n updates of any types the cursor has moved n slots circularly and stays in [0, 3) |
| CacheModel.SlotUntouched | Lab3_DNS_Server/Lab3/multithreaded_proxy.c:51-63 | a slot that none of the updates' cursor positions reach keeps both its entries |
| CacheModel.RoundRobinEviction | Lab3_DNS_Server/Lab3/multithreaded_proxy.c:51-63 | a slot filled by one insertion survives the next two updates, and the third update after it writes that same slot |
| CacheModel.ExistsAfterUpdate | Lab3_DNS_Server/Lab3/multithreaded_proxy.c:30-58 | right after `updateCache(k, m, t)` with t in {1, 2}, `existsInCache(t, k)` holds |
| CacheModel.InsertThenRetrieve | Lab3_DNS_Server/Lab3/multithreaded_proxy.c:49-80 | inserting a key that missed makes it a hit that retrieves the stored message, forward and reverse alike |
| CacheModel.RetrievedOnHit | Lab3_DNS_Server/Lab3/multithreaded_proxy.c:67-80 | on a hit the reply's earlier contents do not matter, and the reply is the opposite entry of a slot holding the key |
| CacheModel.FourthInsertEvictsFirst | Lab3_DNS_Server/Lab3/multithreaded_proxy.c:49-80 | after four forward insertions of distinct pairs, the first pair cannot be found in either direction and each of the other three can be retrieved in both |
| Wire.MessageType | Lab3_DNS_Server/Lab3/server.c:128 | the type is 0, 1 or 2 exactly when the first byte is the digit '0', '1' or '2' (an empty buffer reads as NUL) |
| Wire.Key | Lab3_DNS_Server/Lab3/server.c:129-134 | the key is the request minus its first two bytes: two bytes shorter, and the type byte and separator followed by the key give back the request |
| Server.Qualifies | Lab3_DNS_Server/Lab3/server.c:28-41 | a line qualifies for a forward query exactly when the key occurs at its start, and for a reverse query exactly when the key occurs in it but not at its start |
| Server.Scan | Lab3_DNS_Server/Lab3/server.c:27-52 | the status is 0 or 1, and it is 1 exactly when some line qualifies |
| CacheModel.Retrieved | Lab3_DNS_Server/Lab3/multithreaded_proxy.c:67-81 | for a type other than 1 or 2, or a key absent from the searched column, the reply is unchanged; otherwise it is the partner of the key in the last slot holding it, with no later slot holding that key |
| Proxy.Step | Lab3_DNS_Server/Lab3/multithreaded_proxy.c:161-226 | a type-0 request closes with the cache unchanged; a close never changes the cache; the cache changes only when the backend replied, and then that reply is sent; the cache stays well-formed |
| Proxy.Run | Lab3_DNS_Server/Lab3/multithreaded_proxy.c:153-231 | the cache stays well-formed over a session, and no more replies are sent than requests are received |
| Proxy.DecodeStatus | Lab3_DNS_Server/Lab3/multithreaded_proxy.c:141-145 | the status is -1 if and only if the first byte is '-' or '/'; it is 3 if and only if that byte is '3', and 4 if and only if it is '4'; a digit decodes to its value |
| Proxy.CopyLastMatch | Lab3_DNS_Server/Lab3/multithreaded_proxy.c:69-72 | the forward loop with no break leaves the value paired with the last matching key, or the reply unchanged when nothing matches |
| Proxy.Cache.constructor | Lab3_DNS_Server/Lab3/multithreaded_proxy.c:17-19 | every slot starts empty and the cursor starts at 0 |
| Proxy.Cache.UpdateCache | Lab3_DNS_Server/Lab3/multithreaded_proxy.c:49-64 | the arrays and cursor change exactly as `CacheModel.Updated` says |
| Proxy.Cache.RetrieveQuery | Lab3_DNS_Server/Lab3/multithreaded_proxy.c:67-81 | the reply is the opposite column of the last matching slot, unchanged if none matches or the type is not 1 or 2 |
| Proxy.Cache.HandleRequest | Lab3_DNS_Server/Lab3/multithreaded_proxy.c:160-226 | one request changes the action and the cache exactly as the reference step `Step` does |
| Proxy.Cache.Serve | Lab3_DNS_Server/Lab3/multithreaded_proxy.c:153-231 | the request loop sends the replies and leaves the cache exactly as the reference session `Run` does, stopping at the first close |
| Proxy.TerminateClosesSilently | Lab3_DNS_Server/Lab3/multithreaded_proxy.c:161-167 | type 0 closes the session with no reply and no cache change, whatever the backend would say |
| Proxy.HitSkipsBackend | Lab3_DNS_Server/Lab3/multithreaded_proxy.c:199-205 | on a hit the backend's answer cannot change the outcome, the cache is unchanged, and the reply is the opposite entry of a slot holding the key |
| Proxy.CacheChangesOnlyOnFound | Lab3_DNS_Server/Lab3/multithreaded_proxy.c:206-216 | the cache changes only on a miss whose reply decodes to 3, and then by one update storing the key with the whole reply |
| Proxy.BackendDownCloses | Lab3_DNS_Server/Lab3/multithreaded_proxy.c:210-220 | a miss with the backend unreachable or returning status -1 closes the session, sending nothing and leaving the cache alone |
| Proxy.OtherStatusForwarded | Lab3_DNS_Server/Lab3/multithreaded_proxy.c:210-226 | a miss whose reply decodes to neither 3 nor -1 sends that reply verbatim and caches nothing |
| Proxy.RepeatServedFromCache | Lab3_DNS_Server/Lab3/multithreaded_proxy.c:199-226 | a found answer is sent as received; asked again, it is served from the cache with the same bytes whatever the backend would say |
| Proxy.RunStopsAtClose | Lab3_DNS_Server/Lab3/multithreaded_proxy.c:153-231 | after a close, later requests of the connection change neither the replies nor the cache |
| Proxy.RunRepliesOncePerRequest | Lab3_DNS_Server/Lab3/multithreaded_proxy.c:153-228 | an open session sends one reply per request; a closed one sends fewer replies than it received requests |
| Proxy.EmptyKeyHitsFreshCache | Lab3_DNS_Server/Lab3/multithreaded_proxy.c:17-45 | at start-up, the requests "1#" and "2#" are hits answered with an empty reply |
| Proxy.ForwardEntryMissesReverse | Lab3_DNS_Server/Lab3/multithreaded_proxy.c:213-214 | after a forward lookup answered "3#" + address, a reverse lookup of that plain address misses |
| Proxy.DuplicateNamesReachable | Lab3_DNS_Server/Lab3/multithreaded_proxy.c:55-58 | two reverse lookups answered with the same name leave that name in two slots |
| EndToEnd.DecodeFramedReply | Lab3_DNS_Server/Lab3/server.c:155-166 | the proxy decodes the backend's found reply as 3, not-found as 4 and the database error as -1 |
| EndToEnd.OnlyFoundRecordsCached | Lab3_DNS_Server/Lab3/multithreaded_proxy.c:210-219 | for a missed lookup answered by the backend: the pair is cached and sent if and only if some database line qualifies; not-found is sent uncached; an unreadable database closes the session |
| EndToEnd.CachedRecordComesFromFirstMatch | Lab3_DNS_Server/Lab3/multithreaded_proxy.c:213-214 | what gets cached and sent is "3#" followed by the extract of the first qualifying database line |

## Left out

- Sockets are not modelled: creation, bind, listen, accept, connect, send, recv and close in both programs. The request bytes, the backend's reply and the database lines are inputs; a sent reply is an `Action`/`ServerAction` value.
- Threads are not modelled (`pthread_create`, `pthread_detach`). The cache is used sequentially. The proxy shares it between threads without a lock, so interleaved half-written entries cannot arise in this model.
- The proxy's accept loop (`main`) and the backend's accept loop around one connection are left out. Both are pure I/O. `Server.HandleConnection` models one iteration of the backend's loop.
- File access is not modelled (`fopen`, `getline`, `fclose`). The database is a sequence of newline-terminated lines, or `Unreadable`.
- `printf` diagnostics and `printCache` produce output only and are left out.
- `client.c` is not part of this model. Only its `<digit>#<key>` framing appears, as `Wire.Request`.
- `isDomainName` and `isIPAddress` always return true, so the branches that use them never fire. They are omitted.
- Fixed 1024-byte buffers are not modelled. Strings are unbounded, so overflow of the cache slots, the reply buffers and the receive buffer is not captured.
- C memory hazards are stated as preconditions:
  - A request shorter than two bytes, other than the bare "0", makes `strlen(buffer) - 2` wrap around (`Proxy.Handleable`, and `|request| >= 2` on the backend).
  - A database line equal to the key would make `strlen(line) - strlen(key) - 1` wrap around. This is excluded by requiring newline-terminated lines and a key without a newline.
  - A zero-length `recv` is excluded by the same request preconditions.
- The one-byte write past the end of the key buffer is not modelled. `request_msg` is declared with `strlen(buffer) - 2` bytes, and the terminator is then written at that index (Lab3_DNS_Server/Lab3/multithreaded_proxy.c:170-172, Lab3_DNS_Server/Lab3/server.c:129-134). The model treats the key as a string and has no buffer to overrun.
- Server.Search: its requires `WellFormed` excludes a final database line without `'\n'`. `getline` returns such a line, and `search_database` accepts it: `strlen(line) - strlen(key) - 1` then cuts the last byte off the answer. The model does not capture that truncation.
- The reply buffer's residue is not modelled. After `recv` the model's reply is exactly the received bytes. Garbage left beyond them, after `memset` over uninitialised memory, is not captured.
- On `Unreachable` the proxy's reply buffer is irrelevant because the session closes. The model does not track its contents there.
