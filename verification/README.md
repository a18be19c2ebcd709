# Verified models of nitr's state and codec cores

This project models the parts of nitr where correctness rests on several pieces
agreeing: the shared cache and its indexes, the one-pass bounded serializer and
the decoder beside it, the rate limiter, the walk that collects a bundle's
sources, byte ranges and streamed files, the URL and query codecs, the
diagnostic highlighter, the compressing body, and the fetch double. Each class
or method follows the branches of the code it cites and is proved against a
specification that does not use its data structures; the lemmas then prove what
that specification promises over all inputs, all runs or all reachable states.

`dafny verify dfyconfig.toml` checks everything. No file includes another; the
modules import one another as the list below goes on.

- `Basics`, `Strings`, `Decimal`, `Sorting`, `Headers`: shared vocabulary.
- `CacheSpec`, `CacheIndexes`, `CacheMachine`, `Cache`, `CacheTtl`,
  `CacheRecency`: the cache. `Cache` holds the classes with the entry map, the two ordered indexes
  and the hand-kept byte counter. `CacheSpec` says in closed form what eviction
  leaves, without an index. `CacheMachine` interleaves tick-taking with locked
  bodies. `CacheTtl` is a write and the lookup after it; `CacheRecency` is a plain
  recency-ordered list.
- `LuaHeap`, `JsonTokens`, `Encoding`, `Bounded`, `JsonRoundTrip`,
  `JsonMeaning`, `JsonDecode`, `WalkingGuard`, `GuardAgreement`: JSON. Tables are ids in a
  finite heap, so sharing and cycles are real, and `raw_len` may be any border.
  `Encoding` is the unbounded encoder, `Bounded` the pass that carries the bounds,
  `JsonMeaning` the document that every encoding reads as,
  `WalkingGuard` the older guard that walks a value first, `GuardAgreement`
  where the two agree.
- `ClientKeys`, `RateLimit`, `RateLimiter`, `RateClients`: the limiter, and how
  many clients it tells apart.
- `SourceTree`, `LuaFiles`, `LuaWalk`, `Bundle`: the bundle's source walk, and
  the trailer that finds an archive again.
- `Range`, `RangeText`, `FileBody`, `FileVersions`: `Range`/`If-Range`, the
  header texts that are understood, the streamed file body, and files that
  change between two requests.
- `Percent`, `Query`, `QueryText`, `Url`, `UrlText`: the URL codecs, and what
  single characters mean in them.
- `Ansi`, `LuaPaint`, `LinePaint`, `PaintShapes`, `TextPaint`: the highlighter.
- `CompressedBody`: the compressing body over an abstract encoder.
- `FetchMock`: the fetch double.

## Where the code and its documentation part

The models follow the code. What that shows:

- A cache write that takes its tick early and its lock late can be its own
  victim (`CacheMachine.LateWriteCanEvictItself`); `WriteSurvivesIff` is the
  exact condition, and a live write alone in tick order always survives.
- `bounded.rs:63-64` says the pass charges nodes as the walking guard does, and
  `bounded.rs:642-644` that it refuses exactly the values the guard refuses.
  They differ both ways. The guard also charges every index of a list
  (`WalkingGuard.PassAcceptsMore`: a list of 500,000 items), and it does not
  look for what cannot be written (`GuardAgreement.GuardAcceptsMore`:
  `{ true, a = true }`). `GuardAgreement.AgreeIff` says over every value when
  they agree, and `GuardAcceptsMoreIff` and `PassAcceptsMoreIff` when each
  accepts more.
- A decoded integer above the signed 64-bit range becomes a float, as Lua has no
  such integer, so such a document does not come back as it was
  (`JsonDecode.LargeIntegerBecomesFloat`). `DecodeEncodeIsIdentityIff` is the
  exact condition; on trees, a second trip never changes anything more
  (`DecodeEncodeIsAFixpoint`).
- `json.rs:39-46` says the two directions share one nesting bound. The decoder
  stops at 127 and the encoder at 128, so exactly the documents of depth 128 are
  written and cannot be read back (`JsonDecode.WrittenDecodesIff`,
  `WrittenButNotDecoded`).
- `protect.rs:364-373` says the key is the proxy's own entry, whatever the client
  wrote before it. The whole line is read as text first, so one client byte
  outside visible ASCII hides the proxy's entry and charges the proxy's own
  address instead (`ClientKeys.ClientByteMovesTheBudget`).
  `ClientTextIsIgnoredIff` is the exact condition.
- `range.rs:37-40` says `If-Range` keeps fresh bytes from being stitched into a
  stale copy. The server's tag is only length and second
  (`static_files.rs:525-532`), so a file replaced within one second by another
  of the same length is stitched (`FileVersions.SameSecondStitches`);
  `FileVersions.ResumedIsCurrentIff` says exactly when a resumed download is the
  current file. Apart from that, a validator that is not visible ASCII counts as
  absent (`range.rs:58-60`; `FileBody.UnreadableTagStitches`), and
  `FileBody.StaleIsHonouredIff` says exactly when a validator other than the
  current one is honoured.
- `Retry-After` is rounded down to seconds. Waiting that long is enough exactly
  under the condition of `RateLimit.WaitingRetryIff`
  (`AnnouncedWaitCanBeTooShort` is a case where it is not); one second more is
  always enough (`RefusedClientIsReadmitted`).
- Painting a line keeps its text. Painting a whole diagnostic keeps it exactly
  when no carriage return stands before a newline, because the lines are taken
  without it (`TextPaint.RejoinedIff`, `ReturnIsDropped`).
- The break in the cache's eviction loop for an empty recency index is
  unreachable: `Cache.Inner.Victim` always finds a key.

## Model

| member | source | states |
|---|---|---|
| Cache.Inner.Remove | crates/nitr-std/src/cache.rs:111-126 | The entry leaves the map and both indexes, which stay exact; the byte debit never saturates |
| Cache.Inner.Get | crates/nitr-std/src/cache.rs:192-213 | A lookup answers and re-ranks as the index-free model does; a dead entry is dropped and counts as a miss |
| Cache.Inner.Insert | crates/nitr-std/src/cache.rs:246-264 | The write replaces any earlier entry of its key in the map, both indexes and the byte counter, under one tick |
| Cache.Inner.Evict | crates/nitr-std/src/cache.rs:275-297 | Eviction terminates inside both bounds and leaves exactly the entries the closed form keeps, unchanged, counting exactly the victims that had time left |
| Cache.Inner.EvictOne | crates/nitr-std/src/cache.rs:277-296 | One turn gives up the entry that comes first in the order of victims, and nothing else |
| Cache.Inner.Victim | crates/nitr-std/src/cache.rs:278-292 | While a bound is exceeded some key is found: the soonest dead entry, and only when none is dead the least recently used |
| Cache.Cache.Tick | crates/nitr-std/src/cache.rs:179-181 | A tick is new: no stored entry and no other call in flight has it |
| Cache.Cache.GetRaw | crates/nitr-std/src/cache.rs:183-214 | A lookup is its tick followed by its locked body, and answers as the index-free model |
| Cache.Cache.SetRaw | crates/nitr-std/src/cache.rs:216-267 | Refused exactly for a key over 1024 bytes or an entry larger than the cache, and then nothing changes; otherwise stored to expire its seconds later, ten years at the most, or never without seconds or past the clock's last instant; still there afterwards when it is alive and there is room for one entry |
| CacheTtl.SetThenGet | crates/nitr-std/src/cache.rs:183-267 | A write and the lookup after it: the value is answered exactly before the instant now + min(ttl, 315,360,000) * 1,000,000,000, or always without seconds or past the clock's last instant |
| Cache.Cache.Delete | crates/nitr-std/src/cache.rs:340-344 | Removes the key and says whether it was there; a write of nil takes the same path |
| Cache.Cache.Clear | crates/nitr-std/src/cache.rs:164-171 | Drops every entry, keeps the counters |
| Cache.Cache.Interleave | crates/nitr-std/src/cache.rs:98-126 | Any interleaving of ticks and locked bodies keeps both indexes and the byte counter exact and follows the index-free machine |
| CacheIndexes.FirstSlotIsFirst | crates/nitr-std/src/cache.rs:278-282 | When the first key of the expiry index is dead, its entry is the first victim |
| CacheIndexes.FirstTickIsFirst | crates/nitr-std/src/cache.rs:287-292 | When it is not, no entry is dead and the first key of the recency index is the first victim |
| CacheIndexes.IndexesExistIff | crates/nitr-std/src/cache.rs:98-109 | Exact indexes exist for a map exactly when no two entries share a tick or an expiry slot |
| CacheSpec.KeptWithin | crates/nitr-std/src/cache.rs:268-277 | What eviction leaves is inside both bounds, whatever it started from |
| CacheSpec.VictimsComeFirst | crates/nitr-std/src/cache.rs:268-274 | No live entry goes while a dead one stays, the dead go by deadline, and every live victim is older than every survivor |
| CacheSpec.NoSpareVictim | crates/nitr-std/src/cache.rs:268-277 | Putting the last victim back would exceed a bound: nothing is given up without need |
| CacheSpec.LiveEntrySurvives | crates/nitr-std/src/cache.rs:275-297 | A live entry survives exactly when it and the live entries used after it fit inside both bounds |
| CacheSpec.EvictedStep | crates/nitr-std/src/cache.rs:277-296 | Giving up the first victim changes neither what is finally kept nor the final count of evictions |
| CacheSpec.LookupMeans | crates/nitr-std/src/cache.rs:192-213 | A value with time left is answered, counted as a hit and ranked last used; anything else is a miss and is gone; no other entry is touched |
| CacheMachine.StepKeepsInv | crates/nitr-std/src/cache.rs:183-297 | Each tick and each locked body keeps stored ticks unique, no tick in flight stored, and both bounds held |
| CacheMachine.RunsKeepInv | crates/nitr-std/src/cache.rs:183-297 | Every interleaving of concurrent calls keeps that invariant |
| CacheMachine.EntriesAreLatestWrites | crates/nitr-std/src/cache.rs:183-267 | After any interleaving each entry holds the latest write of its key since it was deleted or cleared, and hits plus misses count the lookups |
| CacheMachine.HitsAreLatestWrites | crates/nitr-std/src/cache.rs:192-203 | A hit is the bytes of the latest write of that key, not expired |
| CacheMachine.WriteSurvivesIff | crates/nitr-std/src/cache.rs:244-266 | Exactly when a write outlives the eviction it triggers, for any order of locked bodies, alive or already expired when it locks |
| CacheMachine.NewestWriteSurvives | crates/nitr-std/src/cache.rs:244-266 | A write whose tick is the newest is never its own victim |
| CacheMachine.LateWriteCanEvictItself | crates/nitr-std/src/cache.rs:244-245 | For any two keys and values the cache accepts: a reachable run of two writers in which the write that locks last is gone at once |
| CacheRecency.CacheRefinesRecencyList | crates/nitr-std/src/cache.rs:183-297 | Any sequence of get, set, delete and clear answers, and counts hits, misses and evictions, as a plain recency-ordered list scanned for victims does |
| CacheRecency.TrimShowsKept | crates/nitr-std/src/cache.rs:275-297 | Trimming the list victim by victim leaves exactly what the closed form keeps |
| CacheRecency.ScanFindsFirst | crates/nitr-std/src/cache.rs:278-292 | Scanning the list finds the first victim in the order |
| LuaHeap.Pigeonhole | crates/nitr-std/src/bounded.rs:190-194 | As many distinct positive indexes as the highest of them are exactly 1..n |
| LuaHeap.NoEntryLost | crates/nitr-std/src/bounded.rs:167-202 | Whichever loop writes a list, each entry is written at its own index and null only in holes |
| Encoding.EncodeBalanced | crates/nitr-std/src/bounded.rs:148-223 | Whatever is encoded closes every container it opens |
| Bounded.Bounds.Visit | crates/nitr-std/src/bounded.rs:63-72 | Charges one node, or refuses with the budget unchanged |
| Bounded.Bounds.Enter | crates/nitr-std/src/bounded.rs:74-83 | Goes one level down, or refuses with the depth unchanged |
| Bounded.Pass.Serialize | crates/nitr-std/src/bounded.rs:148-161 | From any point of a pass: succeeds exactly when the unbounded encoder does and its output fits what is left, with that output, the depth restored on success and the table stack restored always |
| Bounded.Pass.SerializeList | crates/nitr-std/src/bounded.rs:167-202 | The same for a table with a list part: mixed refused, sparse written as a map, dense as a list |
| Bounded.Pass.WalkKeys | crates/nitr-std/src/bounded.rs:168-185 | The key walk finds a key that is no index exactly when there is one, and else the count and the highest |
| Bounded.Pass.SerializeItems | crates/nitr-std/src/bounded.rs:497-520 | A list's items are written in order, exactly when all of them fit |
| Bounded.Pass.SerializePairs | crates/nitr-std/src/bounded.rs:204-222 | A map's entries are written in traversal order, names charged like values |
| Bounded.ToJson | crates/nitr-std/src/bounded.rs:113-124 | On every heap, cyclic or shared: terminates, and succeeds exactly when the unbounded encoder does within depth 128, 1,000,000 nodes and no string outside UTF-8, with the same output; `JsonMeaning` says what that output reads as |
| JsonRoundTrip.ReadTokens | crates/nitr-std/src/json.rs:30-49 | Reading written tokens gives the document back, whatever follows it |
| JsonRoundTrip.EncodeHeld | crates/nitr-std/src/bounded.rs:148-223 | A value holding a document is encoded as that document: no cycle, no mixed table, lists whole |
| JsonTokens.PeakMeans | crates/nitr-std/src/bounded.rs:74-83 | The depth that is bounded is the most that is open at any point of the output, lists and maps counted alike |
| JsonMeaning.LeafReads | crates/nitr-std/src/bounded.rs:225-232 | Nil, the null marker and floats that are not finite are written as null, other values without children as themselves, functions and userdata not at all |
| JsonMeaning.EncodedReads | crates/nitr-std/src/bounded.rs:148-223 | Whatever is encoded reads as one whole document |
| JsonMeaning.ListReads | crates/nitr-std/src/bounded.rs:167-202 | A list whose highest index is at most twice its count reads as an array of that length, null wherever it has no key and each value's own document at its index |
| JsonMeaning.MapReads | crates/nitr-std/src/bounded.rs:204-223 | Any other table reads as an object of its keys and its values' own documents, in traversal order |
| JsonMeaning.TableEncodesIff | crates/nitr-std/src/bounded.rs:167-223 | A table is encoded exactly when no list part stands beside other keys, keys without a list part are strings, integers, booleans or finite floats, and every value is encoded |
| JsonMeaning.WriteThenRead | crates/nitr-std/src/bounded.rs:113-124 | One bounded write and a reader after it: answers exactly within depth 128, 1,000,000 nodes and UTF-8; nil reads as null, an empty table as its metatable says |
| JsonMeaning.ReadersAgree | crates/nitr-std/src/json.rs:30-49 | The reader of any encoding agrees with the reader of documents wherever that one reads |
| JsonDecode.DecodeHolds | crates/nitr-std/src/json.rs:38-49 | Decoding builds a value holding the document as far as Lua can, integers above 64 signed bits as the nearest float, and touches no older table |
| JsonDecode.DecodeEncodeReads | crates/nitr-std/src/json.rs:25-49 | Decode, encode, read gives the document as Lua holds it, empty containers and nulls included; the pass accepts it exactly within the depth and the node budget |
| JsonDecode.DecodeEncodeIsIdentityIff | crates/nitr-std/src/json.rs:130-138 | The document itself comes back exactly when all its integers fit 64 signed bits |
| JsonDecode.DecodeEncodeIsAFixpoint | fuzz/fuzz_targets/json_lua.rs:29-34 | Whatever the document, a second trip changes nothing, a printed float being read back as itself |
| JsonDecode.LargeIntegerBecomesFloat | crates/nitr-std/src/json.rs:136-138 | The largest unsigned 64-bit integer comes back as the float 2^64 |
| JsonDecode.NearestDoubleIs | crates/nitr-std/src/json.rs:136-138 | The float an integer from 2^63 to 2^64 comes back as is the nearest double, ties to even |
| JsonDecode.WrittenDecodesIff | fuzz/fuzz_targets/json_lua.rs:46-54 | For every value encoded as a document: what the pass writes is decoded again exactly when it nests at most 127 deep, so exactly depth 128 is written and refused |
| JsonDecode.DecodeTextIff | crates/nitr-std/src/json.rs:38-49 | A text is decoded exactly when it is one document with nothing after it, at most 127 deep |
| JsonDecode.WrittenButNotDecoded | fuzz/fuzz_targets/json_lua.rs:271-274 | Tables of 128 nested arrays that are written and refused on the way back |
| JsonDecode.HeldIsDecoded | crates/nitr-std/src/json.rs:38-49 | What decoding builds is among the values described up to traversal order |
| JsonDecode.DecodedEncodesInAnyOrder | crates/nitr-std/src/json.rs:25-49 | Whatever order tables traverse their members in, the result reads back as the document Lua holds, up to that order |
| WalkingGuard.WalkMeasures | crates/nitr-std/src/utils.rs:115-150 | What the walk charges and refuses, for every value that can be encoded, in terms of its encoding and the slack of its lists |
| WalkingGuard.ListMeasures | crates/nitr-std/src/bounded.rs:190-200 | A list written item by item measures what its pairs do, except that pairs count indexes and items count holes |
| WalkingGuard.GuardIff | crates/nitr-std/src/utils.rs:83-86 | For a value that can be encoded, the guard accepts exactly when the pass does and the slack still fits in the budget |
| WalkingGuard.PassAcceptsMore | crates/nitr-std/src/bounded.rs:63-72 | A list the pass writes and the guard refuses |
| GuardAgreement.WalkIsUnfolding | crates/nitr-std/src/utils.rs:115-150 | For every value, cyclic or not, encodable or not, the walk with its running budget accepts exactly a finite unfolding of the right size without other than UTF-8 strings, and charges its nodes |
| GuardAgreement.EncodeIffWritable | crates/nitr-std/src/bounded.rs:148-223 | A value with a finite unfolding is encoded exactly when nothing in it is beyond JSON: no function, no mixed table, no unusable key |
| GuardAgreement.GuardAcceptsIff | crates/nitr-std/src/utils.rs:83-86 | The guard accepts exactly the unfoldings of bounded depth and size whose strings are UTF-8 |
| GuardAgreement.GuardAcceptsMoreIff | crates/nitr-std/src/bounded.rs:642-644 | The guard accepts what the pass refuses exactly when it meets something that cannot be written |
| GuardAgreement.PassAcceptsMoreIff | crates/nitr-std/src/bounded.rs:642-644 | The pass accepts what the guard refuses exactly when the indexes of lists take it over the budget |
| GuardAgreement.EncodedUnfolds | crates/nitr-std/src/bounded.rs:148-223 | A value that is encoded unfolds as deep as its encoding nests, with its nodes and the slack |
| GuardAgreement.PassAcceptsIff | crates/nitr-std/src/bounded.rs:113-124 | What the pass accepts, for every value, in terms of its unfolding |
| GuardAgreement.AgreeIff | crates/nitr-std/src/bounded.rs:642-644 | Over every value, exactly when the two agree, in terms of its unfolding, what in it can be written and its slack |
| GuardAgreement.GuardAcceptsMore | crates/nitr-std/src/bounded.rs:642-644 | A mixed table the guard accepts and the pass refuses |
| ClientKeys.SharedBudgetIff | crates/nitr-http/src/protect.rs:394-405 | Two addresses share a budget exactly when they are one IPv4 address, mapped or not, or lie in one IPv6 /64 |
| ClientKeys.BucketKeyIs | crates/nitr-http/src/protect.rs:394-405 | An IPv4 address, mapped or not, is its own budget; any other IPv6 address has that of its first four segments |
| ClientKeys.PeerIsCharged | crates/nitr-http/src/protect.rs:374-391 | Without trust, without a forwarded line, or with a byte outside visible ASCII in the last one, the peer is charged |
| ClientKeys.LastEntryIsCharged | crates/nitr-http/src/protect.rs:364-391 | Under trust the address after the last comma of the last line is charged, and the peer when it is none |
| ClientKeys.ClientTextIsIgnoredIff | crates/nitr-http/src/protect.rs:374-391 | What a client writes before the proxy's own entry leaves its key alone exactly when forwarding is not trusted, that text is visible ASCII, or the entry gives the peer's key anyway |
| ClientKeys.ClientByteMovesTheBudget | crates/nitr-http/src/protect.rs:377-388 | One byte outside visible ASCII before the proxy's entry charges the request to the peer instead |
| RateLimiter.Limiter.CheckWith | crates/nitr-http/src/protect.rs:309-361 | One check under the lock purges, caps, restarts and counts as the specification does, and never exceeds the cap; below 200,000 tracked clients every request is counted, and a refused one is over the maximum |
| RateLimiter.Limiter.Serve | crates/nitr-http/src/protect.rs:309-361 | Over a whole trace the refused requests are exactly those the specification refuses |
| RateLimit.CheckKeepsCap | crates/nitr-http/src/protect.rs:335-341 | Whatever clients and clock do, the map never exceeds its cap |
| RateLimit.ClientsAreIsolated | crates/nitr-http/src/protect.rs:325-360 | With an ordered clock below the cap, every verdict is the one of a limiter for that client alone that never purges |
| RateLimit.RunRemembers | crates/nitr-http/src/protect.rs:325-334 | A purge forgets only buckets that would have restarted anyway |
| RateLimit.SlidingBound | crates/nitr-http/src/protect.rs:342-360 | For one client, any half-open interval of one window's length admits at most twice the maximum |
| RateLimit.OneWindow | crates/nitr-http/src/protect.rs:342-360 | Since the current window opened at most the maximum was admitted |
| RateLimit.RunSlidingBound | crates/nitr-http/src/protect.rs:309-361 | The same bound in any run among any other clients |
| RateLimit.WaitingRetryIff | crates/nitr-http/src/protect.rs:355-358 | Exactly when waiting the announced seconds starts a fresh window |
| RateLimit.AnnouncedWaitCanBeTooShort | crates/nitr-http/src/protect.rs:309-361 | A run with a window of two seconds and one request in it: refused after half a second and told to wait one, a client that does is refused again |
| RateLimit.WaitingPastRetryIsEnough | crates/nitr-http/src/protect.rs:355-358 | One second more always does |
| RateLimit.RefusedClientIsReadmitted | crates/nitr-http/src/protect.rs:309-361 | In every run, the map full or not and the clock going either way, a refused client that waits that long is admitted, whatever others do |
| RateLimit.OthersLeaveBucket | crates/nitr-http/src/protect.rs:325-354 | Other clients' requests leave a client's bucket as it was or purge it |
| RateLimit.RefusalIsEarned | crates/nitr-http/src/protect.rs:325-360 | In every run with an ordered clock, full or not, a refused client made more than the maximum inside the window that ends now |
| RateClients.NeverFullWithFewClients | crates/nitr-http/src/protect.rs:40-41 | A run whose requests come from at most 200,000 different clients never meets the cap |
| RateClients.FewClientsAreIsolated | crates/nitr-http/src/protect.rs:325-360 | In such a run with an ordered clock every answer is the one its client would have got alone |
| RateClients.FewClientsSlidingBound | crates/nitr-http/src/protect.rs:309-361 | In such a run no client has more than twice the maximum admitted in one window's length |
| RateClients.UncountedIff | crates/nitr-http/src/protect.rs:325-341 | Exactly when a request is admitted without being counted: 200,000 clients or more are left, itself not among them, after a purge that runs over 10,000 clients and a second after the last |
| RateClients.RetryIs | crates/nitr-http/src/protect.rs:355-358 | A refusal names the whole seconds left of the window, and one at the least |
| RateClients.BurstIsCut | crates/nitr-http/src/protect.rs:342-360 | Inside the window that a client's first request opened, it is refused exactly past the maximum |
| LuaFiles.ExpandFinds | crates/nitr-cli/src/bundle.rs:457-468 | Opening a directory keeps what has been found and what the stack still covers equal to the sources |
| LuaFiles.SkipStep | crates/nitr-cli/src/bundle.rs:454-456 | Skipping a directory already in its own chain loses no source |
| LuaWalk.FuelDrops | crates/nitr-cli/src/bundle.rs:449-469 | Opening a directory trades one stack entry for lighter ones, because a chain of different directories is no longer than their number |
| LuaWalk.Walk | crates/nitr-cli/src/bundle.rs:445-472 | On every finite graph with links and cycles: terminates, fails exactly when a directory it must read cannot be read, and lists, sorted and once, exactly the files, in directories reached along chains of different ones, whose name is longer than four bytes and ends in `.lua` |
| LuaWalk.ListingOrderIsInvisible | crates/nitr-cli/src/bundle.rs:438-439 | The order in which the system lists directories does not show in the result |
| SourceTree.LuaExtensionIff | crates/nitr-cli/src/bundle.rs:465 | A name has the extension exactly when it is longer than four bytes and ends in a dot and `lua` |
| SourceTree.ReachableMeans | crates/nitr-cli/src/bundle.rs:447-456 | A directory is opened exactly when no directory on the way to it is met twice |
| Sorting.ListsLeqIff | crates/nitr-cli/src/bundle.rs:470 | Paths are in order name by name: the first different name decides, and a path comes before those it begins |
| Bundle.ReadBuilt | crates/nitr-cli/src/bundle.rs:411-419 | Reading a build finds its archive, whatever the executable ends with; an empty one is reported corrupt |
| Bundle.FoundIffBuilt | crates/nitr-cli/src/bundle.rs:40-64 | An archive is found in a file exactly when the file is some build of it |
| Bundle.BuildsIff | crates/nitr-cli/src/bundle.rs:355-419 | A build goes through exactly when the executable is too short for a trailer or does not end in the magic, and writes executable, archive, length and magic |
| Bundle.LengthIsSpelled | crates/nitr-cli/src/bundle.rs:418-418 | The length is eight bytes, the lowest first |
| Bundle.BuildsOnce | crates/nitr-cli/src/bundle.rs:355-359 | An artifact refuses to build, and starts with the executable that built it |
| Decimal.ReadDigitsIff | crates/nitr-http/src/range.rs:103-118 | A text of digits is read exactly when its value fits, and as that value |
| Decimal.ParsePrint | crates/nitr-http/src/range.rs:103-118 | Parsing a printed number gives it back, or overflows |
| Range.ParseMeans | crates/nitr-http/src/range.rs:80-128 | For every header and length, the answer is exactly the wanted positions inside the representation, unsatisfiable when there are none, and the whole file when the range is not understood |
| RangeText.AskedIff | crates/nitr-http/src/range.rs:80-118 | Which header texts are understood, by their characters: the unit, numbers around one dash, each with an optional plus, and blanks around the whole, after the unit and around the dash |
| RangeText.TrimIs | crates/nitr-http/src/range.rs:81-93 | Trimming finds what lies between blanks |
| Range.AskedPrint | crates/nitr-http/src/range.rs:80-128 | A printed range is understood as itself exactly when its numbers fit in 64 bits |
| Range.PartialIsStable | crates/nitr-http/src/range.rs:101-123 | A partial answer's length does not overflow, and asking for its span gives it again |
| Range.AskResolves | crates/nitr-http/src/range.rs:95-128 | What each form of range is answered with, in numbers |
| Range.IfRangeMatchesIff | crates/nitr-http/src/range.rs:57-77 | A validator allows the range exactly when there is none that can be read, it is the file's tag, or it is a date in the file's second |
| FileBody.ReadSpan | crates/nitr-http/src/static_files.rs:457-467 | Reads the bytes of the span the file has |
| FileBody.StreamFile | crates/nitr-http/src/static_files.rs:494-521 | However reads fall, the chunks are nonempty, at most one buffer each, and join to the span, or to a prefix of it when a read fails or the client leaves |
| FileBody.RangeIsPiece | crates/nitr-http/src/static_files.rs:398-416 | One of a file's consecutive ranges is answered with exactly its bytes |
| FileBody.WithoutRangeIsWhole | crates/nitr-http/src/range.rs:47-53 | A request without a range, with one that is not visible ASCII, or with a readable validator that is not current is answered with the whole file |
| FileBody.Respond | crates/nitr-http/src/static_files.rs:398-452 | One GET sends the bytes of its span, the whole file, or none for an unsatisfiable range |
| FileBody.ResumedDownloadIsWhole | crates/nitr-http/src/range.rs:41-54 | Bodies of consecutive ranges under a validator that keeps matching join to the whole file |
| FileBody.StaleValidatorGets | crates/nitr-http/src/range.rs:46-71 | A validator that is not the current one gets the whole file when it can be read, whatever the range, and is answered as if absent when it is not visible ASCII |
| FileBody.StaleIsHonouredIff | crates/nitr-http/src/range.rs:35-60 | A validator that is not the current one keeps every range request to the whole file exactly when it is visible ASCII |
| FileBody.UnreadableTagStitches | crates/nitr-http/src/range.rs:58-60 | A tag with a byte above ASCII under which a client puts together a file that never existed |
| FileVersions.TagsAgreeIff | crates/nitr-http/src/static_files.rs:525-527 | Two tags are equal exactly when length and second are |
| FileVersions.EtagIs | crates/nitr-http/src/static_files.rs:525-532 | A tag spells the length and the second in hexadecimal, the second zero without a time or before 1970 |
| FileVersions.TagMatchesIff | crates/nitr-http/src/range.rs:57-71 | The server's own tag is honoured exactly when the versions agree in length and second |
| FileVersions.ResumedIsCurrentIff | crates/nitr-http/src/range.rs:35-54 | A download resumed under the server's tag ends with the current file exactly when the versions differ in length or second or the part held is the same in both |
| FileVersions.SameSecondStitches | crates/nitr-http/src/static_files.rs:525-532 | Two versions of one second and length from which a client puts together neither |
| Percent.DecodeEncodeIsIdentity | crates/nitr-std/src/url.rs:75-86 | Decoding undoes encoding for every byte string |
| Percent.FormDecodeEncode | crates/nitr-std/src/url.rs:34-40 | Form decoding undoes it too, because encoded text holds no plus |
| Percent.EncodedIsPlain | crates/nitr-std/src/url.rs:23-29 | Encoded text is unreserved characters and percent signs, so no delimiter survives in it |
| QueryText.DecodeMeans | crates/nitr-std/src/url.rs:82-85 | A percent sign and two hexadecimal digits of either case are the byte they name; everything else is itself |
| QueryText.FormDecodeMeans | crates/nitr-std/src/url.rs:34-40 | In a form a plus is a space, and nothing else differs |
| QueryText.EncodeMeans | crates/nitr-std/src/url.rs:23-29 | Letters, digits and `-_.~` are written as they are, every other byte as a percent sign and two upper-case digits |
| Query.Parse | crates/nitr-std/src/url.rs:92-107 | The loop fills the table with the last value of each key |
| Query.Build | crates/nitr-std/src/url.rs:114-155 | Refused exactly when some key or value is not plain data; otherwise the sorted, encoded, joined rows |
| Query.QueryRoundTrip | crates/nitr-std/src/url.rs:88-156 | For every finite table of byte strings, parsing what was built gives the table back |
| Query.BuildIsDeterministic | crates/nitr-std/src/url.rs:110-111 | The text depends on the table alone, not on its traversal |
| Query.RebuildIsIdempotent | crates/nitr-std/src/url.rs:88-156 | Parsing any query, building, parsing and building again gives the same table and the same text |
| Query.SegmentPerKey | crates/nitr-std/src/url.rs:143-154 | One segment per key and one equals sign in each |
| QueryText.SegmentMeans | crates/nitr-std/src/url.rs:97-100 | A segment without an equals sign is a key with an empty value; another is split at the first |
| QueryText.QuestionMeans | crates/nitr-std/src/url.rs:95 | One question mark in front is dropped, and no more |
| QueryText.LastSegmentWins | crates/nitr-std/src/url.rs:96-105 | A key has the value of its last segment that is not empty, and none without one |
| QueryText.ParamMeans | crates/nitr-std/src/url.rs:117-141 | Strings and numbers are keys and values, booleans are values only, as `true` and `false` |
| QueryText.BuiltIsAscending | crates/nitr-std/src/url.rs:143-154 | The text is every key and value of the table, encoded, in ascending order of the keys as bytes |
| Sorting.BytesLeqIff | crates/nitr-std/src/url.rs:143 | Byte strings are in order exactly when they are equal, one begins the other, or it has the smaller byte where they first differ |
| Url.ParsePrint | crates/nitr-std/src/url.rs:160-213 | Printing components that keep their places and parsing gives the same components |
| Url.AuthorityReads | crates/nitr-std/src/url.rs:45-67 | A printed authority splits back into user, host, bracketed or not, and port |
| Url.AcceptedIsSpelledOut | crates/nitr-std/src/url.rs:160-213 | An accepted text is its scheme up to case, its authority's own text, and then path, query and fragment unchanged as its suffix |
| UrlText.RefusedIff | crates/nitr-std/src/url.rs:163-196 | A text is refused exactly when it is empty, or has digits over 65535 where a port is read |
| UrlText.AcceptedIsWritten | crates/nitr-std/src/url.rs:160-213 | An accepted text is its scheme up to case, its user, its host with or without brackets, its port's digits, and then its tail, one after another |
| UrlText.PortIsRead | crates/nitr-std/src/url.rs:51-66 | Digits behind the last colon, outside any brackets, are the port |
| UrlText.SchemeIsBeforeColon | crates/nitr-std/src/url.rs:170-181 | What stands before the first colon is the scheme exactly when it can be one |
| LuaPaint.ScanString | crates/nitr-core/src/diag.rs:169-183 | A string ends after its closing quote or with the line, always on a character boundary, even when a backslash steps into a character |
| LuaPaint.ScanWord | crates/nitr-core/src/diag.rs:191-196 | A word is taken whole and ends on a character boundary |
| LuaPaint.PaintLua | crates/nitr-core/src/diag.rs:153-216 | The output is the line's spans, each slice on character boundaries, each rendered in its colour; without escape codes it erases to the line |
| LuaPaint.SpansUnique | crates/nitr-core/src/diag.rs:157-214 | The spans of a line are determined by what comments, strings, words and other characters are |
| LuaPaint.PaintingKeepsText | crates/nitr-core/src/diag.rs:153-216 | Erasing the colour codes gives the line back, and the output ends uncoloured |
| PaintShapes.SpanIsPainted | crates/nitr-core/src/diag.rs:160-214 | Comments are dim green, strings green, keywords magenta, the rest as it is |
| PaintShapes.KeywordsAre | crates/nitr-core/src/diag.rs:145-148 | The keywords are exactly the twenty-two of the list |
| LinePaint.PaintLine | crates/nitr-core/src/diag.rs:97-143 | A line is painted piece by piece according to its shape, with Lua highlighted behind a gutter; without escape codes it erases to itself |
| LinePaint.PiecesAreTheLine | crates/nitr-core/src/diag.rs:97-143 | Whatever its shape, the pieces of a line are the line |
| LinePaint.PaintedLineKeepsText | crates/nitr-core/src/diag.rs:97-143 | Erasing the colour codes gives the line back for every shape |
| LinePaint.LuaIsBehindGutter | crates/nitr-core/src/diag.rs:124-129 | A line has no highlighted source, or is a gutter and source that starts on a character |
| PaintShapes.HeadlineIsPainted | crates/nitr-core/src/diag.rs:101-107 | A headline is bold red up to its colon and bold after it |
| PaintShapes.LocationIsPainted | crates/nitr-core/src/diag.rs:108-111 | A location is a bold blue arrow, a blank, and its place in cyan |
| PaintShapes.CaretsArePainted | crates/nitr-core/src/diag.rs:112-119 | A caret line is its gutter, a bold blue bar, and all behind it in bold red |
| PaintShapes.SnippetIsPainted | crates/nitr-core/src/diag.rs:120-125 | A numbered line is its gutter and bar in bold blue and its source highlighted |
| PaintShapes.SpacerIsPainted | crates/nitr-core/src/diag.rs:120-125 | A line of blanks, a bar and no carets is painted like a numbered one |
| PaintShapes.TracebackIsPainted | crates/nitr-core/src/diag.rs:126-129 | A traceback's header and its frames, which start with a tab, are dimmed |
| PaintShapes.CausesArePainted | crates/nitr-core/src/diag.rs:130-132 | The header of the causes is bold behind its indent |
| PaintShapes.MentionIsPainted | crates/nitr-core/src/diag.rs:133-141 | A script error named inside a line of no other shape is painted from its first mention on |
| PaintShapes.OthersAreNotPainted | crates/nitr-core/src/diag.rs:142-142 | Every other line is written as it is |
| PaintShapes.WideSpacesAre | crates/nitr-core/src/diag.rs:98-99 | Beyond ASCII, the bytes taken for white space are the UTF-8 of the characters that are |
| TextPaint.Paint | crates/nitr-core/src/diag.rs:78-91 | A painted text is its lines, each painted by its shape, with newlines as they were; it erases to its rejoined lines, and to itself when no return stands before a newline |
| TextPaint.RejoinedIff | crates/nitr-core/src/diag.rs:78-91 | Lines and back is the same text exactly when no return stands before a newline |
| TextPaint.ReturnIsDropped | crates/nitr-core/src/diag.rs:78-91 | A return and a newline come back as a newline |
| CompressedBody.CompressedBody.PollFrame | crates/nitr-http/src/compress.rs:441-486 | One poll, with its loop over frames that release nothing, is the specified step |
| CompressedBody.CompressedBody.Write | crates/nitr-http/src/compress.rs:405-421 | Gives the chunk to the encoder and returns what it releases; nothing without an encoder |
| CompressedBody.CompressedBody.Finish | crates/nitr-http/src/compress.rs:428-434 | Takes the encoder and returns its finishing bytes, once |
| CompressedBody.PollAnswers | crates/nitr-http/src/compress.rs:448-484 | With an encoder left, a poll answers that nothing is ready exactly when the inner body's last answer was that, and trailers exactly when it met those |
| CompressedBody.PollSwallows | crates/nitr-http/src/compress.rs:457-462 | Everything a poll reads before that last answer is data for which the encoder released nothing |
| CompressedBody.RunAccounts | crates/nitr-http/src/compress.rs:441-486 | In every run the data frames join to the encoder's outputs in order, then its finishing bytes exactly once; after a failed write, to what was released before it |
| CompressedBody.RunPasses | crates/nitr-http/src/compress.rs:454-466 | In every run no data frame is empty and the trailers are exactly those met |
| CompressedBody.EndIsFinal | crates/nitr-http/src/compress.rs:448-451 | After an answer that the body ended, every later one does, and the inner body is not polled again |
| CompressedBody.FinishIsFinal | crates/nitr-http/src/compress.rs:474-483 | The same once the inner body was seen to end, also when that poll gave the finishing bytes |
| CompressedBody.WholeBodyArrives | crates/nitr-http/src/compress.rs:441-486 | Enough polls of a body the encoder accepts deliver all of it, its finishing bytes and its trailers |
| FetchMock.FetchMock.Find | crates/nitr-std/src/testing.rs:229-235 | The first rule that covers the request and has uses left, or none |
| FetchMock.FetchMock.Decide | crates/nitr-std/src/testing.rs:222-265 | One request spends a use, answers and is recorded as the specified step does |
| FetchMock.AnswersIff | crates/nitr-std/src/testing.rs:229-235 | A rule answers its method whatever the case, or any; its whole URL or a URL with its prefix; and only with uses left |
| FetchMock.AskIs | crates/nitr-std/src/testing.rs:222-265 | What one request gets and leaves: the first rule's reply and one use fewer, else a refusal in strict mode and the network in the other, and its record after the latest 9,999 |
| FetchMock.LedgerAgrees | crates/nitr-std/src/testing.rs:197-265 | In every run the double answers as a ledger that only counts; each rule's answers plus uses left are what it was added with; the record is exactly the latest 10,000 calls in order, and recorded plus dropped are all calls |
| FetchMock.FirstIsEarliest | crates/nitr-std/src/testing.rs:229-235 | The rule found in place is the earliest added one that covers the request and has not answered as often as it may |
| FetchMock.NeverOverspent | crates/nitr-std/src/testing.rs:238-241 | A limited rule never answers more often than it may |

## Left out

- Integer widths of counters: the 64-bit tick, hit, miss and eviction counters and the 32-bit request count of a window are unbounded; `max_bytes` is taken small enough that adding an entry's size does not overflow.
- Lock poisoning: both the cache's error and the limiter's failing open.
- Clocks: every instant is a parameter; where a property of the limiter asks for a clock that does not go back, reading it under the lock gives one.
- `cache:remember` and `cache:stats`: a get and a set around a script's call, and a copy of fields.
- JSON text: the grammar, string escapes and number formatting; the models work on trees and tokens, and an integer literal beyond 64 bits is a float before the tree is built.
- JsonDecode.DecodeEncodeIsAFixpoint: takes a printed float to be read back as the same float, as does every result here that reads tokens; the parser promises that only with its `float_roundtrip` feature, which `Cargo.toml` does not set.
- A table holding both an integer index and the same digits as a string key: it encodes to a repeated name, and no round trip is claimed for it.
- Userdata that serializes itself, and a table used as a map key, which is refused without its own walk being modelled.
- Bounded.Pass.Serialize: which of several possible errors is reported is not stated, only that one is.
- Lists longer than an index can count: a document has none.
- RateLimit.ClientsAreIsolated: says nothing once the map is full, where a new client is admitted untracked; with at most 200,000 clients it never is (`RateClients.NeverFullWithFewClients`).
- RateLimit.RunSlidingBound: likewise below the cap only.
- PaintShapes.HeadlineIsPainted: the indents of the shapes are ASCII white space; wider white space is recognised by `PaintShapes.WideSpacesAre` and painted alike.
- FileBody.StreamFile: the file does not change while it is streamed; the channel and its backpressure are not modelled.
- HTTP: header maps, dates (their parser is a parameter), conditional requests other than `If-Range`, and sidecar files.
- Url.ParsePrint: for components that meet the splitter's side conditions; others may be split differently.
- The brotli and gzip algorithms: an encoder is what it releases after each write and on finishing.
- CompressedBody.RunAccounts: does not order data against trailers, which pass through before the finishing bytes.
- The inner body of a compressed one answers from a finite script and is pending after it.
- `Accept-Encoding` negotiation: its weights are floating point.
- The rest of a bundle: archiving, extraction, and the checks on what may be archived; a file is a byte string, and offsets are exact.
- The other rules of the request guard, sessions, tokens, passwords, TLS, templates and the database: thin layers over libraries.
- Error texts, logging and statistics.
