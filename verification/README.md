# Verification of the async substrate interface

A Dafny model of the parts of the library that decide what a caller gets: one websocket shared by many
callers, requests and their bookkeeping, the runtime's type names and the reader that takes them apart, the
caches, reading storage maps, storage keys, and the encodings written by hand. `dafny verify dfyconfig.toml`
checks the whole project.

| file | part of the system |
|---|---|
| `Multiplexer.dfy` | the websocket's send queue, in-flight table, futures, reserved ids and semaphore as a state machine with reconnection, and the ledger of one answer per id that it refines |
| `Traffic.dfy` | its runs, counted and put in order: permits, requests, notifications, and what `retrieve` answers |
| `Websocket.dfy` | the `Websocket` object, whose methods perform the steps of that machine |
| `Requests.dfy` | `RequestManager`, and the asynchronous `_make_rpc_request` over it |
| `SharedRequests.dfy` | both together: requests interleaved over the shared websocket |
| `SharedExhaust.dfy` | a fully exhausted query over the shared websocket |
| `SyncRequest.dfy` | `get_next_id`, and the blocking `_make_rpc_request` with its repeated attempts |
| `TypeSyntax.dfy`, `TypeNames.dfy`, `NamesGiven.dfy` | type trees and their printed names, `load_registry_type_map`, and the names it gives to each kind of type |
| `TypeReader.dfy`, `TupleFragments.dfy` | `convert_account_ids` with `split_tuple_type`, and what the splitting does to nested tuples |
| `TypeReading.dfy`, `TypeMisreading.dfy`, `TypeTearing.dfy`, `TypeReadBack.dfy` | the condition under which a name is read rightly, values that show where it is not, the condition on the tree, and all of it put together |
| `Addresses.dfy` | what conversion makes of accounts and of other values |
| `TypeMeaning.dfy`, `TypeAccounts.dfy` | the agreement of the names and the reader, and which accounts of the registry a name gives access to |
| `Lru.dfy`, `SingleFlight.dfy`, `Flights.dfy` | `LRUCache`, `CachedFetcher`, and how its calls end in any run |
| `RuntimeCache.dfy`, `RuntimeInit.dfy` | `RuntimeCache`, and `init_runtime` through it |
| `QueryMap.dfy`, `QueryMapBatches.dfy` | `query_map` page by page and fully exhausted |
| `StorageKey.dfy` | `StorageKey.generate`, and the decoding of keys back into parameters |
| `Scale.dfy` | accounts, vectors of accounts and optional pairs in `_encode_scale` |
| `Dicts.dfy`, `Collections.dfy`, `Text.dfy` | ordered dictionaries, sequences and finite sets, strings |

Concurrency is a step relation: a step is what a coroutine does between two suspension points, and a run is any
interleaving of steps. What the environment is trusted with is spelled out where it is used. The websocket trusts
it in four steps, and each has a lemma that says exactly when the step keeps the invariant: drawing an id
(`Multiplexer.OpenSoundIff`), receiving a reply (`Multiplexer.ReplySoundIff`), losing the connection
(`Multiplexer.ReconnectSoundIff`) and opening it anew (`Multiplexer.ReopenSoundIff`). The messages are those of JSON-RPC 2.0: a reply carries its request's id
(section 5), a notification has none (section 4.1).

Where the code and what it says of itself disagree, the model follows the code:

- `max_results` is documented as stopping the query; it only makes the pages smaller (`QueryMaps.IterateAll`).
- A query with a start key behind which nothing is left starts over from the prefix (`QueryMaps.FirstPageIff`).
- A fully exhausted query is not in key order but in the order in which the replies arrive
  (`QueryMapBatches.ExhaustedPermutesPagedIff`).
- The item key of a map query is right for one open parameter, or both of two (`StorageKeys.ExtractRightIff`).
- The last of the known versions is documented as ignored; blocks from its first block on get the one before it
  (`Runtimes.KnownVersionRightIff`, `Runtimes.KnownVersionOnChainIff`), and then, if that version's runtime is on
  file, its runtime (`RuntimeInit.InitRuntimeIsPlainIff`, `RuntimeInit.PastLastMisread`).
- The address format passed to `convert_account_ids` is replaced by 42 below the root
  (`TypeReadBack.FormatHonouredIff`), and the branch for a doubly nested vector can never be reached.
- Tuples directly inside tuples are torn apart (`TypeReader.SplitPrintedIff`). Then accounts are passed over
  (`TypeReadBack.NestedTupleMisread`), plain values are lost (`TypeReadBack.InnerValuesDropped`), or converting
  fails (`TypeReadBack.ArrayTornError`); `TypeReadBack.ReadsRightIff` says exactly when the values of a type are
  converted rightly all the same.
- The first naming pass looks for type parameters where the registry does not put them, so that generic types
  that are not variants lose their arguments (`TypeNames.ArgumentsInNameIff`).
- `CachedFetcher` fetches falsy results again (`SingleFlight.RefetchedIff`).
- The runtime used last is documented as the one most recently inserted or retrieved; a block or hash looked for in
  vain unsets it (`Runtimes.LastUsedIff`).
- A connection that a caller opens anew resubmits nothing, unlike one that the handler reopens
  (`Multiplexer.StrandedUntilLost`).
- `init_runtime` refuses a hash together with a block number, except for block 0, which then takes precedence.
- A retrieved failure gives its permit back and stays, so that it can give it back again
  (`Multiplexer.RetrieveAccountedIff`); a drawn id may overwrite an answer that nobody collected
  (`Multiplexer.OpenSoundIff`).

In the table the results come first; the last part lists the methods, each of which is tied to the function or the
step that the results are about. Loops with work of their own are `WebsocketManager.Websocket.Send` and
`WebsocketManager.Websocket.HandleLostConnection`, `Requests.MakeRpcRequest`, `SyncRequests.Attempt`,
`TypeNames.LoadRegistryTypeMap`, `TypeReader.SplitTupleType`, `QueryMaps.QueryMapResult.Next`,
`QueryMapBatches.GatherResults` and `StorageKeys.StorageKey.Generate`.

## Model

| member | source | states |
|---|---|---|
| `Multiplexer.StepRefines` | async_substrate_interface/async_substrate.py:844-922 | From any sound state, every step of the multiplexer (acquire, draw and queue, dequeue, register, transmit, reply, connection loss with resubmission, a connection opened anew by a caller, retrieve, notification) keeps the invariant and is the corresponding step of a ledger id → waiting / answered / collected, or no step of it. The invariant: each reserved id is in exactly one of queue, sender's hand and in-flight table, once; the reserved ids are exactly those with an unfinished future; free permits, granted ones and futures add up to the initial count. |
| `Multiplexer.RunRefines` | async_substrate_interface/async_substrate.py:844-922 | The same for whole runs with any number of reconnections of both kinds: every run is a run of the ledger, ends in a sound state, and that state represents the ledger's. |
| `Multiplexer.EachCallerTakesItsOwnAnswer` | async_substrate_interface/async_substrate.py:1145-1161 | Whatever a caller collects is the node's one answer, under the caller's id, to the payload sent under that id, with no other event of that id in between, however often the connection was lost. |
| `Multiplexer.UnansweredIsInOnePlace` | async_substrate_interface/async_substrate.py:910-916 | At every point of every run an unanswered request, with its own payload, is in exactly one of the three places, exactly once, and nothing else is there under its id. |
| `Traffic.RetrieveAnswersIff` | async_substrate_interface/async_substrate.py:1145-1168 | At any point of any run, `retrieve` gives a caller a response exactly when the node has answered the last request under the id by it and nobody has collected it; it gives nothing for a request without an answer, and never raises. |
| `Traffic.SentInOrder` | async_substrate_interface/async_substrate.py:910-1066 | What the sender took and what is still queued is, in order, what was queued: requests as callers send them, and at each lost connection everything in flight in the order of its registration. |
| `Traffic.OnTheWireIff` | async_substrate_interface/async_substrate.py:1065 | The node holds exactly the requests written over the present connection and not answered since. |
| `Traffic.NotesInOrder` | async_substrate_interface/async_substrate.py:1004-1008 | The notifications of a subscription are collected in the order in which they came, each once, whatever comes for other subscriptions. |
| `Traffic.PermitsCounted` | async_substrate_interface/async_substrate.py:1107-1157 | The free permits are the initial ones less those of all callers that passed the semaphore, plus one for each collected answer. |
| `Multiplexer.LedgerExplained` | async_substrate_interface/async_substrate.py:1001-1003 | An entry of the ledger is the last request under its id, and its answer if there is one, with nothing about that id in between. |
| `Multiplexer.OpenSoundIff` | async_substrate_interface/async_substrate.py:1107-1113 | Drawing an id that is not reserved keeps the invariant exactly when the id has no uncollected answer: the draw does not look at those. |
| `Multiplexer.ReplySoundIff` | async_substrate_interface/async_substrate.py:988-1003 | A reply, to whatever id and payload, keeps the invariant exactly when its id has no future, or has been answered and no caller is waiting, or is in flight and fully written with nothing else of that id at the node. |
| `Multiplexer.ReplyRefinesIff` | async_substrate_interface/async_substrate.py:988-1003 | A reply to a reserved id is sound and the ledger's reply to the waiting payload exactly when that payload is the one in flight under the id, is fully written, and the node has nothing else under the id. |
| `Multiplexer.ReconnectSoundIff` | async_substrate_interface/async_substrate.py:867-916 | A lost connection keeps the invariant exactly when the sender was not cancelled between taking an item off the queue and registering it. |
| `Multiplexer.ReopenSoundIff` | async_substrate_interface/async_substrate.py:783-799 | A caller that finds the connection closed and opens another one keeps the invariant exactly when the sender was not cancelled in that same place. |
| `Multiplexer.StrandedUntilLost` | async_substrate_interface/async_substrate.py:783-826 | In every run, a request that was in flight when a caller opened the connection anew stays in flight and is not answered, for as long as no lost connection is handled: nothing sends it again. |
| `Multiplexer.CompletedAlreadyIff` | async_substrate_interface/async_substrate.py:1001-1003 | A reply completes a future a second time exactly when its id has a future and is no longer reserved; then the future of every call that is still waiting fails. |
| `Multiplexer.RetrieveAccountedIff` | async_substrate_interface/async_substrate.py:1155-1161 | Collecting keeps the permits accounted for exactly when the future has not failed: a failed one gives its permit back and stays. |
| `Multiplexer.RetrieveIff` | async_substrate_interface/async_substrate.py:1145-1168 | For every state and id: a response exactly when the id's future is done, and that response; an exception exactly when it failed; the oldest notification exactly when there is no future and some notification; nothing exactly when the future is pending, or there is neither. |
| `Multiplexer.RetrieveLeaves` | async_substrate_interface/async_substrate.py:1155-1161 | A response is handed out once and gives its permit back, the oldest notification is handed out once, and nothing else changes. |
| `SharedRequests.MakeSharedRequest` | async_substrate_interface/async_substrate.py:2679-2773 | The asynchronous request over the shared websocket: in any run that interleaves any number of requests and loses the connection any number of times, with callers that retrieve only what they sent, a finished request holds exactly one result for each payload, the node's answer to that very payload; repeated payload ids are refused, and it finishes, unless an item's id reads like a payload's, exactly when the polls answer every item. |
| `SharedRequests.ArrivedAnswersOwn` | async_substrate_interface/async_substrate.py:2710-2771 | The same before the end: whatever has arrived is, under each payload, the node's answer to it. |
| `SharedRequests.OwnAnswer` | async_substrate_interface/async_substrate.py:1107-1161 | Whatever a caller collects answers the payload that it itself last sent under the id, whoever else used that id before or since. |
| `SharedRequests.CollectedBySender` | async_substrate_interface/async_substrate.py:1107-1161 | Ids are drawn again once they are free, and still whoever collects an id is the caller that last sent under it, by induction over the collections of that id. |
| `SharedRequests.SentDistinct` | async_substrate_interface/async_substrate.py:2695-2698 | The ids of one request are all different, although an id is free again as soon as it is answered: the request collects nothing before it has sent everything. |
| `SharedExhaust.ExhaustShared` | async_substrate_interface/async_substrate.py:3967-4038 | A fully exhausted query over the shared websocket, in any run that interleaves it with any number of requests and loses the connection any number of times, with a node that answers each batch with the storage under its keys: it finishes exactly when the polls answer every batch, and then has every record as often as it should, which is a permutation of what paging returns exactly when the prefix is not itself a key. |
| `SharedExhaust.ArrivalsAnswer` | async_substrate_interface/async_substrate.py:4009-4027 | Whatever has arrived for the batches is the storage under the keys of the batch for whose item it came. |
| `TypeNames.LoadRegistryTypeMap` | async_substrate_interface/types.py:394-501 | The names assigned are the least fixpoint of the naming rules, for every registry (cycles, dangling references, repeated ids) and every order in which a pass visits the pending ids; on exit no unnamed id can be named; every assigned name is in the reverse map and, with unique ids, leads back to an id that has it. |
| `TypeNames.FixpointClosed` | async_substrate_interface/types.py:424-487 | The reference is closed under the naming rules, and every name in it that is not a simple one comes from them. |
| `TypeNames.FixpointLeast` | async_substrate_interface/types.py:424-487 | Every map that keeps the simple names and is closed contains it. |
| `TypeNames.ExhaustedIsFixpoint` | async_substrate_interface/types.py:489-498 | Stopping where no pending id can be named is stopping at the least fixpoint. |
| `TypeNames.ArgumentsInNameIff` | async_substrate_interface/types.py:408-413 | A type with a path and parameters shows them in its name exactly when it is a variant; any other is named by its path alone, because the first pass looks for parameters beside the type and not inside it. |
| `NamesGiven.NamedByLastSegment` | async_substrate_interface/types.py:408-416 | For every registry with unique ids a type with a path `front + [name]` that is not a variant is called `name`. |
| `NamesGiven.VariantNamedIff` | async_substrate_interface/types.py:434-446 | A variant with such a path is called `name<..>` after its parameters exactly when it has some and all of them have names; otherwise it has none. |
| `NamesGiven.ElementNamedIff` | async_substrate_interface/types.py:448-474 | Sequences, arrays and compact types without a path are called `Vec<..>`, `[..; n]` or `[..]`, and `Compact<..>` after their element, exactly when that has a name that is not empty. |
| `NamesGiven.TupleNamedIff` | async_substrate_interface/types.py:476-484 | A tuple is called after its members exactly when all of them have names. |
| `NamesGiven.PrimitiveNamed` | async_substrate_interface/types.py:415-419 | A primitive type is called by its own name. |
| `NamesGiven.Unnamed` | async_substrate_interface/types.py:486-489 | Every other type without a path has no name. |
| `NamesGiven.AccountNamed` | async_substrate_interface/types.py:408-414 | The type with the path `sp_core`, `crypto`, `AccountId32` is called `AccountId32`. |
| `NamesGiven.LastEntryCounts` | async_substrate_interface/types.py:401 | Of several entries with one id the last one counts. |
| `TypeMeaning.NamesArePrintedTrees` | async_substrate_interface/types.py:424-487 | Every assigned name is the printed form of a type tree, and exactly the types with a tree are named. |
| `TypeMeaning.AssignedNamesAreReadBack` | async_substrate_interface/utils/decoding.py:187-193 | Writer and reader agree: converting a value by the name assigned to its type id is rewriting it by the type's tree, for all values exactly when the tree is flat where accounts are looked for, and for the values of the type exactly when its name reads it. |
| `TypeAccounts.AccountsReachedIff` | async_substrate_interface/types.py:424-487 | Which accounts a name gives access to: the tree of an id's name reaches one exactly when the registry has a path from the id to a type named like the account's that goes through sequences, tuples and the one parameter of options (or vectors with a path) alone, cycles in the registry included. Accounts inside composites, other variants, arrays, compacts, and generics named by their path alone are not reached. |
| `TypeReadBack.ReadsRightIff` | async_substrate_interface/utils/decoding.py:307-361 | Conversion by a printed name is that map for all values of the type exactly when the name reads the type: when in every tuple where accounts are looked for each member is read right by the fragment of the name that stands in its place, decided by recursion over fragment and member; for every printable type, format and encoder, errors included. |
| `TypeReadBack.NameReadIff` | async_substrate_interface/utils/decoding.py:307-361 | The same for every string, printed or not, and every type. |
| `Addresses.AccountConverted` | async_substrate_interface/utils/decoding.py:333-334 | For any 32 numbers from 0 to 255, under the account's name a value that begins with their tuple becomes the address of these numbers in their own order, in the caller's format. |
| `Addresses.OthersStay` | async_substrate_interface/utils/decoding.py:298-337 | Every other value that begins with something is left as it is. |
| `Addresses.NothingFirst` | async_substrate_interface/utils/decoding.py:333 | A value that begins with nothing fails: by type, by index, or by key. |
| `Addresses.OptionConverted` | async_substrate_interface/utils/decoding.py:312-314 | Inside an option the address is in format 42, and nothing stays nothing. |
| `Addresses.VectorConverted` | async_substrate_interface/utils/decoding.py:316-318 | A vector of accounts becomes the tuple of their addresses in format 42, one for each, in the same order. |
| `Addresses.PairConverted` | async_substrate_interface/utils/decoding.py:327-330 | In a pair the account becomes its address in format 42 and the other value stays. |
| `Addresses.NoSequence` | async_substrate_interface/utils/decoding.py:316-330 | A value that is no sequence stays what it is under the name of a vector or a tuple. |
| `Addresses.OtherNames` | async_substrate_interface/utils/decoding.py:308-309 | A name in which `AccountId32` does not occur changes nothing. |
| `TypeTearing.ReadsRightInTreeIff` | async_substrate_interface/utils/decoding.py:327-361 | For types that have no array with an account and a bare comma in a tuple, the condition can be read off the tree: in every tuple where accounts are looked for, the members before the first that shows a bare comma are read right and neither that one nor any behind it acts, that is, is rewritten or turned from a list into a tuple. |
| `TypeReadBack.ArrayTornError` | async_substrate_interface/utils/decoding.py:327-361 | For the others it cannot: behind an array of tuples with an account in the middle, a number that is not to be converted meets the account's name torn out of the array, and converting fails with a type error, whatever the value. |
| `TypeReadBack.ReadsAnyValueIff` | async_substrate_interface/utils/decoding.py:307-361 | It is that map for all values of whatever shape exactly when no tuple where accounts are looked for has a member with a bare comma, for every printable type: where one has, a value with more items than members shows it. |
| `TypeReadBack.AccountBeforeTorn` | async_substrate_interface/utils/decoding.py:327-330 | The two conditions differ: an account before a torn member without accounts is read right for the values of the type. |
| `TypeReadBack.NestedTupleMisread` | async_substrate_interface/utils/decoding.py:327-330 | In a pair of a member without accounts whose name shows a bare comma and an account behind it, the account is never converted, whatever the values and the format. |
| `TypeReadBack.AccountConvertedIff` | async_substrate_interface/utils/decoding.py:327-361 | In general an account in a tuple, wherever it stands and whatever stands before it, is converted exactly when the fragment it meets is an account's name, or that of an option of one. |
| `TypeReadBack.InnerValuesDropped` | async_substrate_interface/utils/decoding.py:327-361 | Where a tuple that begins with an account stands in a tuple behind members that show no bare comma, all its values but the first are lost, whatever they are. |
| `TypeReadBack.FormatHonouredIff` | async_substrate_interface/utils/decoding.py:307-337 | The caller's format is honoured for every value of the type exactly when the type is read right and the format is 42, or the type is a plain name, or no account is reached at all. |
| `TypeReadBack.FormatHonouredOnAnyValueIff` | async_substrate_interface/utils/decoding.py:307-337 | The same for every value of whatever shape, for every printable type. |
| `TypeReading.ReadsRightConverts` | async_substrate_interface/utils/decoding.py:307-337 | The sufficient half: a type that is read right is converted rightly for every value of it. |
| `TypeMisreading.Misread` | async_substrate_interface/utils/decoding.py:307-361 | The necessary half, for every string and type: a value of the type that is converted wrongly; it differs in every format, or cannot be rewritten although the name converts it. |
| `TypeReader.SplitInvertsJoin` | async_substrate_interface/utils/decoding.py:340-361 | Splitting inverts joining for every list of non-empty, trimmed parts that are balanced in angle brackets and have no comma at depth zero. |
| `TypeReader.SplitPrinted` | async_substrate_interface/types.py:473-482 | A printed tuple splits back into its printed members when none shows a bare comma. |
| `TypeReader.SplitPrintedIff` | async_substrate_interface/utils/decoding.py:349-358 | And exactly then: a tuple directly inside a tuple is torn apart, since only angle brackets are counted. |
| `TypeReader.ConvertIsRewrite` | async_substrate_interface/utils/decoding.py:307-337 | Conversion by the printed name is the structural map that rewrites exactly the `AccountId32` leaves reached through options, vectors and tuples, errors included, for every value of whatever shape, every format and address encoder, and every type in which no tuple where accounts are looked for has a member with a bare comma. |
| `TypeReader.PrintMentions` | async_substrate_interface/utils/decoding.py:308-309 | A printed name contains the account type's name exactly when some name in the tree does: the early return never skips an account. |
| `TupleFragments.SplitIsFragments` | async_substrate_interface/utils/decoding.py:340-361 | In general a tuple's name splits into the fragments of its members' names, one member after the other. |
| `TypeSyntax.PrintScan` | async_substrate_interface/utils/decoding.py:349-358 | A printed type is balanced, and shows its bare commas exactly when scanned at depth zero. |
| `QueryMapBatches.BatchesPartition` | async_substrate_interface/async_substrate.py:3994-3997 | The batches are the keys in order, none is empty or too large, and only the last can be short. |
| `QueryMapBatches.NumberedDistinct` | async_substrate_interface/async_substrate.py:4000-4005 | The payload ids of the batches are distinct. |
| `QueryMapBatches.NumberedAt` | async_substrate_interface/async_substrate.py:4000-4005 | They are the decimal numerals of their positions. |
| `QueryMapBatches.FullyExhaust` | async_substrate_interface/async_substrate.py:3967-4038 | Nothing is asked for an empty map, a page size of 0 is refused for any other; otherwise the records are those of the replies in the order of arrival, or the first error, and none before every batch is answered. With ids that do not read like the batches' numbers, as drawn ids never do, every batch is answered exactly when the polls answer all items. |
| `QueryMapBatches.DrawnNoClash` | async_substrate_interface/utils/__init__.py:12-17 | A drawn id begins with a letter, and so never reads like the number of a batch. |
| `QueryMapBatches.ExhaustedPermutesPagedIff` | async_substrate_interface/async_substrate.py:3992-4038 | Once all batches are answered, in whatever order, the records are a permutation of those that paging yields exactly when the prefix is not itself a key; they are in key order exactly when the replies came in the order in which the batches were sent. |
| `QueryMapBatches.ArrivedKeysPermute` | async_substrate_interface/async_substrate.py:4009-4027 | Whatever the order of the replies, every record of the map is there as often as it should be. |
| `QueryMapBatches.PagingMissesIff` | async_substrate_interface/async_substrate.py:3952-3965 | Listing all keys and paging through them give the same records exactly when the prefix itself is not a key. |
| `QueryMapBatches.FirstBadReply` | async_substrate_interface/async_substrate.py:4009-4027 | The first reply without a result is what is reported, whatever comes behind it. |
| `QueryMapBatches.GoodReplies` | async_substrate_interface/async_substrate.py:4009-4027 | Without such a reply the changes are those of all replies, one after the other. |
| `QueryMapBatches.IterateExhausted` | async_substrate_interface/async_substrate.py:495-514 | Iterating over what was fetched at once yields exactly that. |
| `QueryMaps.QueryMapResult.Next` | async_substrate_interface/async_substrate.py:495-514 | Yields the first of what remains and only that, or nothing when nothing remains; what was yielded is always a prefix of the records, and the records of what was and will be yielded. |
| `QueryMaps.QueryMapResult.RetrieveAllRecords` | async_substrate_interface/async_substrate.py:467-477 | Ends, and leaves in the records exactly what was yielded and what remained. |
| `QueryMaps.IterateAll` | async_substrate_interface/sync_substrate.py:402-464 | Iterating from the beginning yields every record of the map once, in key order, for every page size above 0; `max_results` bounds the number only when the map is no larger or it makes the page size 0. |
| `QueryMaps.AfterPage` | async_substrate_interface/async_substrate.py:3952-3968 | The keys behind a start are its page followed by the keys behind the page's last key. |
| `QueryMaps.PageThenRest` | async_substrate_interface/async_substrate.py:450-465 | The same for records; a page shorter than asked for is the last one. |
| `QueryMaps.FirstPageIff` | async_substrate_interface/async_substrate.py:3944-3968 | With a start key, the iterator yields exactly the records behind it precisely when there are some, or the map has none: an empty first page makes it start over from the prefix. |
| `QueryMaps.DecodeQueryMap` | async_substrate_interface/utils/decoding.py:132-198 | Decoding keys and values in one list and pairing its halves decodes each record from its own change alone: the key from what stands behind the prefix, the value from its bytes, or from none. |
| `QueryMaps.RecordDecoded` | async_substrate_interface/utils/decoding.py:131-136 | A record is decoded from what stands behind the prefix in its key, and from its value, or from no bytes if it has none. |
| `QueryMaps.RecordOfKey` | async_substrate_interface/async_substrate.py:3968-3990 | So is the record of each key of the map, with the value that the map has for this key. |
| `QueryMaps.BeforeIff` | async_substrate_interface/async_substrate.py:3952-3965 | Keys are in lexicographic order. |
| `QueryMaps.AfterIff` | async_substrate_interface/async_substrate.py:3952-3965 | The keys behind a start are those that come after it. |
| `QueryMaps.PageAndStart` | async_substrate_interface/async_substrate.py:3944-3950 | The page size is the smaller of page size and maximum; a query starts behind the given key, or behind the prefix. |
| `RuntimeInit.BlockHashTrue` | async_substrate_interface/async_substrate.py:2861-2878 | Through the cache or not, the chain's hash of the block is answered and the maps stay true. |
| `RuntimeInit.BlockNumberTrue` | async_substrate_interface/async_substrate.py:4384-4392 | Likewise for the number of a hash. |
| `RuntimeInit.AskedIsFiled` | async_substrate_interface/async_substrate.py:2861-2878 | What was asked is on file afterwards, and what is not on file is asked. |
| `RuntimeInit.InitRuntimeIsPlainIff` | async_substrate_interface/async_substrate.py:1536-1564 | `init_runtime` through the caches answers what the chain gives without them, for a hash, a number or the head, errors included, exactly unless the hash or number asked for is at or past the last known version by a number given or on file, and the runtime of the version before the last is on file and another one; then that one is the answer. The head is always answered rightly. With the blocking client's shortcut on its current runtime as well as without it (async_substrate_interface/sync_substrate.py:793). |
| `RuntimeInit.InitRuntimeTrueIff` | async_substrate_interface/async_substrate.py:1536-1564 | It leaves the caches true exactly when the version before the last is not supplied in this way, or is the right one, or its runtime is not on file and fetching the right one mends the entry; the shortcut mends nothing. |
| `RuntimeInit.InitByHashIff` | async_substrate_interface/async_substrate.py:1550-1564 | The same for the part from a known hash on. |
| `RuntimeInit.PastLastMisread` | async_substrate_interface/async_substrate.py:1550-1555 | An input: with versions 1 from block 0 and 2 from block 10 known and version 1's runtime on file, block 15 gets version 1's runtime, and its hash is set down for version 1. |
| `Runtimes.SortSorts` | async_substrate_interface/types.py:87-88 | The known versions are sorted by block and stay the same entries. |
| `Runtimes.BisectSplits` | async_substrate_interface/types.py:131 | The binary search separates the entries at or below a block from those above it. |
| `Runtimes.KnownVersionRight` | async_substrate_interface/types.py:121-134 | For a block below the last entry the lookup answers the version of the unique interval that holds it, and nothing exactly below the first entry. |
| `Runtimes.KnownVersionRightIff` | async_substrate_interface/types.py:90-134 | For a block from the first entry on, and a list whose last two versions differ, the answer is right on every chain the list is true of exactly when the block is below the last entry; from there on the penultimate version is answered. |
| `Runtimes.KnownVersionOnChainIff` | async_substrate_interface/types.py:90-134 | On each chain on which the last known version, other than the one before it, holds from its block on, the answer is right exactly when the block is below the last entry. |
| `Runtimes.RetrievedTrue` | async_substrate_interface/types.py:112-161 | A truthful retrieval, unless it is misdated, keeps the four maps true of the chain, and what it finds is the chain's answer. |
| `Runtimes.RetrievedTrueIff` | async_substrate_interface/types.py:112-161 | A truthful retrieval keeps the four maps true of the chain exactly when it is not misdated: when no number at or past the last known version is given or on file for the hash, or the version before the last is the hash's. |
| `Runtimes.RetrievedAnswerIff` | async_substrate_interface/types.py:112-161 | What it finds is the chain's answer exactly when it is not misled: when there is no such number, or the runtime of the version before the last is not on file, or is the right one. |
| `Runtimes.BelowLastNotMisdated` | async_substrate_interface/types.py:121-134 | A block below the last known version is never misdated or misled, whatever is on file. |
| `Runtimes.HistoryTrue` | async_substrate_interface/types.py:67-161 | After any history of truthful additions and retrievals, none of them misdated, with any evictions, the maps are true of the chain. |
| `Runtimes.HistoryTrueIff` | async_substrate_interface/types.py:67-161 | Over any truthful history the maps are true of the chain all along exactly when no retrieval in it is misdated. |
| `Runtimes.RetrievedIsChainsAnswerIff` | async_substrate_interface/types.py:112-161 | After any history without a misdated retrieval, a retrieved runtime is the one the chain gives for the block, hash or version asked for exactly when the retrieval is not misled. |
| `Runtimes.AddedIsFound` | async_substrate_interface/types.py:92-161 | A runtime just added is found by its block and its version, and by its hash where no known versions are loaded. |
| `Runtimes.RetrievalLinksBlock` | async_substrate_interface/types.py:137-148 | A retrieval that names block, hash and version links them, so that the block alone finds the runtime afterwards. |
| `Runtimes.LastUsed` | async_substrate_interface/types.py:92-161 | The runtime used last: a retrieval by block or hash leaves what it found, even nothing; one by version only what it found; an addition the runtime that it adds. |
| `Runtimes.LastUsedIff` | async_substrate_interface/types.py:92-161 | Over any history the runtime used last is the one most recently inserted or retrieved exactly when there is none, or no block or hash has been looked for in vain since then; otherwise there is none. |
| `Runtimes.RetrievedByVersion` | async_substrate_interface/types.py:150-155 | A retrieval by version finds exactly what is on file for it, and touches no other map. |
| `Runtimes.RetrievalTouches` | async_substrate_interface/types.py:112-155 | A retrieval makes each entry that it goes through the most recent one of its map, so that it is evicted last. |
| `Runtimes.AddedHolds` | async_substrate_interface/types.py:92-110 | An addition with all its parts links block and hash in both directions, hash and version, version and runtime. |
| `Runtimes.AddedLeaves` | async_substrate_interface/types.py:92-110 | An addition changes only the maps both of whose ends it has. |
| `Runtimes.KnownReplaced` | async_substrate_interface/types.py:87-90 | Loaded versions replace the old ones, in order of their blocks, and nothing else changes. |
| `Runtimes.SortIsStable` | async_substrate_interface/types.py:88 | Entries of one block keep their order. |
| `SingleFlight.StepSound` | async_substrate_interface/utils/cache.py:465-488 | Every step of every call keeps: one execution per key, an in-flight table that holds exactly the keys with a running leader, waiters joined to futures of their own key, and every cached, resolved or returned value produced by an execution for its own key. |
| `SingleFlight.RunSound` | async_substrate_interface/utils/cache.py:465-488 | The same for every interleaving of any calls. |
| `SingleFlight.WaiterIsServed` | async_substrate_interface/utils/cache.py:471-472 | Every waiter can resume, or an execution for its key is still running. |
| `SingleFlight.AgreesWithPlainFunction` | async_substrate_interface/utils/cache.py:465-488 | If executions return what a function gives, so does every call, for every interleaving, capacity and eviction. |
| `Flights.JoinedEnds` | async_substrate_interface/utils/cache.py:471-488 | In every run, a call that found an execution for its key in flight has, once resumed, returned a value exactly when that execution returned it, and failed exactly when that execution raised. |
| `Flights.LeaderEnds` | async_substrate_interface/utils/cache.py:474-488 | A call that found neither a result nor an execution has returned a value exactly when its own execution returned it, and failed exactly when that raised. |
| `Flights.HitEnds` | async_substrate_interface/utils/cache.py:468-469 | A call that found a truthy result has returned it at once. |
| `Flights.CachedIsLastResult` | async_substrate_interface/utils/cache.py:481 | What is cached for a key is what the last execution for it returned. |
| `Flights.CacheIsLru` | async_substrate_interface/utils/cache.py:468-481 | The cache is that of an `LRUCache` that every call asks for its key and every returning execution sets, order and evictions included; failures leave no trace in it. |
| `SingleFlight.RefetchedIff` | async_substrate_interface/utils/cache.py:468-469 | A result saves the next call its execution exactly when it is truthy and the capacity is not 0. |
| `Requests.CompleteIffNothingOpen` | async_substrate_interface/types.py:571-595 | With distinct ids all registered, `is_complete` holds exactly when `unresponded` yields nothing. |
| `Requests.OverwriteKeepsIff` | async_substrate_interface/types.py:553-560 | Renaming an item keeps one item per payload exactly when the new id does not already stand for another item; otherwise a payload is lost. |
| `Requests.AddRequestKeeps` | async_substrate_interface/types.py:547-551 | Registering a new item for a new payload keeps one item per payload. |
| `Requests.AddResponseKeeps` | async_substrate_interface/types.py:562-569 | A response goes to its item's payload alone; each payload's entry remains the last hundred of its own replies, with the completion flag of the latest. |
| `Requests.ManagerLookups` | async_substrate_interface/types.py:547-569 | What each operation makes of every item and every payload: the item stands for the payload, the new item for the old one's payload, and the payload has its former replies and the new one, the last hundred of them, with the new flag. |
| `Requests.ManagerOrder` | async_substrate_interface/types.py:547-560 | Items stand in the order of their registration; a known one keeps its place, a renamed one comes last. |
| `Requests.UnrespondedIs` | async_substrate_interface/types.py:588-595 | Listed are the items of payloads without a reply, or whose latest reply does not complete them, in the order of registration. |
| `Requests.DriveValid` | async_substrate_interface/async_substrate.py:2710-2771 | Over every sequence of renamings to new ids and responses for open items this stays so, and of each payload's replies only the last can have completed it. |
| `Requests.ResultsAtExit` | async_substrate_interface/async_substrate.py:2710-2771 | When a batch is complete, each payload maps to its own replies in order of arrival, at most the last hundred, and exactly the last one completed it. |
| `Requests.BatchInArrivalOrder` | async_substrate_interface/types.py:580-586 | Without subscriptions the results are listed in the order in which the replies arrive, each payload with the one reply to its own item, whatever that order is. |
| `Requests.BatchCompleteIff` | async_substrate_interface/types.py:570-578 | Such a batch is complete exactly when every item has been replied to. |
| `Requests.MakeRpcRequest` | async_substrate_interface/async_substrate.py:2689-2771 | Refuses repeated payload ids; otherwise finishes exactly when every item has had its reply, that is, unless an item's id reads like a payload's, when the polls answer every item; the results are each payload's own reply in the order of arrival. |
| `SyncRequests.ConsecutiveDistinctIff` | async_substrate_interface/utils/__init__.py:6-17 | A run of n consecutive ids is pairwise distinct whatever letters are drawn exactly when n is at most 998. |
| `SyncRequests.IdsEqualIff` | async_substrate_interface/utils/__init__.py:6-17 | Two ids are equal exactly when their letters are and their positions differ by a multiple of 998. |
| `SyncRequests.IdText` | async_substrate_interface/utils/__init__.py:6-17 | An id is two letters and a number that counts from 1 to 998 and then starts over. |
| `SyncRequests.AnyLetters` | async_substrate_interface/utils/__init__.py:12-14 | Any two letters, small or capital, can stand in front. |
| `SyncRequests.EnrolledLast` | async_substrate_interface/sync_substrate.py:1841-1847 | An item stands for the payload with which its id was drawn last. |
| `SyncRequests.EnrolledOnce` | async_substrate_interface/sync_substrate.py:1841-1847 | Each payload is registered at most once, under one of the drawn ids, and all of them are exactly when no id was drawn twice. |
| `SyncRequests.CompleteMeansAll` | async_substrate_interface/sync_substrate.py:1930-1933 | A batch is complete exactly when as many replies arrived as there are payloads; then every item has one and no id was drawn twice. |
| `SyncRequests.Attempt` | async_substrate_interface/sync_substrate.py:1832-1933 | One attempt: results are each payload's own reply from this attempt's messages, in order of arrival; with well-formed messages and no such clash it is done exactly when there is a message, no id was drawn twice and every item is answered. |
| `SyncRequests.SmallBatchSucceedsIff` | async_substrate_interface/sync_substrate.py:1841-1933 | An attempt at no more than 998 payloads succeeds exactly when every item is answered, whatever letters are drawn. |
| `SyncRequests.MakeSyncRequest` | async_substrate_interface/sync_substrate.py:1823-1933 | The whole request: at most the larger of one and `max_retries` attempts; results come from the last attempt alone. If every message is well-formed and no item's id reads like a payload's, it finishes exactly when one of the allowed attempts succeeds, with the first that does, and otherwise gives up after the last allowed one. |
| `Lru.HoldsMostRecent` | async_substrate_interface/utils/cache.py:388-400 | After any calls a cache holds exactly the most recently touched distinct keys, as many as fit, oldest first, each with the value of its last touch. |
| `Lru.Inclusion` | async_substrate_interface/utils/cache.py:388-400 | After the same calls on capacities n ≤ m the smaller cache's entries are the larger one's with some left out, in the same order and with equal values. |
| `Lru.RunIsValid` | async_substrate_interface/utils/cache.py:392-393 | Keys stay unique and the size never exceeds the capacity. |
| `Lru.SetThenLookup` | async_substrate_interface/utils/cache.py:388-400 | What was just set is found, unless the capacity is 0. |
| `Lru.GetKeepsLookups` | async_substrate_interface/utils/cache.py:395-400 | A hit changes the order and no lookup. |
| `StorageKeys.KeyIsPrefix` | async_substrate_interface/utils/storage.py:183-238 | The key of the first k parameters is the beginning of the key of all of them, for every mix of hashers, and the other parameters contribute the rest. |
| `StorageKeys.KeyGrows` | async_substrate_interface/utils/storage.py:179-240 | A key begins with the two digests of the pallet and the two of the storage function, and each parameter adds at the end what its hasher makes of its encoding, spelled out for every hasher. |
| `StorageKeys.KeyFailsIff` | async_substrate_interface/utils/storage.py:183-236 | Exactly when a value has no type, or a parameter no hasher or an unknown one, there is no key; a missing type comes first. |
| `StorageKeys.ReadBackIff` | async_substrate_interface/utils/decoding.py:105-136 | Parsing the rest of a key by the layout of digests and types gives back the digests and the parameters, with nothing left over, exactly when all remaining hashers keep the value, for every self-delimiting codec. |
| `StorageKeys.LayoutIff` | async_substrate_interface/utils/decoding.py:105-127 | There is a layout exactly when all remaining hashers keep the value. |
| `StorageKeys.KeyInjective` | async_substrate_interface/utils/hasher.py:21-61 | Where all hashers keep the value, different parameters have different keys. |
| `StorageKeys.ExtractRightIff` | async_substrate_interface/utils/decoding.py:165-182 | The stride takes the item key out of the decoded tuple rightly exactly when one key is left, or both of two. |
| `StorageKeys.ExtractOtherwise` | async_substrate_interface/utils/decoding.py:175-182 | In all other cases the item key is every second part from behind the number of given parameters on, or, where that runs past the end, the whole decoded tuple. |
| `StorageKeys.ItemKeyIff` | async_substrate_interface/utils/decoding.py:105-182 | From the parameters to the key and back: the item key is the open parameters exactly when these are one, or both of two. |
| `Scale.VectorEncodesIff` | async_substrate_interface/types.py:1104-1118 | A vector is encoded exactly when it has fewer than 64 accounts and each stands for bytes. |
| `Scale.VectorEncoded` | async_substrate_interface/types.py:1104-1118 | Accounts given as bytes are encoded as four times their number and the bytes in order; from 64 on they are refused; a single one counts as a vector of one. |
| `Scale.PairEncoded` | async_substrate_interface/types.py:1091-1102 | An optional pair is a one, the account and the number with its lower byte first; anything but a list of two, or a larger number, is refused. |
| `Scale.AccountEncoded` | async_substrate_interface/types.py:1079-1090 | An account is its bytes or what its address stands for, nothing is a zero byte, and what has no form of its own is encoded by its type. |
| `Scale.Forms` | async_substrate_interface/types.py:1073-1104 | The forms are chosen by the numbers 0, 579 and 152 where the registry does not list its own. |
| `Scale.ListedForms` | async_substrate_interface/types.py:1075-1104 | And by the registry's own numbers where it does. |
| `Scale.VectorRoundTripIff` | async_substrate_interface/types.py:1104-1118 | A SCALE decoder reads the accounts back, and leaves what follows untouched, exactly when each has 32 bytes: bytes passed for an account are not measured. |
| `Scale.VectorInjective` | async_substrate_interface/types.py:1104-1118 | Vectors that are encoded alike hold the same accounts, even with different bytes behind them. |
| `Scale.OptionalPairRoundTripIff` | async_substrate_interface/types.py:1091-1102 | An optional pair of an account and a 16-bit number is read back exactly when its account has 32 bytes, and no value is read back as none. |
| `Multiplexer.RetrieveIsAStep` | async_substrate_interface/async_substrate.py:1145-1168 | For an id whose future has not failed, `retrieve` is the collecting step, or the taking of a notification, or changes nothing. |
| `WebsocketManager.Websocket.constructor` | async_substrate_interface/async_substrate.py:602-618 | A new manager is the initial state. |
| `WebsocketManager.Websocket.Acquire` | async_substrate_interface/async_substrate.py:1107 | Takes a permit if there is one; otherwise nothing changes. |
| `WebsocketManager.Websocket.Send` | async_substrate_interface/async_substrate.py:1108-1116 | The id is the first draw that is not reserved; the new state is that of the drawing step, request queued last. |
| `WebsocketManager.Websocket.Dequeue` | async_substrate_interface/async_substrate.py:1056-1058 | The head of the queue moves to the sender's hand. |
| `WebsocketManager.Websocket.Register` | async_substrate_interface/async_substrate.py:1061-1062 | What the sender holds is in flight, and is being written. |
| `WebsocketManager.Websocket.Transmit` | async_substrate_interface/async_substrate.py:1065 | The node has the message over this connection. |
| `WebsocketManager.Websocket.Recv` | async_substrate_interface/async_substrate.py:988-1003 | Receiving a reply is the reply step, including the failure of every unfinished future when a future is completed twice. |
| `WebsocketManager.Websocket.RecvNotification` | async_substrate_interface/async_substrate.py:1004-1008 | A notification goes to the end of its subscription's own queue. |
| `WebsocketManager.Websocket.HandleLostConnection` | async_substrate_interface/async_substrate.py:891-922 | Refuses while subscriptions are open, and leaves what a connection opened anew finds; otherwise the loop that empties the in-flight table performs exactly the resubmission step, in the order of registration. |
| `WebsocketManager.Websocket.Connect` | async_substrate_interface/async_substrate.py:783-826 | Sender and receiver start anew over another connection, and what is in flight stays where it is. |
| `WebsocketManager.Websocket.Retrieve` | async_substrate_interface/async_substrate.py:1145-1168 | Answers and leaves the state that the specification of `retrieve` says, for every id and every state. |
| `Requests.RequestManager.constructor` | async_substrate_interface/types.py:540-545 | A new manager knows nothing but the number of payloads. |
| `Requests.RequestManager.Add` | async_substrate_interface/types.py:547-551 | Maps the item to the payload; a known item keeps its place. |
| `Requests.RequestManager.OverwriteRequest` | async_substrate_interface/types.py:553-560 | The payload stands under the new item only. |
| `Requests.RequestManager.Record` | async_substrate_interface/types.py:562-569 | Appends to the payload's own replies, drops all but the last hundred, and sets the flag. |
| `Requests.RequestManager.ListUnresponded` | async_substrate_interface/types.py:588-595 | Lists the items with a missing or incomplete payload in the order of registration. |
| `SyncRequests.IdSource.GetNextId` | async_substrate_interface/utils/__init__.py:12-17 | The k-th id is its letters followed by the k-th number of the cycle 1 to 998. |
| `SyncRequests.TakeReplies` | async_substrate_interface/sync_substrate.py:1884-1916 | Going over the open items keeps what arrived and what is still held, and hands over every held reply, unless an item's id reads like the id of an answered payload. |
| `TypeNames.VisitPending` | async_substrate_interface/types.py:491-498 | One pass, in any order, only adds right names, shrinks the pending ids when it resolves something, and otherwise leaves a state in which nothing can be resolved. |
| `TypeNames.GatherSimple` | async_substrate_interface/types.py:403-419 | The first pass assigns exactly the simple names, later entries over earlier ones. |
| `TypeReader.SplitTupleType` | async_substrate_interface/utils/decoding.py:340-361 | The loop computes the splitting function. |
| `Lru.LRUCache.constructor` | async_substrate_interface/utils/cache.py:384-386 | A new cache is empty. |
| `Lru.LRUCache.Set` | async_substrate_interface/utils/cache.py:388-393 | The new entries are those of the specification, and the size stays within the capacity. |
| `Lru.LRUCache.Get` | async_substrate_interface/utils/cache.py:395-400 | Answers the lookup and moves a hit to the end. |
| `SingleFlight.CachedFetcher.constructor` | async_substrate_interface/utils/cache.py:449-453 | A new fetcher is the initial state. |
| `SingleFlight.CachedFetcher.Begin` | async_substrate_interface/utils/cache.py:465-477 | A call returns a truthy cached value, joins an execution in flight, or starts one. |
| `SingleFlight.CachedFetcher.Finish` | async_substrate_interface/utils/cache.py:480-488 | The result is cached and resolves the future, and the key leaves the in-flight table. |
| `SingleFlight.CachedFetcher.Fail` | async_substrate_interface/utils/cache.py:483-488 | A failure caches nothing, cancels the future and leaves the in-flight table. |
| `SingleFlight.CachedFetcher.Resume` | async_substrate_interface/utils/cache.py:471-472 | A waiter returns the future's result, or fails with it. |
| `Runtimes.RuntimeCache.constructor` | async_substrate_interface/types.py:50-65 | A new cache is empty. |
| `Runtimes.RuntimeCache.AddKnownVersions` | async_substrate_interface/types.py:87-90 | Replaces the known versions by the sorted list. |
| `Runtimes.RuntimeCache.AddItem` | async_substrate_interface/types.py:92-110 | Each of the maps is set when both of its ends are given. |
| `Runtimes.RuntimeCache.Retrieve` | async_substrate_interface/types.py:112-161 | Answers and leaves the four maps as the specification says, recency included. |
| `Runtimes.RuntimeCache.SupplyVersion` | async_substrate_interface/types.py:121-134 | A missing version is supplied from the known ones. |
| `Runtimes.RuntimeCache.FollowHash` | async_substrate_interface/types.py:143-155 | Hash to version to runtime, with the runtime remembered as the last used. |
| `QueryMaps.QueryMapResult.constructor` | async_substrate_interface/async_substrate.py:3944-4050 | A paged query's result holds the decoded first page after the start and its last key. |
| `QueryMaps.QueryMapResult.Exhausted` | async_substrate_interface/async_substrate.py:3958-4050 | The result of fetching everything has nothing left to fetch. |
| `QueryMaps.QueryMapResult.RetrieveNextPage` | async_substrate_interface/async_substrate.py:450-465 | The page behind a start; from the last key with nothing buffered it is the head of what remains. |
| `QueryMapBatches.SliceKeys` | async_substrate_interface/async_substrate.py:3994-3997 | The loop cuts the keys into the batches of the specification. |
| `QueryMapBatches.GatherResults` | async_substrate_interface/async_substrate.py:4009-4027 | The changes are those of the replies in the order of arrival; the first reply without a result is reported. |
| `StorageKeys.StorageKey.Generate` | async_substrate_interface/utils/storage.py:179-240 | The key is that of the specification, or the first error (an unknown parameter type, a missing or an unknown hasher); every parameter is encoded before any is hashed, and a failure leaves the data as they were. |
| `Scale.EncodeScale` | async_substrate_interface/types.py:1070-1118 | The encoding of the specification, errors included, for the forms chosen by the registry's type ids or their default ids. |

## Left out

- Sockets, TLS session resumption, DNS caching, shutdown and activity timers, logging: input, output and clocks. What comes over a connection, and when it is lost, is a parameter.
- Liveness and the number of reconnections: the receive loop swallows its own timeouts and closed connections are not counted, so nothing bounds them. Only safety is proved of the asynchronous protocol.
- Cancellation of callers, and of the leader of a shared execution, whose waiters are then never resolved.
- `unsubscribe`: its ids are neither reserved nor given a future, although a reconnection gives them one.
- The failures of the sender other than a lost connection.
- Requests made inside a subscription's result handler, and the loop around such a handler; `Requests.DriveValid` covers its effect on the bookkeeping.
- SharedRequests.MakeSharedRequest: that a caller retrieves only what it sent and has not collected is assumed of the other callers too; every asynchronous call in the library goes through this request.
- SharedExhaust.ExhaustShared: the listing of the keys is taken as done; it is a request of its own.
- SyncRequests.TakeReplies: without a result handler.
- SyncRequests.Attempt: without a result handler; the messages of the attempt are a parameter.
- WebsocketManager.Websocket.Recv: the receive loop ends after a future is completed twice; the model leaves it running.
- WebsocketManager.Websocket.HandleLostConnection: neither the limit on attempts to connect nor the end after a graceful close.
- WebsocketManager.Websocket.Retrieve: without the end of `retrieve`, which raises what ended the handler task.
- Requests.DriveValid: the operations on the bookkeeping, without the result handler's loop that chooses them.
- Requests.ResultsAtExit: likewise.
- Requests.MakeRpcRequest: without a result handler; the loop that polls for ever is cut off after the given polls; what each poll answers is up to the websocket.
- SyncRequests.MakeSyncRequest: without a result handler. A connection that is kept for the first attempt may still deliver replies to earlier requests; the messages of each attempt are a parameter.
- RuntimeInit.InitRuntimeIsPlainIff: sequential, and without the task that initialises the asynchronous client at its start; other coroutines that use the same caches meanwhile are covered by `Runtimes.HistoryTrueIff` only as whole operations. Whether the fetcher's own cache has the runtime is a flag; that it answers what a fetch would is `SingleFlight.AgreesWithPlainFunction`.
- `load_from_disk` and `dump_to_disk`: foreign storage; loading also replaces the maps without regard to their capacity.
- `LRUCache` with `None` among its values, which `get` cannot tell from a missing key.
- RuntimeInit.InitRuntimeTrueIff: sequential likewise.
- TypeReader.IsAccountId32: the model's values have no booleans, which Python counts among the integers.
- Text.Strip: strips blanks, tabs, line feeds and carriage returns only; printed names have no others.
- QueryMaps.DecodeQueryMap: the decoders of keys and values are parameters; the option to replace decoding errors by nothing, and the conversion of account keys to addresses, are not modelled.
- The node behind `query_map` is a sorted list of keys at one block; `state_getKeysPaged`, `state_getKeys` and `state_queryStorageAt` are its slices. The queries for the head and by a reused hash are not modelled.
- StorageKeys.StorageKey.Generate: the pallet and the storage function are looked up by the caller; the errors for unknown ones are not modelled.
- SCALE decoding of types by name, SS58, BLAKE2 and XXH64: functions with fixed widths or a codec law.
- Extrinsics, signing, metadata listings, block authors, receipts, `ScaleObj` operators and the fallback wrappers: thin layers over what is modelled here.
