# Nacos service-governance synchroniser, modelled in Dafny

This project models the sequential core of a Hyperf/Swoole package that keeps
each server process's load balancers in step with a Nacos registry:

- **Client** (`php.dfy`, `batches.dfy`, `client.dfy`):
  - turns a registry reply into load-balancer nodes;
  - assembles the full batch (`getNodes`: groups of at most eight consumers,
    keyed by service name, `ksort`-ed);
  - finds the UDP push port;
  - builds the consumer list from configuration.
- **Driver** (`driver.dfy`, `pipe_message.dfy`):
  - applies a batch to the balancers (`updateNodes`);
  - decides between a local update and a fan-out to the other workers and
    user processes (`syncNodes`);
  - covers `onPipeMessage`, `fetchInstance` and the heartbeat interval.
- **Poll loop** (`poll_loop.dfy`): the body of `createMessageInstanceLoop` as
  a step function. It syncs when the fetched batch is not `===` to the
  previous one, and `retry` resets the previous batch after a throw.
- **Push listener** (`udp_server.dfy`, `response.dfy`):
  - classifies a registry UDP packet, computes the reply time and addresses
    the acknowledgement;
  - for a push, re-reads the named service and hands a one-item batch to
    `syncNodes`.

Everything is a pure function over immutable datatypes. Collaborators become
parameters:

- the registry is a function from request to reply;
- the clock is two readings;
- configuration is a record;
- the process collector and Swoole server are fields of `Driver.Process`;
- every send is an `Action` in the returned list.

Three facts about the code shape the model:

- `createMessageInstanceLoop` has no force-refresh flag; the poll loop syncs
  whenever the fetched batch is not `===` to the previous one.
- `shareMessageToUserProcesses` writes to every collected user process and
  excludes no pid.
- The change test at `AbstractDriver.php:109` is PHP `!==` on arrays of
  freshly allocated `Node` objects, so it compares instances, not contents.
  Every node therefore carries a `NodeRef` naming the fetch, the query and
  the position that allocated it. The consequence (`PollLoop.SuccessivePollsSyncIffNodes`)
  is that a poll syncs whenever either batch holds a node, even if nothing
  changed in the registry.

## Model

| member | source | states |
|---|---|---|
| Php.IntvalReal | src/Client/Client.php:151 | `intval` of a float truncates toward zero: the result is within 1 of the input, on the side of zero |
| Php.IntvalQuotient | src/UdpServer/UdpServer.php:80 | `intval($ms / 1000)` truncates the exact quotient toward zero for negative as well as non-negative milliseconds |
| Php.StrvalRoundTrip | src/UdpServer/UdpServer.php:80 | the decimal text `strval` produces reads back as the same integer |
| Php.ImplodeExplode | src/UdpServer/UdpServer.php:137 | the pieces of `explode("@@", $name)` joined with `@@` give back the name |
| Php.ExplodePiecesHaveNoSeparator | src/UdpServer/UdpServer.php:137 | no piece of `explode` contains `@@` |
| Php.ExplodeSinglePiece | src/UdpServer/UdpServer.php:137 | `explode` yields a single piece exactly when the name has no `@@`, so `[, $serviceName]` then has no second piece |
| Php.BelowIrreflexive | src/Client/Client.php:196 | the key order `ksort` uses never ranks a name before itself |
| Php.BelowTransitive | src/Client/Client.php:196 | the key order is transitive |
| Php.BelowTotal | src/Client/Client.php:196 | any two distinct names are ordered one way or the other |
| Php.DigitPrefixOfDigits | src/Driver/AbstractDriver.php:192 | the leading digits `(int)` reads from a string end at the first non-digit |
| Php.IntvalString | src/Driver/AbstractDriver.php:192 | `(int)` of a string agrees with reading back a plain integer string, is 0 when no digits lead, and reads past one leading `+` unchanged and past one leading `-` negated |
| Php.IntvalStringReadsStrval | src/Driver/AbstractDriver.php:192 | `(int)` reads back the integer `strval` wrote, ignoring anything after the digits (`"2.5"` gives 2) |
| Php.IntCast | src/Driver/AbstractDriver.php:192 | `(int)` keeps an int, truncates a float toward zero, reads a string's leading integer, and maps null and false to 0, true to 1 |
| Batches.FreshBatchNeverIdentical | src/Driver/AbstractDriver.php:109 | a batch holding a node allocated by a newer fetch is never `===` to an earlier batch |
| Batches.NodelessBatchesIdentical | src/Driver/AbstractDriver.php:109 | two batches without nodes are `===` when their names, balancers and node-list presence agree |
| PipeMessages.Create | src/PipeMessage.php:12-20 | `getData()` returns exactly the array given to the constructor, element by element |
| Client.Usables | src/Client/Client.php:146-155 | a host is kept exactly when it has `ip`, `port` and `healthy` true; nothing is added |
| Client.UsablesKeepOrder | src/Client/Client.php:146-155 | the filter keeps registry order: filtering a concatenation concatenates the filtered parts |
| Client.MakeNode | src/Client/Client.php:147-153 | a node has the host's ip and port, weight `intval(100 * weight)` with a missing weight meaning 100, and path prefix `''` when missing |
| Client.NodesFromReply | src/Client/Client.php:139-172 | a throw, a non-200 status or an undecodable body gives `[]`; otherwise node k is made from the k-th usable host, and every node is freshly allocated by this fetch |
| Client.NodesComeFromUsableHosts | src/Client/Client.php:144-155 | every node of a reply stands for a usable host of that reply |
| Client.RequestOf | src/Client/Client.php:131-138 | the registry query carries the consumer's service, group, namespace (null when not configured), UDP port, client address and app, and always asks for healthy instances only |
| Client.GetNodesOne | src/Client/Client.php:128-173 | a single-service fetch yields at most as many nodes as the registry answered hosts, all allocated by this fetch |
| Client.ListenerQuery | src/Client/Client.php:112-120 | the listener's consumer array carries its four arguments plus the client's UDP port, address and app name |
| Client.GetNodesOneByListener | src/Client/Client.php:106-121 | the push path sends the registry a query with exactly those fields and healthy-only set |
| Client.Chunks | src/Client/Client.php:179 | `array_chunk(…, 8)`: groups concatenate back to the consumer list, are non-empty, hold at most 8, and all but the last hold exactly 8 |
| Client.PutSpec | src/Client/Client.php:184 | writing `$outData[$name]` keeps the table sorted and holds the new entry plus every entry with another name |
| Client.PutRepresents | src/Client/Client.php:184 | a sorted table stays the exact picture of the keyed array after each write |
| Client.GatherChunksFlatten | src/Client/Client.php:179-193 | processing the groups one after another equals processing the whole consumer list in order |
| Client.LatestIsLastWriter | src/Client/Client.php:182-188 | in the keyed array, each service name holds the entry of the last consumer with that name |
| Client.TableSpec | src/Client/Client.php:175-198 | the table is strictly sorted, lists exactly the distinct consumer names, once each, each from the last consumer of that name |
| Client.GetNodesListsEachServiceOnce | src/Client/Client.php:195-198 | `getNodes` returns one item per distinct service name, in strictly ascending name order, each with a name and a node list; its balancer name is set exactly when the last consumer of that name configured `load_balancer` |
| Client.GetNodesCoversConsumers | src/Client/Client.php:181-188 | every consumer's service appears in the result |
| Client.GetNodesLastConsumerWins | src/Client/Client.php:182-188 | each item carries the name, balancer (null when not configured) and fetched nodes of the last consumer with that name |
| Client.GetNodesAllocatesFresh | src/Client/Client.php:148 | every node of a `getNodes` result is allocated by that call |
| Client.FailedFetchStillListed | src/Client/Client.php:182-188 | a service whose fetch failed still appears, with `nodes = []` |
| Client.GetNodesShape | src/Client/Client.php:175-199 | two calls on the same consumers agree on length, names and balancers at every index; only the nodes differ |
| Client.SortedNamesUnique | src/Client/Client.php:196 | a strictly sorted table never holds two entries with the same name |
| Client.ScanUdpPortChoice | src/Client/Client.php:78-92 | the scan keeps a positive port once found; otherwise it takes the first positive listener port, or the last listener's port |
| Client.UdpPortChoice | src/Client/Client.php:77-92 | the UDP port is that of the first `udp` server with the UdpServer packet callback and a positive port; failing that, the last such server's port; 0 when there is none |
| Client.GetServices | src/Client/Client.php:201-226 | a populated consumer list is kept; otherwise one consumer per configured entry with `name`, `load_balancer`, `namespace_id` mapped (a missing key as null), group, port, address and app shared, and no nodes |
| Client.Init | src/Client/Client.php:71-96 | the client gets the read address, `app_name` defaulting to `appName`, the discovered UDP port and one consumer per configured entry |
| Client.PushAndPollAskAlike | src/Client/Client.php:106-121 | for a configured consumer with a balancer and a namespace, the push listener's query is the same registry request the poll sends |
| Driver.UpdateNodes | src/Driver/AbstractDriver.php:171-184 | every balancer named by a complete item exists afterwards, and no balancer is removed |
| Driver.LastNodes | src/Driver/AbstractDriver.php:173-183 | the reference answer per balancer: the nodes of the last complete item naming it, or none |
| Driver.UpdateNodesSpec | src/Driver/AbstractDriver.php:171-184 | after `updateNodes` each balancer holds the nodes `LastNodes` names, and is unchanged when no complete item names it |
| Driver.UpdateNodesSetsItem | src/Driver/AbstractDriver.php:173-183 | a complete item not overridden later sets exactly its nodes, even an empty list |
| Driver.UpdateNodesLeavesOthers | src/Driver/AbstractDriver.php:175-177 | items missing a key are skipped, and balancers not named are unchanged |
| Driver.UpdateNodesIdempotent | src/Driver/AbstractDriver.php:171-184 | applying a batch twice equals applying it once |
| Driver.IdsFrom | src/Driver/AbstractDriver.php:226-233 | the loop visits exactly the ids in range except the excluded one, ascending |
| Driver.WorkerRecipients | src/Driver/AbstractDriver.php:225-233 | recipients are ids `0 ..= worker_num + task_worker_num - 1` except the current worker, ascending |
| Driver.ShareMessageToWorkers | src/Driver/AbstractDriver.php:216-235 | without a server nothing happens; in a worker the batch is applied first, then one send per recipient in order; outside a worker no local update |
| Driver.ShareMessageToUserProcesses | src/Driver/AbstractDriver.php:242-255 | each collected process is sent the same message in order, and a failed send does not stop the rest |
| Driver.ShareNodesToProcesses | src/Driver/AbstractDriver.php:200-209 | one message wraps the batch; the layout is local update, worker sends, then process sends |
| Driver.SyncNodes | src/Driver/AbstractDriver.php:148-155 | with an empty or absent collector only the local update happens; otherwise a fan-out |
| Driver.SyncNodesSends | src/Driver/AbstractDriver.php:148-155 | every send carries the batch, and a user process is sent to exactly when fanning out |
| Driver.SyncNodesUpdatesLocallyFirst | src/Driver/AbstractDriver.php:218-223 | the batch is applied here exactly when in a worker or not fanning out, and then before any send |
| Driver.SyncNodesReachesOtherWorkers | src/Driver/AbstractDriver.php:225-233 | the set of worker ids a fan-out sends to is exactly 0 ..= the last worker id minus the current worker, and empty without a server |
| Driver.SyncNodesWorkerSendsAscend | src/Driver/AbstractDriver.php:226 | worker sends go out in strictly ascending id order, so no worker gets two |
| Driver.SyncNodesReachesUserProcesses | src/Driver/AbstractDriver.php:207-208 | the user processes are sent to last, once each, in collector order |
| Driver.SyncOfOneService | src/Driver/AbstractDriver.php:171-184 | syncing a one-item batch sets that service's balancer to its nodes and leaves every other balancer alone |
| Driver.OnPipeMessage | src/Driver/AbstractDriver.php:262-266 | a received message is applied here and never forwarded: each balancer it names takes the message's last nodes for it, and every other balancer is kept, none added or removed |
| Driver.OnPipeMessageIdempotent | src/Driver/AbstractDriver.php:262-266 | receiving the same message twice equals receiving it once |
| Driver.ReceiverMatchesSender | src/Driver/AbstractDriver.php:222 | a worker receiving a fan-out ends with the balancers the sending worker reached |
| Driver.FetchInstance | src/Driver/AbstractDriver.php:82-89 | an empty batch changes nothing; a non-empty one equals receiving it as a message; nothing is sent |
| Driver.GetInterval | src/Driver/AbstractDriver.php:190-193 | the heartbeat is `services.drivers.<driver>.heartbeat` under `(int)`: an int as is, a float truncated toward zero, an integer string read back, null or false as 0; 5 when not configured |
| Driver.GetIntervalOfText | src/Driver/AbstractDriver.php:192 | a heartbeat configured as text is read as its leading integer: `"10"` gives 10 seconds, `"2.5"` gives 2 |
| PollLoop.Step | src/Driver/AbstractDriver.php:100-117 | an exit stops without fetching; a sync happens exactly when the fetched batch is not `===` to the previous one; a throw restarts from `[]` |
| PollLoop.UnchangedBatchNotResynced | src/Driver/AbstractDriver.php:109 | a fetch returning the very same objects is not synced again |
| PollLoop.ThrowForcesResync | src/Driver/AbstractDriver.php:99-100 | after a throw, the next fetch of a non-empty batch is synced |
| PollLoop.FreshNodesAlwaysSync | src/Driver/AbstractDriver.php:108-112 | a batch with a node from a newer fetch is always synced |
| PollLoop.SuccessivePollsSyncIffNodes | src/Driver/AbstractDriver.php:108-113 | two successive polls sync exactly when either batch holds a node |
| PollLoop.FirstPollSyncsIffConsumers | src/Driver/AbstractDriver.php:100-111 | the first poll syncs exactly when any consumer is configured, even with no nodes anywhere |
| PollLoop.StoppedStaysQuiet | src/Driver/AbstractDriver.php:105-107 | a stopped loop never syncs again |
| PollLoop.ExitEndsLoop | src/Driver/AbstractDriver.php:104-107 | after the worker exits no later tick syncs, and the loop ends stopped |
| PollLoop.UnbalancedConsumerNeverApplied | src/Driver/AbstractDriver.php:173-177 | a consumer configured without `load_balancer` is fetched on every poll, but `updateNodes` skips its item, so no balancer of that service is created or changed |
| PollLoop.EveryPollWithNodesSyncs | src/Driver/AbstractDriver.php:101-117 | over a run, every poll before exit whose batch holds a node is synced |
| Responses.Response.SetType | src/UdpServer/Response.php:16-19 | sets `type` and changes nothing else |
| Responses.Response.SetLastRefTime | src/UdpServer/Response.php:24-27 | sets `lastRefTime` and changes nothing else |
| Responses.Response.SetData | src/UdpServer/Response.php:32-35 | sets `data` and changes nothing else |
| Responses.NewResponse | src/UdpServer/Response.php:7-11 | `type` and `lastRefTime` start unset and `data` starts as `""` |
| Responses.SettersCommuteAndOverride | src/UdpServer/Response.php:16-35 | setters of different fields commute, and a later set of a field overrides an earlier one |
| Responses.TimeAndTypeComplete | src/UdpServer/Response.php:7-11 | after its time and type are set, a fresh response carries both, with empty data |
| UdpServer.ServiceName | src/UdpServer/UdpServer.php:133-140 | the service is the second `@@`-piece, present exactly when the name has `@@` and neither the name nor that piece is empty |
| UdpServer.ExplodeGrouped | src/UdpServer/UdpServer.php:137 | `explode` splits `group@@service` into exactly those two parts |
| UdpServer.GroupedNameNamesService | src/UdpServer/UdpServer.php:133-140 | a pushed `group@@service` refers to `service` |
| UdpServer.UngroupedNameIgnored | src/UdpServer/UdpServer.php:137-140 | a name without `@@` refers to no service |
| UdpServer.FirstConsumer | src/UdpServer/UdpServer.php:147-153 | the consumer used is the first whose name matches; none exactly when no name matches |
| UdpServer.UpInstance | src/UdpServer/UdpServer.php:131-198 | a sync carries exactly one item from the first matching consumer with its fresh instances; no service name, no matching consumer, or an empty or missing balancer or namespace does nothing; for a usable consumer it throws exactly when the group or the driver is missing, and syncs otherwise |
| UdpServer.ReplyTime | src/UdpServer/UdpServer.php:80 | the reply time is the packet's milliseconds truncated to seconds, the clock when absent, and a throw for non-numeric input |
| UdpServer.SendTo | src/UdpServer/UdpServer.php:116-123 | the reply goes to the packet's source address and port |
| UdpServer.OnPacket | src/UdpServer/UdpServer.php:63-114 | at most one reply, addressed to the source and carrying type and time; a sync only alongside a push-ack; no reply only when the time division throws, or a push's `data` is rejected by `json_decode`, or `upInstance` throws |
| UdpServer.UntypedPacketUnknown | src/UdpServer/UdpServer.php:72-77 | a non-array or type-less packet gets `unknow-ack` with the receipt time and no sync |
| UdpServer.DumpAcknowledged | src/UdpServer/UdpServer.php:92-95 | `dump` gets `dump-ack` and no sync |
| UdpServer.OtherTypeUnknown | src/UdpServer/UdpServer.php:96-99 | any other type gets `unknow-ack` and no sync |
| UdpServer.ReplyTimeReadsBack | src/UdpServer/UdpServer.php:80-81 | the reply time reads back as the packet's time in whole seconds, or the clock |
| UdpServer.NonNumericTimeDropsReply | src/UdpServer/UdpServer.php:80 | a `lastRefTime` the division rejects ends the handler with no reply and no sync |
| UdpServer.PushSyncsNamedService | src/UdpServer/UdpServer.php:84-91 | a push for a configured `group@@service` syncs exactly that consumer's fresh instances and is acknowledged |
| UdpServer.MissingGroupDropsReply | src/UdpServer/UdpServer.php:161-166 | with `group_name` unset, a push that would sync throws at the typed call and no reply is sent |
| UdpServer.MissingDriverDropsReply | src/UdpServer/UdpServer.php:169-170 | with `services.driver` empty, no driver is created, a push that would sync throws at `method_exists(null, …)` and no reply is sent |
| UdpServer.RejectedDataDropsReply | src/UdpServer/UdpServer.php:87 | a push whose `data` is an array makes `json_decode` throw, so no reply is sent |
| UdpServer.PushAcknowledged | src/UdpServer/UdpServer.php:84-91 | a push `upInstance` handles without throwing gets a push-ack carrying the reply time, and syncs exactly `upInstance`'s batch |
| UdpServer.UngroupedPushNotSynced | src/UdpServer/UdpServer.php:137-140 | a push whose name has no `@@` is acknowledged but syncs nothing |

## Left out

- I/O and codecs are not modelled: the registry HTTP call, `Json::decode` and `json_decode`, `json_encode`, `serialize`, `sendMessage`, socket `send` and `sendto`. They appear only as abstract inputs (a `Reply`, a decoded `Packet`) or as outputs (`Action`, `Datagram`).
- Coroutines, `parallel`, `retry` pauses, `CoordinatorManager` waits, `ProcessManager` are not modelled. Time is a sequence of ticks, and the loop body is a step function.
- Client.GetNodes: inside a chunk, `parallel` may finish the queries in any order. The model fixes completion to list order. So when two consumers in one chunk share a name, the model always keeps the later one, while the code may keep either.
- Client.MakeNode: binary rounding of `100 * weight` in floating point is not modelled; the weight is a real number. A negative weight is left unconstrained.
- `ksort` is modelled as byte-wise string order. PHP compares numeric-string keys numerically, so service names that are numeric strings are not covered.
- A consumer entry without `name` is not modelled: every configured consumer is taken to have a string name. Missing `load_balancer` and `namespace_id` keys are modelled, as null.
- The consumer lookup in `upInstance` uses loose `==`. The model uses string equality, which differs only for numeric strings.
- Packets whose `type`, `name` or `lastRefTime` are not strings or integers are not modelled: booleans, arrays, floats, and strings with only a numeric prefix. A `data` that is an array is modelled (`json_decode` throws, no reply); other non-string `data` is taken to decode to a non-array.
- PHP warnings and deprecations are taken not to throw, as under PHP's default error handling. An error handler that turns warnings into exceptions (Hyperf's `ErrorExceptionHandler` listener is one) would make two more packets go without a reply: a push whose name has no `@@` ("Undefined array key 1" at `UdpServer.php:137`), and a push without a `data` key (`UdpServer.php:87`).
- UdpServer.UngroupedPushNotSynced: its push-ack conclusion holds only under the default warning handling above; under a throwing handler the packet gets no reply.
- Php.IntCast: the cast of a string reads only an optional sign and the leading digits. Leading whitespace, exponents (`"1e3"`), saturation at `PHP_INT_MAX`, and floats outside the 64-bit range are not modelled.
- `LoadBalancerManager` is not modelled. A balancer is taken to be identified by its `(serviceName, loadBalance)` pair, and `setNodes` to replace its node list.
- `method_exists` on the client and on a created driver is taken to be true. `DriverFactory::create` is taken to succeed for a non-empty driver name. DriverFactory.php, ConfigProvider.php and DriverInterface.php are not part of this model.
- `NacosDriver.php` only fixes the driver name; it enters as `Driver.NacosDriverName`.
- `$server` is taken to be set before `shareMessageToWorkers` runs. An uninitialised typed property would throw.
- The listeners, `InstanceFetcherProcess.php`, `ServiceLogoutListener.php` and both `ServiceClient.php` files are not part of this model: they are event wiring, deregistration I/O and framework subclasses.
- Logging is left out; it has no effect on modelled state.
- PollLoop.Step: a throw inside `syncNodes` is a flag of the tick. The model does not say which sends happened before it.
- UdpServer.OnPacket: the sync is reported alongside the reply, not performed. Feeding it to `Driver.SyncNodes` is what `Driver.SyncOfOneService` describes.
