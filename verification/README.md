# Verified core of an on-premises edge platform

A Dafny model of the stateful engines of an edge platform: the edge node's traffic-policy engine, the reverse-dial
proxy between node and controller, the publish/subscribe broker for edge applications, the service supervisor, the
application lifecycle, the controller's tables and request handlers, and a few self-contained algorithms. Each module
states what its engine is for and proves it for every input, every run and every outcome of the calls it depends on.

`dafny verify dfyconfig.toml` checks the project.

| module | engine |
|---|---|
| `Runs`, `Wrappers` | what the models share: runs of steps, result types |
| `TrafficPolicy` | rules in memory kept in step with a fallible external route table |
| `ConnPool` | the dial-out listener: two counters and two once-guards per connection, any interleaving |
| `CallbackSlots` | the preface listener: slots of capacity one, any interleaving of accepting, storing and dialing |
| `Slices`, `Broker` | subscriber lists edited in place in shared arrays, refining a set of subscriptions |
| `Supervisor` | any number of services, a wait group, an unbuffered result channel, a select loop |
| `Tables`, `Persistence`, `Cascade`, `Handlers` | the controller's rows, a persistence service any call of which may fail, node deletion, request handlers |
| `QueryFilter` | the whitelist of filter columns |
| `Lifecycle` | requests gated on a persisted status, and the workers they start |
| `Shuffle`, `Cidr`, `NodeFeatures`, `LogPriority` | shuffling of DNS answers, exceptions of an IP block, node labels and admission, the packed priority word |

Protocols with concurrency are step systems: `Next` makes one atomic step (a step that is not enabled changes nothing),
`Run` makes any sequence of them, and the results are about every run. Objects whose methods update fields are classes.
Calls to the outside (route table, database, remote node) have arbitrary outcomes, given by a function from the number
of the call to its outcome, and leave a history that the results are about.

## Where the code differs from what one would expect

* **Idle connections.** That there is never more than one idle connection is false: a connection whose first data is
  read after it was retired still counts as active. From a reachable state on it is true, as long as no further
  connection reads late, iff none has so far (`ConnPool.OneIdleExactly`). `ConnPool.IdleBound` gives the bound in
  general and `ConnPool.IdleBoundIsTight` shows that it is attained from every reachable state.
* **When Accept dials.** Accept reads two counters one after the other, and is meant to dial iff there is no idle
  connection. With no idle connection and no late reader it does not dial if a connection is closed between the two reads
  (`ConnPool.DialMissed`). `ConnPool.GuardExact` says, for anything that happens between them, when it decides as meant.
* **Stale dials.** Of two connections of one agent accepted by concurrent calls the older one can be stored last
  (`CallbackSlots.ConcurrentAcceptsCanBeStale`). `CallbackSlots.FreshnessExactly` gives the exact condition and
  `CallbackSlots.SerialDialsAreFresh` shows that one Accept at a time is enough.
* **Refused requests.** A request that is answered with not found, in use, bad request or not implemented leaves the
  tables as they were, unless it is a PATCH of DNS data whose body is refused: the node's old data is removed before the
  body is looked at (`Handlers.RefusedYetChanged`). `Handlers.Handle` and `Handlers.Serve` give the exact condition:
  the body is refused and the node has DNS data.
* **Removing a subscriber.** The loop ranges over the old list while cutting matches out of the array underneath. It is
  right iff no two matches are neighbours and panics iff the last element is a second match
  (`Slices.SweptIsWithout`, `Slices.RemoveSubscriber`). The broker's lists never hold a consumer twice, so there it is
  always right (`Broker.Broker.RemoveAll`).
* **Exceptions of an IP block.** Within one address family the check is exact. Across families it is not;
  `Cidr.ExceptVerdict` gives the exact condition and `Cidr.ExceptVerdictAcrossFamilies` a wrong answer of each kind.
* **Undeployment.** After an accepted undeployment or redeployment two lifecycle workers can be in flight
  (`Lifecycle.UndeployBreaksExclusion`). A worker whose final save fails locks the application for good
  (`Lifecycle.LostSaveSticks`).
* **Label errors.** A failed write of a label is reported only if it is the last one, and one that took effect although
  it was answered with an error is reported as a failure (`NodeFeatures.ReportsCanBeWrong`). `NodeFeatures.ReportExactly`
  says when a call reports an error iff it did not store everything.
* **Log levels.** The verbosity signals wrap around at the ends of the scale (`LogPriority.SignalsWrapAround`). Until
  something is set, lines are printed with facility 0 although GetFacility answers LOCAL0 (`LogPriority.Logger.Emit`).

## Model

| member | source | states |
|---|---|---|
| `TrafficPolicy.ValidateTrafficRules` | edgenode/pkg/eda/eda_traffic_policy_service.go:124-167 | succeeds iff every rule has readable keys and a usable MAC target, and then returns the rules parsed in order; otherwise the first bad rule decides which error |
| `TrafficPolicy.RemovalOrderIsFirstThenBackwards` | edgenode/pkg/eda/eda_traffic_policy_service.go:73-101 | the take-first-and-swap-with-last loop visits the first rule and then the others from the back |
| `TrafficPolicy.RemovalOrderIsPermutation` | edgenode/pkg/eda/eda_traffic_policy_service.go:73-101 | that loop visits every stored rule exactly once |
| `TrafficPolicy.RemovalsExactly` | edgenode/pkg/eda/eda_traffic_policy_service.go:73-101 | call by call, the keys removed are those of the first rule and then of the others from the back |
| `TrafficPolicy.RemovalsNet` | edgenode/pkg/eda/eda_traffic_policy_service.go:73-101 | whatever fails, removing a list of rules takes back each lookup key as often as the list holds it |
| `TrafficPolicy.BalancedAfterRemoval` | edgenode/pkg/eda/eda_traffic_policy_service.go:50-111 | removing an application's rules keeps the conservation law: per lookup key, successful additions minus issued removals equals the occurrences stored over all applications |
| `TrafficPolicy.BalancedAfterAdditions` | edgenode/pkg/eda/eda_traffic_policy_service.go:185-218 | a request all of whose additions succeed keeps the conservation law |
| `TrafficPolicy.BalancedAfterRollback` | edgenode/pkg/eda/eda_traffic_policy_service.go:192-206 | a request that fails at any addition and is rolled back keeps the conservation law |
| `TrafficPolicy.BalancedAfterRequest` | edgenode/pkg/eda/eda_traffic_policy_service.go:170-219 | for every outcome of the additions, the resulting rules and history obey the conservation law |
| `TrafficPolicy.Server.RemoveRules` | edgenode/pkg/eda/eda_traffic_policy_service.go:50-111 | an unknown application is no error and nothing happens; without a connection a known one is an error and nothing changes; otherwise exactly its rules are removed, one call each in the loop's order, failures ignored, and only its entry disappears |
| `TrafficPolicy.Server.Install` | edgenode/pkg/eda/eda_traffic_policy_service.go:185-213 | succeeds iff every addition does; otherwise the error names the first rule that failed, the rules added before it are taken back and the application has no entry |
| `TrafficPolicy.Server.AddRequest` | edgenode/pkg/eda/eda_traffic_policy_service.go:170-219 | the exact answer: success iff all rules parse and all additions succeed, otherwise the error of the first bad rule or of the first failing addition; on success the stored rules are the parsed ones in order; on a rule that does not parse no call is made |
| `TrafficPolicy.Server.Set` | edgenode/pkg/eda/eda_traffic_policy_service.go:221-255 | all or nothing, the conservation law is kept, other applications are untouched, and answer, memory and history of calls are those that AnswerExactly, PassedExactly and FailedExactly spell out |
| `TrafficPolicy.AnswerExactly` | edgenode/pkg/eda/eda_traffic_policy_service.go:221-255 | an empty ID and a missing connection are errors; a connected request without rules passes; one with rules passes iff each rule has readable keys and a usable MAC address and each addition succeeds |
| `TrafficPolicy.PassedExactly` | edgenode/pkg/eda/eda_traffic_policy_service.go:185-213 | after a request with rules passed, the stored rules and the last calls are, index by index, its rules, each added successfully with its own keys and MAC address |
| `TrafficPolicy.FailedExactly` | edgenode/pkg/eda/eda_traffic_policy_service.go:185-206 | at a failing addition the calls up to it are, index by index, additions with the keys and MAC addresses of the rules, the error names the failing rule, and nothing is stored |
| `TrafficPolicy.Server.Serve` | edgenode/pkg/eda/eda_traffic_policy_service.go:221-255 | over every sequence of requests and whatever fails, the conservation law holds between requests, and every answer, the memory and the history of calls are those that requests and outcomes determine |
| `TrafficPolicy.RunKeepsInstalled` | edgenode/pkg/eda/eda_traffic_policy_service.go:170-255 | over every run each stored rule, keys and MAC address, was added successfully |
| `TrafficPolicy.LastRequestDecides` | edgenode/pkg/eda/eda_traffic_policy_service.go:221-255 | over every run an application has an entry iff the last connected request for it succeeded and has rules, and the entry is those rules parsed in order |
| `TrafficPolicy.UntouchedStays` | edgenode/pkg/eda/eda_traffic_policy_service.go:221-255 | over every run an application no connected request is for keeps its entry |
| `ConnPool.RetireKeepsInv` | common/proxy/progutil/progutil.go:276-285 | retiring a connection, once or again, keeps the accounting |
| `ConnPool.FirstDataKeepsInv` | common/proxy/progutil/progutil.go:237-260 | the first data on a connection, early or after its retirement, keeps the accounting |
| `ConnPool.RunKeepsInv` | common/proxy/progutil/progutil.go:180-285 | the accounting holds in every state reached by any interleaving of accepting, reading, writing and closing |
| `ConnPool.Accounting` | common/proxy/progutil/progutil.go:180-285 | in every run established is the number of accepted connections not yet retired, active is the live ones that read data plus those that read it only after retirement, and their difference never exceeds one |
| `ConnPool.ConnExactly` | common/proxy/progutil/progutil.go:237-285 | after every run a connection has left the books iff it was closed, or read or written with an error that is not a network error or not a temporary one; it counts as having read iff a read returned data with no error or a temporary one; and as a late reader iff the first such read came after it had left |
| `ConnPool.BooksExactly` | common/proxy/progutil/progutil.go:180-285 | both counters as numbers of connections with these histories |
| `ConnPool.IdleBound` | common/proxy/progutil/progutil.go:180-218 | there are at most one more idle connections than late readers, hence at most one as long as there is no late reader |
| `ConnPool.IdleBoundIsTight` | common/proxy/progutil/progutil.go:180-285 | from every reachable state some continuation without a further late reader has exactly one more idle connections than late readers |
| `ConnPool.OneIdleExactly` | common/proxy/progutil/progutil.go:180-285 | from every reachable state, as long as no further connection reads late, there is never more than one idle connection iff no connection has read late so far |
| `ConnPool.AnyNumberIdle` | common/proxy/progutil/progutil.go:180-285 | every number of idle connections is reached by some run |
| `ConnPool.GuardExact` | common/proxy/progutil/progutil.go:180-190 | for every reachable state and anything other goroutines do between the two reads: Accept dials iff idle connections and those retired in between do not outnumber the late readers, and from this exactly when it dials iff there is no idle connection |
| `ConnPool.DialMissed` | common/proxy/progutil/progutil.go:180-190 | a run in which Accept does not dial although no connection is idle and none has read late |
| `ConnPool.NoWrapAround` | common/proxy/progutil/progutil.go:180-285 | neither counter is ever negative or larger than the number of accepted connections, so 32 bits suffice below 2^31 connections |
| `CallbackSlots.RunKeepsRouted` | common/proxy/progutil/progutil.go:43-161 | in every run each channel belongs to one address and agent and holds, or is about to be given, only connections that announced them |
| `CallbackSlots.DialYieldsItsAgent` | common/proxy/progutil/progutil.go:137-161 | a dial only ever yields a connection that announced the dialed agent from the dialed address |
| `CallbackSlots.ExactlyOnePlace` | common/proxy/progutil/progutil.go:43-161 | in every run each accepted connection is in exactly one place: being read, returned to the client, refused, being stored, waiting in a channel, handed to one dial or closed; none is handed out twice |
| `CallbackSlots.ReturnedExactly` | common/proxy/progutil/progutil.go:101-123 | in every run a connection is returned to the client iff its first packet was read and is neither EVA nor ELA |
| `CallbackSlots.RefusedExactly` | common/proxy/progutil/progutil.go:43-51 | in every run a connection is refused iff its first packet is EVA or ELA and its host was not registered at any step before it was read |
| `CallbackSlots.ClosedExactly` | common/proxy/progutil/progutil.go:64-75 | in every run a connection is closed iff a store emptied the channel it waited in or its own store found the channel filled |
| `CallbackSlots.HandedExactly` | common/proxy/progutil/progutil.go:137-146 | in every run a dial has received a connection iff it took it from its channel |
| `CallbackSlots.PacketExactly` | common/proxy/progutil/progutil.go:101-112 | a connection has the packet that was read first on it |
| `CallbackSlots.AddressExactly` | common/proxy/progutil/progutil.go:95-99 | a connection has the address it was accepted from |
| `CallbackSlots.RegisteredExactly` | common/proxy/progutil/progutil.go:87-92 | a host is registered iff it was at some step |
| `CallbackSlots.OrphansCannotBeDialed` | common/proxy/progutil/progutil.go:87-92 | in every run a waiting connection is yielded to a dial started later in some continuation iff its channel was not replaced by a new registration |
| `CallbackSlots.RegistrationForgets` | common/proxy/progutil/progutil.go:87-92 | in every run a dial started after a registration of its host only yields connections whose first packet was read after it |
| `CallbackSlots.RunKeepsOutOfReach` | common/proxy/progutil/progutil.go:43-161 | once a connection is out of reach of later dials, every continuation keeps it so |
| `CallbackSlots.NoOlderNoStaleDial` | common/proxy/progutil/progutil.go:43-76 | if nothing accepted earlier is being read, in the channel or on its way, no later dial of any continuation yields a connection accepted before the stored one |
| `CallbackSlots.OlderMakesStaleDial` | common/proxy/progutil/progutil.go:43-76 | if something older is, some continuation has a dial that yields it |
| `CallbackSlots.FreshnessExactly` | common/proxy/progutil/progutil.go:43-161 | in every run, after storing a connection: no later dial yields one accepted earlier iff none accepted earlier is being read, in the channel or on its way |
| `CallbackSlots.SerialDialsAreFresh` | common/proxy/progutil/progutil.go:95-126 | with one Accept at a time a dial started after a connection was stored never yields an older one, even across new registrations |
| `CallbackSlots.SerialPut` | common/proxy/progutil/progutil.go:43-76 | with one Accept at a time putting a connection into its channel keeps the newest one waiting and closes none |
| `CallbackSlots.ConcurrentAcceptsCanBeStale` | common/proxy/progutil/progutil.go:43-126 | a run of two concurrent Accept calls after which a dial yields the connection accepted first although the second was stored |
| `Slices.Append` | edgenode/pkg/eaa/api_subscription.go:31-32 | appending in place or to a new array adds one element and changes no element of the old list |
| `Slices.IndexOf` | edgenode/pkg/eaa/common.go:27-50 | the index of the first occurrence, and -1 iff there is none |
| `Slices.RemoveAt` | edgenode/pkg/eaa/api_subscription.go:64-67 | the elements behind the cut move down in the same array, all other cells keep their values |
| `Slices.CutIsWithout` | edgenode/pkg/eaa/api_subscription.go:62-68 | in a list without duplicates the cut leaves all other elements in order |
| `Slices.SweptLosesOnlyMatches` | edgenode/pkg/eaa/eaa_subscription_data.go:32-42 | RemoveSubscriber loses nothing but matches and keeps the order of everything else |
| `Slices.SweptMisses` | edgenode/pkg/eaa/eaa_subscription_data.go:32-42 | a match survives RemoveSubscriber iff two matches are neighbours |
| `Slices.SweptIsWithout` | edgenode/pkg/eaa/eaa_subscription_data.go:32-42 | RemoveSubscriber removes all matches iff no two are neighbours; on a list without duplicates it does and does not panic |
| `Slices.SweepWhole` | edgenode/pkg/eaa/eaa_subscription_data.go:34-39 | the loop over the shifting cells, whatever lies behind the list in its array, ends in the swept list, or in the slice bounds panic iff the last element is a second match |
| `Slices.RemoveSubscriber` | edgenode/pkg/eaa/eaa_subscription_data.go:32-42 | in place: panics exactly when said, leaves the swept list otherwise, and reports a change iff there was a match |
| `Slices.OthersElements` | edgenode/pkg/eaa/api_producer.go:76-93 | what is appended are exactly the service subscribers that are not namespace subscribers |
| `Slices.OthersKeepNoDuplicates` | edgenode/pkg/eaa/api_producer.go:76-93 | merging two lists without duplicates gives one without duplicates |
| `Slices.UniqueSubs` | edgenode/pkg/eaa/api_producer.go:76-93 | the merged list is the first list followed by what only the second holds, and neither list changes although the array of the first may be written |
| `Broker.ParsedUrn` | edgenode/pkg/eaa/common.go:12-23 | exactly the names with a colon have a URN, and its parts are the name up to and after the first colon |
| `Broker.UrnRoundTrip` | edgenode/pkg/eaa/common.go:12-23 | a URN survives being written as a name and read back iff its namespace has no colon |
| `Broker.LastRequestDecides` | edgenode/pkg/eaa/api_subscription.go:13-179 | the last request that concerns a subscription decides whether it is there after a run |
| `Broker.SomeRequestDecides` | edgenode/pkg/eaa/api_subscription.go:13-179 | a subscription that no request concerns stays as it was; otherwise there is a last request that concerns it |
| `Broker.SubscribedExactly` | edgenode/pkg/eaa/api_subscription.go:13-179 | after any run a consumer is subscribed iff a request of its own subscribed it, with that namespace, service, name and version, and no later one cancelled that |
| `Broker.FirstRequestDecides` | edgenode/pkg/eaa/eaa_subscription_data.go:46-56 | after any run the descriptor of a notification is the first descriptor of the first request that subscribed to it, whoever made it |
| `Broker.ConsumersAreIndependent` | edgenode/pkg/eaa/api_subscription.go:13-179 | over every run a consumer's subscriptions depend on its own requests only |
| `Broker.LastWordDecides` | edgenode/pkg/eaa/api_producer.go:35-74 | over every run a producer is registered iff the last request that concerns it is a registration, with what that declares |
| `Broker.NoWordNoChange` | edgenode/pkg/eaa/api_producer.go:35-74 | a producer that no request concerns stays as it was |
| `Broker.AddToList` | edgenode/pkg/eaa/eaa_subscription_data.go:73-128 | one more showing of the notification under its URN, every other count unchanged, URNs still pairwise distinct and no entry empty |
| `Broker.FirstNamedDescribes` | edgenode/pkg/eaa/eaa_subscription_data.go:46-56 | the descriptor a batch gives a notification is one of the batch and describes it, and every named notification gets one |
| `Broker.SubscribedIsDescribed` | edgenode/pkg/eaa/eaa_subscription_data.go:46-69 | after any run whatever is subscribed to has a descriptor |
| `Broker.UsableExactly` | edgenode/pkg/eaa/api_producer.go:16-33 | exactly the declarations with a name and a version are kept, each as often as declared |
| `Broker.ValidServiceNotifications` | edgenode/pkg/eaa/api_producer.go:16-33 | the loop keeps the usable declarations in order |
| `Broker.Broker.Stored` | edgenode/pkg/eaa/api_subscription.go:31-32 | putting a list back in its own or a new array keeps lists and set in agreement, lists free of duplicates and arrays unshared, and changes no other list |
| `Broker.Broker.AddTopic` | edgenode/pkg/eaa/eaa_subscription_data.go:46-69 | a new topic starts with an empty list, subscribes nobody and changes no list |
| `Broker.Broker.Init` | edgenode/pkg/eaa/eaa_subscription_data.go:58-69 | afterwards the topic and its namespace have lists, no subscription changed, and a known notification keeps its descriptor |
| `Broker.Broker.SubscribeOne` | edgenode/pkg/eaa/api_subscription.go:84-106 | the consumer is appended iff not yet there, the set gains exactly this subscription, and all other lists are unchanged |
| `Broker.Broker.AddSubscription` | edgenode/pkg/eaa/api_subscription.go:13-37 | for any batch, repeats included and for a namespace or a service, the set gains exactly the named topics for this consumer, and no list ever holds a consumer twice |
| `Broker.Broker.RemoveSubscription` | edgenode/pkg/eaa/api_subscription.go:113-157 | for any batch, unknown topics and repeats included, the set loses exactly the named topics for this consumer |
| `Broker.Broker.Drop` | edgenode/pkg/eaa/api_subscription.go:146-153 | one list loses the consumer if it held it and keeps the order of the others; no other list changes |
| `Broker.Broker.Sweep` | edgenode/pkg/eaa/api_subscription.go:169-175 | RemoveSubscriber on a broker's list never panics and leaves the others in order |
| `Broker.Broker.RemoveAll` | edgenode/pkg/eaa/api_subscription.go:161-179 | in any iteration order the consumer ends in no list, and every list keeps all others in their order |
| `Broker.Broker.AddService` | edgenode/pkg/eaa/api_producer.go:35-57 | a producer is registered, with its usable declarations, iff the broker is initialised and the name has a colon |
| `Broker.Broker.RemoveService` | edgenode/pkg/eaa/api_producer.go:59-74 | deregisters, and tells an unknown producer from a known one |
| `Broker.Broker.PublishNotification` | edgenode/pkg/eaa/api_producer.go:95-155 | an accepted notification is sent once to each subscriber of the namespace or of the producer's service and to nobody else; which status in which case, and errors send nothing; no list changes in any case |
| `Broker.Broker.GetSubscriptions` | edgenode/pkg/eaa/api_consumer.go:73-97 | in any iteration order URNs are pairwise distinct and each notification is shown under each URN exactly as often as the consumer is subscribed to it |
| `Broker.Broker.Handle` | edgenode/pkg/eaa/api_subscription.go:13-179 | a request changes subscriptions, descriptors and registered producers exactly as its meaning says |
| `Broker.Broker.Serve` | edgenode/pkg/eaa/api_subscription.go:13-179 | over every sequence of requests the lists in shared arrays refine the set the requests describe and stay free of duplicates, descriptors are those first subscribed with, and producers are registered as their last requests say |
| `Broker.DeliveryAfterAnyRun` | edgenode/pkg/eaa/api_producer.go:95-155 | after every run a producer's notification is accepted iff the last request that concerns the producer is a registration, and then goes once to each consumer whose last word on it or its namespace was a subscription, and to nobody else |
| `Broker.ListingAfterAnyRun` | edgenode/pkg/eaa/api_consumer.go:73-97 | after every run a listing has pairwise distinct URNs and shows each subscription whose last word was to subscribe, with the descriptor first subscribed with, and nothing else: once if no request names the empty service ID, and twice iff namespace and service with the empty ID are both subscribed to |
| `Broker.ShownOnce` | edgenode/pkg/eaa/api_consumer.go:81-95 | over every run without the empty service ID what ought to be shown is shown once |
| `Supervisor.RunKeepsInv` | edgenode/pkg/service/service.go:82-146 | wait group, channel and supervisor agree on who has finished in every schedule of any number of services |
| `Supervisor.ReturnIsComplete` | edgenode/pkg/service/service.go:82-107 | when WaitForServices returns, every result was received, the answer is true iff none was an error, and if one was, cancel has been called |
| `Supervisor.ReturnExactly` | edgenode/pkg/service/service.go:82-107 | over every schedule WaitForServices answers true iff no service ended with an error |
| `Supervisor.CancelIffErrorReceived` | edgenode/pkg/service/service.go:92-103 | in every reachable state cancel has been called iff an error has been received |
| `Supervisor.CancelExactly` | edgenode/pkg/service/service.go:92-103 | over every schedule cancel has been called iff a service ended with an error and that was received |
| `Supervisor.FinishExactly` | edgenode/pkg/service/service.go:136-142 | a service that has ended has the result it ended with |
| `Supervisor.HeardExactly` | edgenode/pkg/service/service.go:92-103 | a result has been received iff it was at some step |
| `Supervisor.NoDeadlock` | edgenode/pkg/service/service.go:82-146 | before WaitForServices returns, some step is possible unless a service is still running |
| `Supervisor.StepLowersRank` | edgenode/pkg/service/service.go:82-146 | every step lowers a rank |
| `Supervisor.SchedulesEnd` | edgenode/pkg/service/service.go:82-146 | a schedule of n services has at most 4n + 4 steps |
| `Supervisor.StuckMeansReturned` | edgenode/pkg/service/service.go:82-146 | a schedule after which nothing but a signal can happen has made WaitForServices return |
| `Tables.GuardedKeepsSound` | edgecontroller/gorilla/db_delete_checks.go:14-167 | a statement whose guard was checked keeps referential integrity and the uniqueness rules |
| `Tables.GuardsAreExact` | edgecontroller/gorilla/db_delete_checks.go:14-167 | from sound tables a statement keeps integrity iff its guard holds |
| `Persistence.Db.Write` | edgecontroller/mysql/persistence_service.go:232-263 | a call that fails may or may not have taken effect; either way the tables are sound and are recorded; one that does not fail took effect and tells whether it affected a row |
| `Persistence.Db.NewId` | edgecontroller/mysql/persistence_service.go:32-56 | a new ID is unused in every table |
| `Cascade.ForceDeleteDns` | edgecontroller/gorilla/delete_handlers.go:125-205 | without an error removes all and only the node's DNS association, its configuration and that configuration's aliases, and fails only if a call does |
| `Cascade.DnsRemoved` | edgecontroller/gorilla/delete_handlers.go:125-205 | removing the one association found is removing all DNS data of the node |
| `Cascade.WithoutDnsExactly` | edgecontroller/gorilla/delete_handlers.go:125-205 | row by row: gone are the node's associations, their configurations and those configurations' aliases, and nothing else |
| `Cascade.ForceDeleteApps` | edgecontroller/gorilla/delete_handlers.go:208-266 | without an error removes all and only the node's applications with their policy rows, in any row order |
| `Cascade.DeletePolicyRows` | edgecontroller/gorilla/delete_handlers.go:243-255 | removes exactly the given rows; a missing row ends the loop without an error |
| `Cascade.ForceDeleteIfacePolicies` | edgecontroller/gorilla/delete_handlers.go:269-300 | without an error removes all and only the node's interface policies |
| `Cascade.DeleteNodeRow` | edgecontroller/gorilla/delete_handlers.go:303-332 | a node with applications or DNS data, or unknown, is refused and nothing changes; without a failing call it is deleted iff it is not |
| `Cascade.DeletableExactly` | edgecontroller/gorilla/db_delete_checks.go:14-60 | a node can be deleted iff it exists and no application and no DNS association refers to it |
| `Cascade.DeleteNodeById` | edgecontroller/gorilla/swagger.go:158-208 | forced deletion of an existing node without a failing call succeeds and leaves exactly the tables without the node's rows; unforced deletion removes the node alone; what is left if it fails although no call does; integrity holds after every statement even if calls fail |
| `Cascade.CascadeKeepsIntegrity` | edgecontroller/gorilla/delete_handlers.go:125-332 | the tables without a node's rows are sound and hold nothing of it |
| `Cascade.CascadeSparesOtherApps` | edgecontroller/gorilla/delete_handlers.go:208-300 | every other node keeps its applications, their policies and its interface policies |
| `Cascade.CascadeSparesOtherDns` | edgecontroller/gorilla/delete_handlers.go:125-205 | every other node keeps its DNS association, configuration and aliases |
| `Handlers.Post` | edgecontroller/gorilla/handler.go:56-123 | a valid payload becomes one new row, among the nodes, applications or policies as asked for, under an ID unused in every table; an invalid one changes nothing; fails only if a call does |
| `Handlers.DeleteAppById` | edgecontroller/gorilla/swagger.go:347-390 | deleted only if no node and no DNS alias refers to the application, in use only if one does; without a failing call in use iff one does, not found iff it is unknown, deleted otherwise; a refusal changes nothing |
| `Handlers.DeletePolicyById` | edgecontroller/gorilla/swagger.go:509-555 | without a failing call: refused as in use iff an application on a node has the policy, not found iff it is unknown, deleted otherwise; a refusal changes nothing |
| `Handlers.DnsCreate` | edgecontroller/gorilla/swagger.go:890-998 | for a node without DNS data: configuration, one alias per application and association, under new IDs; a malformed body is a bad request, forwarders are not implemented, and then, or if the node does not take the data, nothing changes |
| `Handlers.AliasRowsExactly` | edgecontroller/gorilla/swagger.go:918-945 | alias number i names application number i, and there are no others |
| `Handlers.PatchedDnsExactly` | edgecontroller/gorilla/swagger.go:890-998 | afterwards the node has one association with one new configuration, whose aliases name the applications in order; all other rows are as they were |
| `Handlers.DnsDelete` | edgecontroller/gorilla/swagger.go:1001-1074 | removes exactly the node's DNS data; without a failing call it fails iff there is some and the node does not answer |
| `Handlers.PatchNodeDns` | edgecontroller/gorilla/swagger.go:828-860 | replaces the node's DNS data; a body that is refused leaves the node without any; an unknown node is not found and nothing changes; the reply of each case without a failing call |
| `Handlers.RefusedPatch` | edgecontroller/gorilla/swagger.go:828-860 | removing DNS data changes nothing iff there is none, and an unknown node has none |
| `Handlers.RefusedYetChanged` | edgecontroller/gorilla/swagger.go:843-857 | for every state and node with DNS data, although no call fails, a malformed body is a bad request, and the tables have changed: the DNS data is gone |
| `Handlers.DeleteNodeDns` | edgecontroller/gorilla/swagger.go:863-887 | removes exactly the node's DNS data; an unknown node is not found; the reply of each case without a failing call |
| `Handlers.PostNodeApp` | edgecontroller/gorilla/swagger.go:1596-1715 | one new row with an unused ID, only if node and application exist and the application is not yet on the node; the reply of each other case |
| `Handlers.FindNodeApp` | edgecontroller/gorilla/swagger.go:1863-1886 | the row found is the only one for its node and application; not found iff there is none |
| `Handlers.DeleteNodeAppById` | edgecontroller/gorilla/swagger.go:1858-1928 | refused as in use iff the application has a policy on the node; otherwise its row is removed if the node answers; the reply of each case without a failing call |
| `Handlers.HasPolicyExactly` | edgecontroller/gorilla/db_delete_checks.go:110-137 | an application has a policy on a node iff a policy row refers to its row there |
| `Handlers.PatchNodeAppPolicy` | edgecontroller/gorilla/swagger.go:2007-2133 | afterwards the policy is the only one of the application on the node; not found iff application on node or policy is unknown; an internal error without a failing call iff the node does not answer, and then nothing changed |
| `Handlers.WithPolicyExactly` | edgecontroller/gorilla/swagger.go:2097-2130 | the application on the node has just the new policy row, and all other rows are as they were |
| `Handlers.ReplacePolicy` | edgecontroller/gorilla/swagger.go:2097-2130 | the old policy row, if any, is exchanged for a new one |
| `Handlers.DeletePolicyOfApp` | edgecontroller/gorilla/swagger.go:2136-2226 | removes the application's policy row on the node; without a failing call fails iff there is none or the node does not answer, and then nothing changed |
| `Handlers.SetIfacePolicy` | edgecontroller/gorilla/swagger.go:1310-1427 | the row of the interface, if there is exactly one, is exchanged or removed; unknown node or policy is refused and nothing changes |
| `Handlers.KeptExactly` | edgecontroller/gorilla/swagger.go:1379-1400 | exactly the row of the interface, if it has just one, is gone |
| `Handlers.Handle` | edgecontroller/gorilla/swagger.go:158-2491 | a fulfilled request changes the tables exactly as its kind says; a refused one leaves them unchanged iff it is not a PATCH of DNS data with a refused body for a node with DNS data, and then removes just that data; without a failing call the reply, and what an internal error leaves, are determined by tables and request; integrity holds after every statement |
| `Handlers.Serve` | edgecontroller/gorilla/swagger.go:158-2491 | from empty tables, for every sequence of requests and every pattern of failing calls, the tables are sound after every single statement, and a record of the run tells of each request its calls, what it did and how it is answered |
| `Handlers.RecordedAt` | edgecontroller/gorilla/swagger.go:158-2491 | of every request of a recorded run: it starts from the tables its predecessor left, its new IDs are above all in use, and what it did and its reply are accounted for |
| `Handlers.CleanRunAnswers` | edgecontroller/gorilla/swagger.go:158-2491 | in a run without failing calls every reply is determined by the request and the tables it meets |
| `QueryFilter.IsAllowed` | edgecontroller/mysql/persistence_service.go:105-121 | the search that stops at the first greater column finds a column iff it is on the sorted whitelist |
| `QueryFilter.BuildFilter` | edgecontroller/mysql/persistence_service.go:105-129 | for any whitelist and any filters, succeeds iff every column is on the whitelist, with the condition and the value of each filter, index by index; otherwise names the first that is not |
| `QueryFilter.SortedFields` | edgecontroller/mysql/persistence_service.go:105-106 | sorting keeps the whitelist's columns and puts them in lexicographic order |
| `QueryFilter.GreaterStaysGreater` | edgecontroller/mysql/persistence_service.go:111-117 | behind a column greater than the wanted one only greater ones follow |
| `Lifecycle.TransitionalRejectsAll` | edgenode/pkg/app-metadata/app_metadata.go:57-101 | while the status is STARTING or STOPPING every request is rejected and nothing changes |
| `Lifecycle.GateExactly` | edgenode/pkg/app-metadata/app_metadata.go:57-101 | which request is accepted in which status |
| `Lifecycle.RequestOutcome` | edgenode/pkg/eva/application_lifecycle_service.go:335-473 | an accepted request, whatever is asked for until its worker ends: RUNNING after a start or restart, STOPPED after a stop, ERROR if it failed, and all else as before |
| `Lifecycle.UndeployOutcome` | edgenode/pkg/eva/eva_deploy.go:1237-1319 | an accepted undeployment leaves nothing, or ERROR if it failed |
| `Lifecycle.RunKeepsInv` | edgenode/pkg/eva/application_lifecycle_service.go:335-507 | status on disk and workers in flight agree over every run without an accepted undeployment or redeployment |
| `Lifecycle.Exclusion` | edgenode/pkg/eva/application_lifecycle_service.go:335-507 | in every run without an accepted undeployment or redeployment at most one worker is in flight, while it is Start, Stop, Restart, Undeploy, Redeploy and Deploy are rejected, and as long as no save was lost one is in flight iff the status is STARTING or STOPPING |
| `Lifecycle.LostSaveSticks` | edgenode/pkg/eva/application_lifecycle_service.go:81-91 | after a worker could not save its result no request is ever accepted again and nothing changes |
| `Lifecycle.UndeployBreaksExclusion` | edgenode/pkg/eva/eva_deploy.go:1101-1319 | from every reachable state at rest in which an undeployment or a redeployment is accepted, two lifecycle workers can then be in flight |
| `Shuffle.ShuffleInPlace` | edgenode/pkg/edgedns/handler.go:53-59 | the swapping loop on the array computes the specified shuffle |
| `Shuffle.ShuffleIsPermutation` | edgenode/pkg/edgedns/handler.go:53-59 | whatever is drawn the answer is a permutation of the records |
| `Shuffle.EveryPermutationArises` | edgenode/pkg/edgedns/handler.go:53-59 | every permutation is the result of some draw |
| `Shuffle.DrawsAreDistinguishable` | edgenode/pkg/edgedns/handler.go:53-59 | on pairwise distinct records different draws give different answers |
| `Shuffle.ShuffleIsBijection` | edgenode/pkg/edgedns/handler.go:53-59 | on pairwise distinct records draws and permutations correspond one to one |
| `Cidr.Validate` | edgecontroller/traffic_policy_kube_ovn.go:222-250 | accepts iff the block parses and every exception passes; otherwise the first exception at fault decides the error |
| `Cidr.ExceptErrorExactly` | edgecontroller/traffic_policy_kube_ovn.go:233-246 | the verdict case by case: an address outside, an equally wide block, a prefix that is not longer, or accepted |
| `Cidr.MaskTestIsMembership` | edgecontroller/traffic_policy_kube_ovn.go:236-238 | the mask test on an address is membership in the block |
| `Cidr.StrictSubsetIsLongerPrefix` | edgecontroller/traffic_policy_kube_ovn.go:233-246 | as sets of addresses, a block is strictly inside another iff its address is and its prefix is longer |
| `Cidr.PrintedAlike` | edgecontroller/traffic_policy_kube_ovn.go:240-242 | two blocks, one holding the other's address, print alike iff they are equally wide |
| `Cidr.ExceptVerdict` | edgecontroller/traffic_policy_kube_ovn.go:233-246 | for any two blocks the verdict on an exception is strict containment iff the address is outside, the widths are equal, or the prefix lengths compare as the widths do |
| `Cidr.ExceptVerdictWithinFamily` | edgecontroller/traffic_policy_kube_ovn.go:233-246 | within one address family the verdict is strict containment |
| `Cidr.ExceptVerdictAcrossFamilies` | edgecontroller/traffic_policy_kube_ovn.go:233-246 | across families there are a wrong acceptance and a wrong rejection |
| `Cidr.ValidateExact` | edgecontroller/traffic_policy_kube_ovn.go:222-250 | a block with exceptions of its own family is accepted iff each, read as a set of addresses, is a strict subset of the block |
| `NodeFeatures.Store.OneRowPerLabel` | edgecontroller/nfd-master/nfd-master.go:199-246 | there is at most one row per node and label |
| `NodeFeatures.Store.Upsert` | edgecontroller/nfd-master/nfd-master.go:199-246 | one label of one node gets the value, nothing else changes |
| `NodeFeatures.Store.SetLabels` | edgecontroller/nfd-master/nfd-master.go:185-250 | in any iteration order and whatever fails, the node's map is overridden by exactly the labels reached whose write took effect, reported as failed or not; a foreign peer changes nothing; which errors are reported |
| `NodeFeatures.WritesExactly` | edgecontroller/nfd-master/nfd-master.go:185-250 | a call stores a value for a label iff it comes from the node, has that value, its query and those before it succeed, and its write takes effect |
| `NodeFeatures.Store.Serve` | edgecontroller/nfd-master/nfd-master.go:185-250 | after any run of calls, of any nodes and with any failures, every label of every node has the value last stored for it |
| `NodeFeatures.LastStoreDecides` | edgecontroller/nfd-master/nfd-master.go:185-250 | the last call that stores a label decides its value |
| `NodeFeatures.NeverStoredStays` | edgecontroller/nfd-master/nfd-master.go:185-250 | a label no call stores keeps its value |
| `NodeFeatures.SomeStoreDecides` | edgecontroller/nfd-master/nfd-master.go:185-250 | if any call stores a label, one is the last that does |
| `NodeFeatures.NoErrorsStoreAll` | edgecontroller/nfd-master/nfd-master.go:185-250 | without errors a call stores all its labels, in any iteration order |
| `NodeFeatures.StoresAllIff` | edgecontroller/nfd-master/nfd-master.go:185-250 | a call stores all its labels iff it is from the node, no query fails and no write is lost, or it has none |
| `NodeFeatures.ReportExactly` | edgecontroller/nfd-master/nfd-master.go:185-250 | exactly when a call reports an error iff it did not store everything: a foreign peer with something to store, a failing query, or a last write that fails just when some write is lost |
| `NodeFeatures.ReportsCanBeWrong` | edgecontroller/nfd-master/nfd-master.go:199-247 | a call that loses a label without reporting it, and one that stores everything and reports an error |
| `NodeFeatures.Store.GetNfdFeatures` | edgecontroller/gorilla/swagger.go:1510-1537 | the answer is the node's map, unless the query fails |
| `NodeFeatures.EPAValidate` | edgecontroller/app.go:142-164 | admits iff every well-formed requirement equals the node's label |
| `NodeFeatures.RequiredExactly` | edgecontroller/app.go:142-164 | exactly a key of nfd and a colon, in any case, followed by a label, with a value, requires something: that label to have that value |
| `NodeFeatures.AdmissionAfterAnyRun` | edgecontroller/app.go:142-164 | after any run of SetLabels calls, with any orders and failures, an application is admitted to a node iff its labels can be read and each well-formed requirement equals the value last stored for that node and label |
| `LogPriority.Logger.SetFacility` | common/log/logger.go:56-69 | changes the facility and nothing else; panics exactly on an invalid one and then changes nothing |
| `LogPriority.Logger.SetLevel` | common/log/logger.go:88-107 | changes the level and nothing else |
| `LogPriority.Logger.HandleSignal` | common/log/interrupt.go:29-36 | a signal moves the level by one modulo 8 and nothing else |
| `LogPriority.Logger.Apply` | common/log/logger.go:56-122 | over every sequence of calls and signals the packed word and its flags refine two independent cells |
| `LogPriority.Logger.Emit` | common/log/logger.go:200-223 | a line is suppressed iff its severity is above the level; otherwise it carries its severity, and the logger's facility iff something was ever set |
| `LogPriority.LevelIsLastSet` | common/log/logger.go:88-122 | the level is the last one set, EMERG included, or INFO if none was, moved by the signals since then, all modulo 8, whatever happens to facilities |
| `LogPriority.SignalsShift` | common/log/interrupt.go:29-36 | a sequence of signals moves the level by their sum modulo 8 |
| `LogPriority.FacilityIsLastSet` | common/log/logger.go:56-86 | the facility is the last valid one set, KERN included, and LOCAL0 if none was, whatever happens to levels |
| `LogPriority.FacilitiesExactly` | common/log/logger.go:56-69 | exactly the facilities 0 to 23 are accepted; a logger starts with severity 6 and facility 16 |
| `LogPriority.SignalsWrapAround` | common/log/interrupt.go:29-36 | the signals undo each other and wrap around exactly at EMERG and DEBUG |

## Left out

- Network, TLS, PKI, JWT, gRPC and HTTP plumbing, Docker, libvirt, Open vSwitch: calls into them succeed or fail arbitrarily, or are left out.
- Parsing of traffic rules to lookup keys, of MAC addresses and of CIDR literals: their results are inputs (`ProtoRule`, `Block`).
- The translation of Kube-OVN policies to Kubernetes network policies, String methods, single-field Validate branches and GET handlers.
- PATCH of nodes, applications and policies themselves: they change no column the integrity rules are about.
- The model's tables have no constraint of their own; no result relies on the foreign and unique keys of the schema.
- That a DNS alias refers to an existing application is not claimed: its creation does not check it. Interface policies are not claimed to be unique per interface or to refer to existing policies.
- `Handlers.Handle` covers Kube-OVN policies together with native ones, as one table.
- Bodies and query parameters that do not decode are turned away before anything happens and are modelled only where that is not so, for a PATCH of DNS data, and where a payload is validated.
- Requests to the controller and to the broker are served one at a time; unsynchronised concurrent map access and the websocket upgrade race are not part of this model.
- The nested maps of the broker (notification, then service) are one map keyed by topic; the order in which topics are visited is arbitrary, which includes the nested orders.
- Delivery over a websocket may fail for each subscriber and is only logged; the model stops at the list of subscribers that are sent to.
- Once-guarded bodies of a pooled connection are atomic steps; Accept's two counter loads are separate steps.
- `ConnPool.NoWrapAround` covers the 32-bit counters: they are unbounded integers here.
- Time-outs, deadlines and retry delays: a dial that times out is a dial without result.
- What a redeployment does to the container: its worker may leave any deployed state, only its gate is exact.
- Slices of the broker start at the beginning of their array, as all of them do in that code; capacity growth is arbitrary.
