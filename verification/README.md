# Verification of cadf

cadf is a C++ framework: a dependency-injection container (di-lib), a document tree with a
JSON form (dom-lib), message buses with local, bridged and networked connections (comms-lib),
and a thread pool (thread-lib). This project models its logic in Dafny and proves what that
logic is for. `dafny verify dfyconfig.toml` checks everything.

**Assembly (`Sequences`, `CircularDependencyChecker`, `Configuration`, `Context`, `Assembly`).**
`Context.Assemble` sweeps the waiting configurations until a sweep loads nothing. What it loads
is the least set closed under "all resources available", whatever the order of registration.
The search for a cycle keeps no visited set; it terminates because its stack holds distinct
names, and it reports a cycle exactly if there is one, as a minimal closed walk. If it reports
none, some waiting resource is provided by nobody, by a pigeonhole argument on the finite graph.

**Thread pool (`ThreadPool`, `PoolHistory`, `PoolProgress`, `PoolShutdown`).** Schedulers, workers, `start` and `stop` as one
transition system whose steps are the points where threads may interleave. The invariant over
every run gives first-come first-served hand-out, mutual exclusion, no lost wake-up while the pool
is not terminating, and that nothing runs after `stop` has returned. The pool never deadlocks: what
cannot move is at rest. Work in its buffer is taken after a bounded number of steps, and waits only
while all threads run functions. `stop` sets its flag without
the buffer mutex, so its notification can miss a worker. From any reachable state it can hang
exactly if, when the flag is set, some worker stands between reading it and going to sleep;
otherwise something can always move on, and apart from new calls only a bounded number of steps
remain.

**Buses (`Bus`, `BusHistory`, `Bridge`, `Forwarding`).** The nested index of the bus is proved
against the plain multiset of connections, for any history of connects and disconnects. In a forest
of buses joined by bridges one send ends for every rule table and reaches no connection twice,
whichever of several connections the lookup of a single-instance broadcast picks. It reaches
everyone a route leads to, whatever the lookups return, exactly if no lookup on the way has a
choice. Routes are pinned hop by hop: who puts the message on each bus, and under which address.
Without leaving out the sender, one bridge already echoes without bound.

**JSON (`DomNode`, `JsonConverter`, `JsonParser`, `JsonGrammar`, `JsonErrors`, `JsonRoundTrip`,
`Decimal`, `JsonMessage`).** The printer and the cursor parser, the second proved against a parser
over what is left to read, and that against a grammar which does not know the parser: exactly the
texts of the grammar are accepted, for the tree they stand for, and the exception says whether more
text could still have helped. Printing and parsing gives back exactly the well-formed trees. On top
of it, decimal integers and packets as NUL-terminated JSON text.

**Binary form (`BinaryTypes`, `BinaryFormat`, `BinaryLayout`, `Buffer`, `BinarySerializer`,
`MessageFactory`).** Sizes, serialization and deserialization of nested scalars, strings, arrays and
maps, whole packets, and the bounded buffers. Decoding inverts encoding, exactly the bytes that
begin with an encoding are decoded, every strict prefix is rejected, and a packet is serialized
exactly if it fits the configured size. Which byte stands where is stated by position. Numbers have
their lowest byte first, as in the memory of the machines the program is built for.

**Server (`ServerHistory`, `Server`).** Any number of sockets, each going through the handshake, on
a bus whose local connections come, go and send as well. In every history a socket is sent Init,
then Complete, then bus traffic, and its client is on the bus once, with the address of its first
response, from then on.

Exceptions are `Err` results; `:-` lets one pass through. Ghost parameters and ghost state say
what the model is compared with and have no counterpart in the program.

## Model

| member | source | states |
|---|---|---|
| DependencyCycles.CompoundNameInjective | di-lib/src/di/CircularDependencyChecker.cpp:74 | configuration names without a colon make the display name identify the pair of configuration and resource |
| DependencyCycles.CompoundNameClash | di-lib/src/di/CircularDependencyChecker.cpp:74-75 | without that restriction two different pairs share a name, so the restriction is needed |
| DependencyCycles.CircularDependencyChecker.Add | di-lib/src/di/CircularDependencyChecker.cpp:12-16 | the graph gains this configuration's resources, and it becomes the source of its beans, replacing earlier sources |
| DependencyCycles.CircularDependencyChecker.CheckForCycle | di-lib/src/di/CircularDependencyChecker.cpp:21-32 | true exactly if the graph has a closed walk; then the stack is one whose entries differ but for its two ends; otherwise the stack is empty again |
| DependencyCycles.CircularDependencyChecker.MinimizeCycle | di-lib/src/di/CircularDependencyChecker.cpp:37-40 | a suffix of the stack is left that is a minimal cycle |
| DependencyCycles.CircularDependencyChecker.CheckAllResources | di-lib/src/di/CircularDependencyChecker.cpp:52-67 | terminates; on false the stack is as before and no walk from this configuration repeats or meets the stack; on true the stack ends in a repetition |
| DependencyCycles.CircularDependencyChecker.FollowResource | di-lib/src/di/CircularDependencyChecker.cpp:72-91 | the same for one resource; the stack never exceeds the number of pairs before a cycle is found |
| DependencyCycles.ExhaustedStep | di-lib/src/di/CircularDependencyChecker.cpp:82-90 | a pair is exhausted once the source of its resource is, although nothing but the stack is remembered |
| DependencyCycles.ExhaustedMeansAcyclic | di-lib/src/di/CircularDependencyChecker.cpp:23-31 | when every configuration is exhausted there is no cycle |
| Configurations.MissingTwice | di-lib/include/di/Configuration.h:157-162 | erasing satisfied resources early does not change what is missing later |
| Configurations.MissingIs | di-lib/include/di/Configuration.h:157-162 | a name with a bean is not missing, any other is missing as often as it was asked for |
| Configurations.MissingInOrder | di-lib/include/di/Configuration.h:157-162 | and the missing names keep their order |
| Configurations.ConfigurationWrapper.AreResourcesSatisfied | di-lib/include/di/Configuration.h:157-162 | exactly the resources without a bean stay on the waiting list; true exactly if each had one |
| Configurations.ConfigurationWrapper.BuildConfig | di-lib/include/di/Configuration.h:171-175 | the configuration, or the exception with the names that are still missing |
| Configurations.LoadStep | di-lib/src/di/Context.cpp:28-36 | loading one more configuration keeps the account of loaded, waiting and registered beans |
| Configurations.LoadedIsLeast | di-lib/src/di/Context.cpp:19-43 | the loaded set is closed under "all resources available" and contained in every closed set |
| Configurations.OrderIndependent | di-lib/src/di/Context.cpp:19-43 | two settled assemblies of the same configurations load the same ones and register the same beans, whatever their order |
| Contexts.Context.RegisterConfiguration | di-lib/include/di/Context.h:28-34 | the configuration waits behind those registered before it |
| Contexts.Context.RegisterBean | di-lib/src/di/BeanManager.cpp:21-26 | an empty or taken name is rejected and changes nothing; otherwise exactly this name is added |
| Contexts.Context.ProvideBeans | di-lib/src/di/Configuration.cpp:35-38 | all beans are added if they are new and distinct; otherwise the first offender is reported and exactly the beans before it are added |
| Contexts.Context.LoadConfig | di-lib/src/di/Context.cpp:48-66 | loads exactly if nothing is missing; a rejected bean aborts it before the configuration is stored as active |
| Contexts.Context.Visit | di-lib/src/di/Context.cpp:28-37 | one step of the sweep: the configuration is erased exactly if it loaded, otherwise its waiting list is brought up to date |
| Contexts.Context.Sweep | di-lib/src/di/Context.cpp:27-38 | one pass: either fewer configurations wait, or every one has been checked against the same beans and lacks one |
| Contexts.Context.Assemble | di-lib/src/di/Context.cpp:19-43 | terminates; what is loaded is settled, every waiting list is exactly what is missing, and the outcome is the right diagnosis |
| Contexts.Context.VerifyContext | di-lib/src/di/Context.cpp:73-93 | success exactly if nothing waits; the cycle exception exactly if the graph of waiting configurations has a cycle, with a minimal one; otherwise the initialization exception |
| Assembly.GraphDescribes | di-lib/src/di/Context.cpp:75-78 | with distinct names the checker's graph is the intended one: missing resources, and the configuration that declares each bean |
| Assembly.SuccessorsMakeCycle | di-lib/src/di/CircularDependencyChecker.cpp:72-91 | pigeonhole: if every pair has a successor the finite graph has a cycle |
| Assembly.InitializationFailureMeansMissingBean | di-lib/src/di/Context.cpp:86-93 | if something waits and there is no cycle, some waiting resource is declared by no configuration and was no existing bean |
| Assembly.AssembledIff | di-lib/src/di/Context.cpp:19-43 | everything loads if and only if every resource is declared or was there before, and the dependency graph of all registered configurations has no cycle |
| Assembly.WaitingCycleIsDependencyCycle | di-lib/src/di/Context.cpp:73-81 | a reported cycle among the waiting is a cycle of all registered configurations |
| Assembly.AssembledIsAcyclic | di-lib/src/di/Context.cpp:19-43 | if everything loaded, the dependency graph of all configurations has no cycle |
| ThreadPool.StepKeepsInv | thread-lib/src/thread/BasicThreadPool.cpp:31-107 | every step of a scheduler, worker, start or stop keeps the invariant |
| ThreadPool.RunKeepsInv | thread-lib/src/thread/BasicThreadPool.cpp:31-107 | so does every run, in any interleaving |
| ThreadPool.FirstComeFirstServed | thread-lib/src/thread/BasicThreadPool.cpp:73-107 | the functions taken, then those buffered, are those scheduled, in order; each one taken goes to one worker, which runs that function, and begins at most once |
| ThreadPool.NoLostWakeup | thread-lib/src/thread/BasicThreadPool.cpp:73-107 | while started and not terminating, a non-empty buffer means a worker is awake or a notification is due |
| ThreadPool.RunningBounded | thread-lib/src/thread/BasicThreadPool.cpp:37-38 | at most the configured number of functions run at once |
| ThreadPool.MutualExclusion | thread-lib/src/thread/BasicThreadPool.cpp:75-101 | the buffer mutex has one holder, and a worker about to pop finds the queue non-empty |
| ThreadPool.StopReturnsDrained | thread-lib/src/thread/BasicThreadPool.cpp:45-60 | when stop returns every thread has ended and nothing runs |
| ThreadPool.NothingRunsAfterStop | thread-lib/src/thread/BasicThreadPool.cpp:31-60 | and nothing is taken or begun again, whatever is scheduled or started later, because the flag is never reset |
| ThreadPool.StoppedPoolHasNoThreads | thread-lib/src/thread/BasicThreadPool.cpp:33-59 | a pool that is not started, with no call in progress, has no threads |
| PoolHistory.StateAccounts | thread-lib/src/thread/BasicThreadPool.cpp:45-107 | what was taken, what is buffered and what a call is about to push are the functions of all calls of schedule, in the order in which these got the mutex; as many were taken and begun as the run shows; the flag is set exactly if a stop set it |
| PoolHistory.StartedPoolHasAll | thread-lib/src/thread/BasicThreadPool.cpp:33-40 | a started pool has as many threads as configured, and none of them has ended before stop sets the flag |
| PoolProgress.AtRestIff | thread-lib/src/thread/BasicThreadPool.cpp:31-107 | no deadlock: something other than a new call or a spurious wake-up is possible exactly if some call is in progress that does not wait in join for a sleeper, or some worker neither sleeps nor has ended |
| PoolProgress.WorkerProgress | thread-lib/src/thread/BasicThreadPool.cpp:84-106 | a worker that does not sleep and has not ended can move on, or the pool can, without waiting for any function to return |
| PoolProgress.StepNearsTake | thread-lib/src/thread/BasicThreadPool.cpp:73-107 | with work in the buffer every step that takes none brings the pool closer to taking it; a new call puts it off by a bounded amount |
| PoolProgress.WorkIsTaken | thread-lib/src/thread/BasicThreadPool.cpp:73-107 | until the front of the buffer is taken or stop sets its flag something is always possible, and the steps are bounded by the state and the number of new calls |
| PoolProgress.TakesTheFront | thread-lib/src/thread/BasicThreadPool.cpp:100-101 | what is taken is the front of the buffer |
| PoolProgress.StepKeepsCovered | thread-lib/src/thread/BasicThreadPool.cpp:73-107 | while a worker sleeps, each function in the buffer has a worker on its way to it or a notification to come |
| PoolProgress.WorkConserving | thread-lib/src/thread/BasicThreadPool.cpp:73-107 | unless the pool itself can move on, every thread of a pool with work in its buffer runs a function |
| PoolShutdown.NotifyAllMissesIff | thread-lib/src/thread/BasicThreadPool.cpp:51-55 | after notify_all in stop a worker can still fall asleep exactly if one stood between its test of the flag and its sleep |
| PoolShutdown.StepLowers | thread-lib/src/thread/BasicThreadPool.cpp:31-107 | once the flag is set every step but a new call brings stop closer to its return, and a new call puts it off by a bounded amount |
| PoolShutdown.StopIsBounded | thread-lib/src/thread/BasicThreadPool.cpp:51-59 | so the steps taken before stop returns are bounded by the state and the number of new calls |
| PoolShutdown.RousedProgress | thread-lib/src/thread/BasicThreadPool.cpp:54-107 | while stop joins and no worker sleeps or is about to, some thread or call in progress can move on |
| PoolShutdown.StopReturnsUnlessMissed | thread-lib/src/thread/BasicThreadPool.cpp:51-59 | if no worker is about to sleep when the flag is set, every run until stop returns can go on, and is bounded |
| PoolShutdown.MissedStopHangs | thread-lib/src/thread/BasicThreadPool.cpp:51-55 | with a worker about to sleep, for any number of workers and schedulers, some run leaves stop waiting with only spurious wake-ups and new calls possible |
| PoolShutdown.StopCanHangIff | thread-lib/src/thread/BasicThreadPool.cpp:45-60 | stop can be left waiting like that exactly if some worker is about to sleep when the flag is set |
| PoolShutdown.StopCanWaitForever | thread-lib/src/thread/BasicThreadPool.cpp:45-55 | a concrete run from the start: one worker, and stop waits in join with only a spurious wake-up possible |
| Buses.EqualRange | comms-lib/src/comms/bus/Bus.cpp:25 | in a sorted multimap the equal range splits the entries below, at and above the key |
| Buses.Bus.Connected | comms-lib/src/comms/bus/Bus.cpp:15-18 | the index stays sorted and holds this connection once more, every other as often as before |
| Buses.Bus.Disconnected | comms-lib/src/comms/bus/Bus.cpp:23-32 | exactly one occurrence of this connection is gone, if there was one |
| Buses.Bus.RouteMessage | comms-lib/src/comms/bus/Bus.cpp:37-54 | each addressed connection gets as many copies as it has entries, the sender none; a negative half of the address matches everything, any other only itself; for one instance of all types, one connection per type that has it |
| Buses.Bus.SendToSingleRecipient | comms-lib/src/comms/bus/Bus.cpp:59-64 | the same for one address |
| Buses.Bus.BroadcastToAllInstancesSingleType | comms-lib/src/comms/bus/Bus.cpp:78-81 | the same for all instances of a type |
| Buses.Bus.BroadcastToAll | comms-lib/src/comms/bus/Bus.cpp:69-73 | the same for everyone |
| Buses.Bus.BroadcastToSingleInstanceAllTypes | comms-lib/src/comms/bus/Bus.cpp:94-100 | per type, whichever connection find returns, each once, the sender left out |
| Buses.Bus.SendToRecipient | comms-lib/src/comms/bus/Bus.cpp:105-110 | the recipient gets the packet unless it is the sender |
| Buses.LocalConnection.RegisterBus | comms-lib/src/comms/connection/LocalConnection.cpp:30-42 | the first bus is kept, a second one is refused |
| Buses.LocalConnection.Connect | comms-lib/src/comms/connection/LocalConnection.cpp:47-56 | afterwards the bus holds the connection once, however often it is called; others are untouched |
| Buses.LocalConnection.Disconnect | comms-lib/src/comms/connection/LocalConnection.cpp:61-70 | afterwards the bus does not hold it, however often it is called |
| Buses.LocalConnection.SendPacket | comms-lib/src/comms/connection/LocalConnection.cpp:80-89 | exactly the three refusals, in order; otherwise what routing delivers |
| BusHistory.SendAfterHistory | comms-lib/src/comms/bus/Bus.cpp:15-110 | after any history through guarded connections, a send reaches every other addressed member once and nobody else, if addresses are unique |
| BusHistory.Replay | comms-lib/src/comms/connection/LocalConnection.cpp:47-70 | after any history the index holds exactly the connections whose last event was a connect, once each |
| BusHistory.PickIsExact | comms-lib/src/comms/bus/Bus.cpp:94-100 | the broadcast to one instance of all types is complete if no two members of a type share the instance |
| BusHistory.ExactIffNoneShare | comms-lib/src/comms/bus/Bus.cpp:94-100 | and only then: otherwise find can leave a member out |
| Bridges.MessageForwarder.AddRule | comms-lib/src/comms/node/BridgeNode.cpp:24-26 | the newest rule for a message type counts |
| Bridges.MessageForwarder.MessageReceived | comms-lib/src/comms/node/BridgeNode.cpp:31-40 | the message goes on exactly if there is a rule for its type, unchanged, to the type and the instance of the rule and not to those it came with |
| Bridges.AddRuleAndReceive | comms-lib/src/comms/node/BridgeNode.cpp:24-40 | after a rule is added every message of its type goes to the rule's type and instance, and other messages go on as before |
| Bridges.TrailStopsDistinct | comms-lib/src/comms/node/BridgeNode.cpp:31-48 | in a forest a walk that never turns back meets no bus twice |
| Bridges.UniqueTrail | comms-lib/src/comms/node/BridgeNode.cpp:31-48 | in a forest there is one such walk between two buses |
| Bridges.CarryIsTrail | comms-lib/src/comms/node/BridgeNode.cpp:31-40 | because a bus leaves out the sender, a route a message takes never turns back; the message itself is unchanged |
| Bridges.ReachedIff | comms-lib/src/comms/node/BridgeNode.cpp:31-40 | a route leads to a connection exactly if every bridge on it has a rule, the first hop is on the sender's bus and meant by the packet's address, each next one is on the bus of the last bridge's other end and meant by the type and instance of its rule, and nobody hears itself |
| Bridges.OneRoute | comms-lib/src/comms/node/BridgeNode.cpp:31-40 | no connection is led to by two routes |
| Bridges.RouteBounded | comms-lib/src/comms/node/BridgeNode.cpp:31-40 | a route has fewer crossings than there are buses, so forwarding ends |
| Bridges.RoutesSplit | comms-lib/src/comms/node/BridgeNode.cpp:31-40 | whom routes lead to from a bus is whom the packet is for there and whoever is led to over their bridges |
| Forwarding.Send | comms-lib/src/comms/node/BridgeNode.cpp:31-40 | depth-first delivery over the real bus indexes and forwarders terminates for every rule table, with a log the buses and rules allow |
| Forwarding.PassOn | comms-lib/src/comms/node/BridgeNode.cpp:31-40 | what a connection passes on is decided by its forwarder and then by the next bus |
| Forwarding.OutcomeCounted | comms-lib/src/comms/bus/Bus.cpp:94-110 | whatever the lookups return, each connection gets at most one copy, only if a route leads to it, and surely if no lookup on the way had a choice |
| Forwarding.DeliversAll | comms-lib/src/comms/bus/Bus.cpp:94-110 | a bus hands the packet to all it is for if no two of its connections of a type share the instance asked for |
| Forwarding.ExactIffClear | comms-lib/src/comms/bus/Bus.cpp:94-100 | every possible send is exact if and only if no packet for one instance of all types comes to a bus where two connections of a type have that instance |
| Forwarding.OutcomeWithout | comms-lib/src/comms/bus/Bus.cpp:94-100 | if one does, some possible send misses a connection a route leads to |
| Forwarding.UniqueIsClear | comms-lib/src/comms/bus/Bus.cpp:94-100 | in particular sends are exact when addresses are unique on each bus |
| Forwarding.TwinsAreNotClear | comms-lib/src/comms/bus/Bus.cpp:94-100 | a concrete bus with two connections of one address on which a send is not exact |
| Forwarding.SendMessage | comms-lib/src/comms/node/BridgeNode.cpp:31-48 | one send from any connection: at most one copy each, only where a route leads hop by hop under the addresses of the rules, none back to the sender, and one exactly where a route leads if no lookup has a choice |
| Bridges.EchoWithoutExclusion | comms-lib/src/comms/bus/Bus.cpp:105-110 | if the sender were not left out, one bridge that forwards both ways would make routes of every length |
| DomNodes.BeforeTotal | dom-lib/include/dom/DomNode.h:286 | the order of child names is total and antisymmetric |
| DomNodes.BeforeIff | dom-lib/include/dom/DomNode.h:286 | of two names the one with the smaller character where they first differ comes first, or the one that begins the other |
| DomNodes.PutKeepsOrder | dom-lib/src/dom/DomNode.cpp:46-48 | assigning a child keeps the map ordered and adds nothing else |
| DomNodes.PutThenLookup | dom-lib/src/dom/DomNode.cpp:46-69 | the last value assigned to a name is found, other names keep theirs |
| JsonPrinting.GetValueString | dom-lib/src/dom/json/JsonConverter.cpp:12-17 | null, the quoted string, or the plain value |
| JsonPrinting.Size | dom-lib/src/dom/json/JsonConverter.cpp:22-38 | for every tree the size plus the number of empty arrays printed is the length of the text |
| JsonPrinting.EmptyArrayIs | dom-lib/src/dom/json/JsonConverter.cpp:22-52 | an empty array is printed as two characters and counted once |
| JsonPrinting.ToString | dom-lib/src/dom/json/JsonConverter.cpp:43-73 | for every tree the text is its token list joined, with a comma after every value but the last |
| JsonParsing.JsonParser.NextChar | dom-lib/src/dom/json/JsonParser.cpp:166-171 | the first character left, or the exception at the end of the text |
| JsonParsing.JsonParser.NextCharSkipSpace | dom-lib/src/dom/json/JsonParser.cpp:176-182 | the first character that is no space; the cursor stands behind it |
| JsonParsing.JsonParser.PeakChar | dom-lib/src/dom/json/JsonParser.cpp:187-191 | the same without passing it |
| JsonParsing.JsonParser.PrevChar | dom-lib/src/dom/json/JsonParser.cpp:196-198 | gives the last character back; the cursor is never at zero then |
| JsonParsing.JsonParser.CheckIfTerminator | dom-lib/src/dom/json/JsonParser.cpp:155-161 | membership in the terminators |
| JsonParsing.JsonParser.LoadUntilWithSpace | dom-lib/src/dom/json/JsonParser.cpp:119-127 | everything before the first terminator, which is passed |
| JsonParsing.JsonParser.LoadUntilNoSpace | dom-lib/src/dom/json/JsonParser.cpp:132-150 | one run of characters, spaces allowed only around it, up to a terminator |
| JsonParsing.JsonParser.LoadString | dom-lib/src/dom/json/JsonParser.cpp:109-114 | the text between two quotes |
| JsonParsing.JsonParser.LoadValue | dom-lib/src/dom/json/JsonParser.cpp:77-104 | the value and the cursor are those of the parser over the rest, with the same exception otherwise |
| JsonParsing.JsonParser.LoadArray | dom-lib/src/dom/json/JsonParser.cpp:53-66 | the same for the elements of an array; the loop terminates and push-back stays in bounds |
| JsonParsing.JsonParser.LoadNext | dom-lib/src/dom/json/JsonParser.cpp:25-48 | the same for name and value pairs, the last value of a repeated name winning |
| JsonParsing.JsonParser.Parse | dom-lib/src/dom/json/JsonParser.cpp:15-20 | halts on every text, with the tree or the exception of the parser over the whole text and the cursor in bounds |
| JsonGrammar.AcceptedIff | dom-lib/src/dom/json/JsonParser.cpp:15-150 | a text is parsed to a tree if and only if it spells an object of the grammar, blanks only before tokens and anything behind it, whose pairs assigned one after the other give the tree |
| JsonGrammar.ReadSyntax | dom-lib/src/dom/json/JsonParser.cpp:77-104 | every value of the grammar is read from its tokens, whatever blanks stand before them |
| JsonGrammar.ValueSpelled | dom-lib/src/dom/json/JsonParser.cpp:77-104 | and whatever is read as a value spells one |
| JsonGrammar.PlainSpelled | dom-lib/src/dom/json/JsonParser.cpp:132-150 | a plain value is one run of characters without a blank or a terminator in it |
| JsonErrors.ErrorsIff | dom-lib/src/dom/json/JsonParser.cpp:15-191 | a text that is not accepted ends in the range exception exactly if some longer text is accepted, and in the parse exception exactly if none is |
| JsonErrors.DocumentMore | dom-lib/src/dom/json/JsonParser.cpp:15-150 | unless the end of the text was met, more text changes neither the tree nor the exception |
| JsonErrors.DocumentCompletes | dom-lib/src/dom/json/JsonParser.cpp:15-150 | where the end was met, some more text completes the document |
| JsonRoundTrip.ReadValue | dom-lib/src/dom/json/JsonParser.cpp:77-104 | a well-formed value is read back from its tokens, whatever spaces stand before them |
| JsonRoundTrip.ReadRoot | dom-lib/src/dom/json/JsonParser.cpp:15-20 | any text that spells the tokens of a root parses to it |
| JsonRoundTrip.TextIs | dom-lib/src/dom/json/JsonConverter.cpp:43-73 | the tokens of a well-formed tree are those of a value of the grammar that stands for the tree |
| JsonRoundTrip.NodeIsWellFormed | dom-lib/src/dom/json/JsonParser.cpp:25-150 | what a value of the grammar stands for is well-formed |
| JsonRoundTrip.RoundTrip | dom-lib/src/dom/json/JsonConverter.cpp:43-81 | printing a well-formed root, with any spaces before its tokens and any text behind it, and parsing gives the root back |
| JsonRoundTrip.PrintedIsRead | dom-lib/src/dom/json/JsonConverter.cpp:43-81 | in particular the printed text itself |
| JsonRoundTrip.ParsedIsRoot | dom-lib/src/dom/json/JsonParser.cpp:25-150 | every tree the parser returns is a well-formed root |
| JsonRoundTrip.ReadPrintRead | dom-lib/src/dom/json/JsonConverter.cpp:43-81 | for every accepted text, parsing what is printed from its tree gives the tree again |
| JsonRoundTrip.SurvivesIff | dom-lib/src/dom/json/JsonConverter.cpp:43-81 | printing and parsing gives a tree back if and only if it is a well-formed root |
| JsonRoundTrip.NoEmptyArrays | dom-lib/src/dom/json/JsonConverter.cpp:22-38 | a well-formed tree prints no empty array, so its size is exact |
| Decimals.DecimalRoundTrip | dom-lib/src/dom/DomNode.cpp:81-83 | reading a printed integer gives it back, negative ones included, and its text is a plain JSON value |
| Decimals.AtoiPositional | dom-lib/src/dom/DomNode.cpp:81-83 | a digit reads as its value, and each further digit adds its value to ten times what stands before it |
| Decimals.AtoiReads | dom-lib/src/dom/DomNode.cpp:81-83 | blanks before the number and whatever follows its digits do not count; a minus negates, a plus does not |
| Decimals.AtoiZero | dom-lib/src/dom/DomNode.cpp:81-83 | without a digit where the number should begin it is zero |
| Decimals.DecimalCanonical | dom-lib/include/dom/DomNode.h:36-40 | an integer is printed in digits, with a minus if it is negative and no zero in front |
| Decimals.DecimalOfAtoi | dom-lib/include/dom/DomNode.h:36-40 | every such text is the print of the integer it reads as |
| JsonMessages.PrintIsCString | dom-lib/src/dom/json/JsonConverter.cpp:43-73 | a tree without NUL prints without NUL |
| JsonMessages.MessageTreeIs | comms-lib/include/comms/network/serializer/dom/BaseSerializer.h:27-34 | the four assignments make an object with data, instance, message and type in this order |
| JsonMessages.TreeRoundTrip | comms-lib/src/comms/network/serializer/dom/BaseSerializer.cpp:7-12 | parsing the text recovers type string, both halves of the address, and the data |
| JsonMessages.CStringOfRaw | comms-lib/src/comms/network/serializer/dom/BaseSerializer.cpp:8 | the string before the first NUL of the buffer is the one that was written exactly if that holds no NUL itself |
| JsonMessages.CStringIs | comms-lib/src/comms/network/serializer/dom/BaseSerializer.cpp:8 | a buffer is read up to its first NUL, byte by byte |
| JsonMessages.MessageRoundTrip | comms-lib/include/comms/network/serializer/dom/BaseSerializer.h:27-54 | all four parts survive the NUL-terminated buffer, whatever is behind the NUL |
| JsonMessages.PartsReadAlone | comms-lib/src/comms/network/serializer/dom/BaseSerializer.cpp:9-11 | each part is read from its own child: a missing address half reads as zero, a missing type string as empty, missing data is an exception, whichever others are there |
| JsonMessages.Serializer.constructor | comms-lib/include/comms/network/serializer/dom/BaseSerializer.h:27-34 | the text is the print of the message tree |
| JsonMessages.Serializer.GetSize | comms-lib/include/comms/network/serializer/dom/BaseSerializer.h:41-43 | one byte more than the text |
| JsonMessages.Serializer.Serialize | comms-lib/include/comms/network/serializer/dom/BaseSerializer.h:52-54 | the text and a NUL are appended, or the overflow exception leaves a first part at most |
| JsonMessages.Deserialize | comms-lib/src/comms/network/serializer/dom/BaseSerializer.cpp:7-12 | the message is read from the text before the first NUL |
| JsonMessages.SendAndReceive | comms-lib/include/comms/network/serializer/dom/BaseSerializer.h:27-94 | serialized to a buffer of its size and deserialized, a message is the same in all parts |
| BinaryTypes.Trichotomy | comms-lib/include/comms/network/serializer/binary/SerializationFuncs.h:278 | the order of map keys of any type is total and antisymmetric |
| BinaryTypes.Transitive | comms-lib/include/comms/network/serializer/binary/SerializationFuncs.h:278 | and transitive |
| BinaryTypes.LessBytesIff | comms-lib/include/comms/network/serializer/binary/SerializationFuncs.h:278 | strings compare by the bytes where they first differ; what begins the other is the smaller |
| BinaryTypes.LessAllIff | comms-lib/include/comms/network/serializer/binary/SerializationFuncs.h:278 | the same for arrays and their elements |
| BinaryTypes.LessEntriesIff | comms-lib/include/comms/network/serializer/binary/SerializationFuncs.h:278 | the same for maps and their entries |
| BinaryTypes.PutKeepsOrder | comms-lib/include/comms/network/serializer/binary/SerializationFuncs.h:278 | assigning to a key keeps the map ordered |
| BinaryTypes.PutKeepsOthers | comms-lib/include/comms/network/serializer/binary/SerializationFuncs.h:278 | and keeps the entries of the other keys |
| BinaryFormat.IntRoundTrip | comms-lib/include/comms/network/Buffer.h:140-148 | two's complement of any width gives every integer in range back |
| BinaryFormat.IntCanonical | comms-lib/include/comms/network/Buffer.h:223-231 | every byte string of the width is the form of exactly one integer in range |
| BinaryLayout.IntLayout | comms-lib/include/comms/network/Buffer.h:140-148 | byte i of an integer is its i-th digit to the base 256, the lowest first; a negative one counts from the top of the range |
| BinaryLayout.IntBytes | comms-lib/include/comms/network/Buffer.h:140-148 | the four bytes of an int, spelled out |
| BinaryLayout.SignBit | comms-lib/include/comms/network/Buffer.h:223-231 | a signed integer read is negative exactly if the highest bit of its last byte is set |
| BinaryLayout.RangesAre | comms-lib/include/comms/network/Buffer.h:140-148 | the integers of one, two, four and eight bytes are those of the C++ types |
| BinaryLayout.TextLayout | comms-lib/src/comms/network/serializer/binary/SerializationFuncs.cpp:27-32 | a string is eight bytes of length, the lowest first, and its characters |
| BinaryLayout.CollectionLayout | comms-lib/include/comms/network/serializer/binary/SerializationFuncs.h:143-185 | a fixed array is its elements; a dynamic array or a map has eight bytes of count before them |
| BinaryLayout.ElementAt | comms-lib/include/comms/network/serializer/binary/SerializationFuncs.h:143-164 | elements stand one behind the other, in order |
| BinaryLayout.EntryAt | comms-lib/include/comms/network/serializer/binary/SerializationFuncs.h:178-185 | so do entries, each with its key before its value |
| BinaryFormat.RoundTrip | comms-lib/include/comms/network/serializer/binary/SerializationFuncs.h:113-281 | decoding an encoded value followed by any bytes gives the value and leaves exactly those bytes, for every nesting of types |
| BinaryFormat.DecodeIff | comms-lib/include/comms/network/serializer/binary/SerializationFuncs.h:196-281 | exactly the bytes that begin with an encoding are decoded; the entries of a map may come in any order and repeat keys, and are assigned one after the other; all other bytes are too short |
| BinaryFormat.SettledIs | comms-lib/include/comms/network/serializer/binary/SerializationFuncs.h:271-281 | a value whose maps are in order is unchanged by those assignments |
| BinaryFormat.MoreBytes | comms-lib/include/comms/network/serializer/binary/SerializationFuncs.h:196-281 | bytes behind those that are read make no difference |
| BinaryFormat.PrefixRejected | comms-lib/include/comms/network/Buffer.h:223-231 | every strict prefix of an encoded value ends in the overflow exception |
| BinaryFormat.PrefixFree | comms-lib/include/comms/network/serializer/binary/SerializationFuncs.h:113-185 | no value's bytes are another's or begin another's |
| BinaryFormat.DecodedHasType | comms-lib/include/comms/network/serializer/binary/SerializationFuncs.h:196-281 | whatever the bytes, what is decoded is a value of the type, maps ordered, integers in range |
| Buffers.OutputBuffer.Append | comms-lib/include/comms/network/Buffer.h:107-111 | all of the data is appended or none; index and data size stay equal and within the total size, also after a failure |
| Buffers.OutputBuffer.AppendToBuffer | comms-lib/include/comms/network/Buffer.h:140-148 | fails exactly if the data does not fit, and then changes nothing |
| Buffers.InputBuffer.NextValue | comms-lib/include/comms/network/Buffer.h:223-231 | the next bytes, or the overflow exception with the cursor where it was |
| BinarySerializer.SizeOf | comms-lib/include/comms/network/serializer/binary/Serializer.h:17-206 | the size is the number of bytes the value is written as |
| BinarySerializer.SizeOfArray | comms-lib/include/comms/network/serializer/binary/SerializationFuncs.h:58-65 | the same for a fixed array |
| BinarySerializer.SizeOfDynamicArray | comms-lib/include/comms/network/serializer/binary/SerializationFuncs.h:76-83 | the same for a dynamic array, its length field included |
| BinarySerializer.SizeOfMap | comms-lib/include/comms/network/serializer/binary/SerializationFuncs.h:96-103 | the same for a map |
| BinarySerializer.Serialize | comms-lib/include/comms/network/serializer/binary/Serializer.h:17-206 | the encoding is appended exactly if it fits; otherwise a first part of it is and the overflow exception is thrown |
| BinarySerializer.SerializeString | comms-lib/src/comms/network/serializer/binary/SerializationFuncs.cpp:27-32 | the same for length and characters |
| BinarySerializer.SerializeArray | comms-lib/include/comms/network/serializer/binary/SerializationFuncs.h:143-147 | the same for a fixed array |
| BinarySerializer.SerializeDynamicArray | comms-lib/include/comms/network/serializer/binary/SerializationFuncs.h:159-164 | the same for a dynamic array |
| BinarySerializer.SerializeMap | comms-lib/include/comms/network/serializer/binary/SerializationFuncs.h:178-185 | the same for a map |
| BinarySerializer.Deserialize | comms-lib/include/comms/network/serializer/binary/Serializer.h:17-206 | the value and the cursor are those of decoding what is left |
| BinarySerializer.DeserializeString | comms-lib/src/comms/network/serializer/binary/SerializationFuncs.cpp:37-46 | the same for a string |
| BinarySerializer.DeserializeArray | comms-lib/include/comms/network/serializer/binary/SerializationFuncs.h:228-256 | the same for a number of elements, fixed or read before |
| BinarySerializer.DeserializeMap | comms-lib/include/comms/network/serializer/binary/SerializationFuncs.h:271-281 | the same for a number of entries, the last value of a repeated key winning |
| MessageFactories.PacketRoundTrip | comms-lib/include/comms/message/MessageFactory.h:114-145 | a whole packet with any bytes behind it is read back: type string, recipient type, instance, data |
| MessageFactories.PacketPrefixRejected | comms-lib/include/comms/message/MessageFactory.h:133-145 | a packet cut short anywhere ends in the overflow exception |
| MessageFactories.HeaderRoundTrip | comms-lib/src/comms/network/serializer/binary/Serializer.cpp:8-12 | the header is read in the order it was written |
| MessageFactories.HeaderIff | comms-lib/src/comms/network/serializer/binary/Serializer.cpp:8-12 | exactly the bytes that begin with a header are read as one |
| BinaryLayout.PacketLayout | comms-lib/include/comms/network/serializer/binary/Serializer.h:243-248 | a packet by position: eight bytes of length, the type string, four bytes of recipient type, four of recipient instance, the data |
| MessageFactories.GetSize | comms-lib/include/comms/network/serializer/binary/Serializer.h:232-234 | the size of a packet is the number of bytes it is written as |
| MessageFactories.SerializePacket | comms-lib/include/comms/network/serializer/binary/Serializer.h:243-248 | header and data are appended exactly if they fit |
| MessageFactories.DeserializeHeader | comms-lib/src/comms/network/serializer/binary/Serializer.cpp:8-12 | the header and the cursor are those of decoding what is left |
| MessageFactories.MessageFactory.RegisterMessage | comms-lib/include/comms/message/MessageFactory.h:71-78 | a type registered already is refused and nothing changes; both maps stay in step |
| MessageFactories.MessageFactory.CreateMessage | comms-lib/include/comms/message/MessageFactory.h:99-106 | a message of the registered type, or the exception |
| MessageFactories.MessageFactory.SerializeMessage | comms-lib/include/comms/message/MessageFactory.h:114-125 | succeeds exactly if the packet is no larger than the configured size, and then fills its buffer completely; unregistered and mismatched messages are refused |
| MessageFactories.MessageFactory.DeserializeMessage | comms-lib/include/comms/message/MessageFactory.h:133-145 | the packet of decoding what is left; the overflow exception if there is no whole header, then the one for an unregistered type, then the one for a mismatched serializer |
| MessageFactories.SendAndReceive | comms-lib/include/comms/message/MessageFactory.h:114-145 | what one factory serializes, a factory with the same registration deserializes to the same packet, exactly if it fits |
| ServerHistory.MembersAre | comms-lib/src/comms/network/server/ServerBus.cpp:16-23 | the members called for are the connected local ones and the clients that responded, each with its first address |
| ServerHistory.JoinedIs | comms-lib/include/comms/network/handshake/ProtocolHandshake.h:60-106 | a socket's address is the one in the first response that arrives on it |
| ServerHistory.Delivered | comms-lib/src/comms/network/server/NetworkBusConnection.cpp:54-75 | a member is handed a packet at most once, only if it is meant for it, and then surely unless two members share the instance asked for |
| Servers.Server.HandleConnection | comms-lib/include/comms/network/handshake/ProtocolHandshake.h:46-53 | the socket is listened to by its handshake and has been sent Init; a terminator is pending |
| Servers.RemovedIs | comms-lib/src/comms/network/socket/TcpSocketDataHandler.cpp:49 | removing a listener leaves none of it and all others |
| Servers.Server.ProcessMessage | comms-lib/src/comms/network/socket/TcpSocketDataHandler.cpp:68-72 | the message goes to the one listener the socket has, and the state is what the longer history calls for |
| Servers.Server.HandshakeMessageReceived | comms-lib/include/comms/network/handshake/ProtocolHandshake.h:60-69 | only the response ends the handshake, any other message changes nothing |
| Servers.Server.ProcessHandshakeResponse | comms-lib/include/comms/network/handshake/ProtocolHandshake.h:97-106 | the connection takes over as listener, Complete is sent, the client is on the bus once more, the terminator is gone |
| Servers.Server.HandshakeComplete | comms-lib/src/comms/network/socket/ServerConnectionHandler.cpp:46-50 | however often the bus server is told, the client is put on the bus once |
| Servers.Server.ClientConnected | comms-lib/src/comms/network/server/ServerBus.cpp:16-23 | a connection already on the bus is not put there again |
| Servers.Server.constructor | comms-lib/src/comms/network/server/ServerBus.cpp:10-11 | a server can be put on a bus that local connections use already |
| Servers.Server.Connect | comms-lib/src/comms/connection/LocalConnection.cpp:47-56 | a local connection of the server's bus is on it once, however often it connects, and sockets are sent nothing |
| Servers.Server.Disconnect | comms-lib/src/comms/connection/LocalConnection.cpp:61-70 | and not at all after it disconnects |
| Servers.Server.SendFromLocal | comms-lib/src/comms/connection/LocalConnection.cpp:80-89 | a packet from a connected local member is sent to the sockets it is routed to; one that is not connected sends nothing |
| Servers.Server.ConnectionMessageReceived | comms-lib/src/comms/network/server/NetworkBusConnection.cpp:54-75 | a member's message is sent to exactly those it is routed to, and the state is what the longer history calls for |
| Servers.Server.SendPackets | comms-lib/include/comms/network/server/BasicServerConnection.h:140-143 | the socket of each recipient that has one is sent the packet once, no other socket anything |
| Servers.Server.HandleEvent | comms-lib/src/comms/network/handshake/HandshakeHandler.cpp:13-42 | one event keeps the state what the history calls for |
| Servers.Outcome | comms-lib/include/comms/network/handshake/ProtocolHandshake.h:46-106 | a socket is sent Init, then Complete, then traffic only; it is on the bus once, with its first address, exactly from its first response on |
| Servers.Run | comms-lib/src/comms/network/server/ServerBus.cpp:16-23 | for every history of any number of sockets and local connections the server ends in the state it calls for; each member is sent, in order, packets meant for it, and all of them if no broadcast to one instance was ambiguous |

## Left out

- Contexts.Context.Assemble: the cycle checker iterates its map in any order, where `std::map` goes by key, so which of several cycles is reported is open.
- Contexts.Context.Assemble: automatic bean registration, bean providers and creators, and the creation of beans on demand with its name stack are not modelled; loading registers the declared beans.
- Assembly.AssembledIff: asks for distinct configuration names and bean names; the checker's maps overwrite earlier entries otherwise. An empty or taken bean name is modelled as the exception it is.
- PoolProgress.WorkIsTaken: bounds the steps and shows that one is always possible; the functions that run are taken to return.
- PoolShutdown.StopReturnsUnlessMissed: bounds the steps and shows that one is always possible; that the threads are given their turns is left to the operating system.
- ThreadPool.StepKeepsInv: functions are opaque and do not throw; `isStarted` and the destructor only add a read and a call of stop.
- Buses.LocalConnection.SendPacket: listeners are not called back, so code that sends from inside a delivery is modelled only for bridges.
- Forwarding.Send: the network does not change during a send, processors do not re-send, and every message type is registered with every connection. A bus is asked for its recipients first, and they are served afterwards.
- JsonParsing.JsonParser.Parse: the position in an exception and the wording of its message; `isspace` is that of the C locale.
- JsonPrinting.Size: `size_t` does not wrap, since the text it measures fits memory.
- Decimals.DecimalRoundTrip: integers are unbounded, so the overflow of `atoi` beyond the range of int is not modelled.
- JsonMessages.Deserialize: asks for a NUL in the buffer; without one the program reads past the end.
- DomNodes.PutThenLookup: conversions to and from floating point, characters, booleans and unsigned numbers are not modelled.
- BinarySerializer.Serialize: pointers, floating point and user-defined serializers; a scalar is its bytes, and the byte order of the host is the usual one, lowest byte first. The index of a buffer does not wrap.
- BinarySerializer.DeserializeArray: running out of memory for a huge length field before its elements are read; the vector grows by appending instead of being filled in place.
- MessageFactories.MessageFactory.SerializeMessage: a message object is its type string, its data type and its data; who owns and deletes it is not modelled.
- Servers.Server.HandleEvent: one received message is one step and sends succeed; taking a client off the bus is not claimed, since the disconnect of a server connection always returns false.
- Servers.Server.SendPackets: what local members of the bus are handed is not recorded here; `BusHistory.SendAfterHistory` states it for the bus.
- Servers.Server.HandshakeComplete: deleting the handshake while it is still running, and the listener list being changed while it is iterated, are modelled as the list having its end fixed at the start.
- Sockets, threads of the operating system, signals, the client side of the handshake, node and server wiring, and the local protocol are not part of this model.
