# Topwrap: verified models of its translation algorithms

Topwrap turns hardware designs between YAML, SystemVerilog, KPM dataflow graphs and an internal
representation. This project models the algorithms that do the translating and proves what they
are for: a generated netlist means the same as the connections it came from, a search returns
exactly what is reachable, a printed form reads back as what was printed.

`dafny verify dfyconfig.toml` checks everything. One module per part of the program:

| module | part of the program |
|---|---|
| `SvNetlist`, `SvLowering`, `SvLoweredForm`, `SvCompaction`, `SvSerialization`, `SvDesignData` | the SystemVerilog backend: port and constant connections lowered to port maps, nets and assigns; compaction of passthrough nets; default values |
| `SourceResolver`, `AnswerCases`, `AnswerSources`, `AcyclicAnswers` | the memoised driver search of the SystemVerilog frontend, with its cycle cut-off; the answer of a signal case by case; which sources it returns; its answers where no cycle can be reached |
| `ConcatRuns`, `PackedSelects`, `LogicOperands`, `BlackboxIndex` | concatenation runs, packed select arithmetic, operand merging and the blackbox port index of the same frontend |
| `ParameterWorklist`, `BitVectors` | parameter evaluation in dependency order; string-based concatenation |
| `PortSelectors`, `TreeSerdes`, `FileReferences` | parsers and printers |
| `KpmDataflows`, `KpmTranslation`, `KpmInference` | connections to dataflow edges and back; type inference for external ports |
| `Hierarchy`, `DomainLowering` | breadth-first hierarchy; clock and reset domains |
| `Wrappers`, `Sequences`, `Reachability` | options and results; first occurrences; paths of a graph |

Code that updates objects or loops over collections is a class or a method with loop invariants,
proved against a function; what the program promises is then proved about the function.

## Main results

* **Lowering preserves meaning.** Values are an arbitrary set with an involutive inversion and
  uninterpreted slices. For connections that each join a driver and a sink, with one driver for
  each part of each sink, pin values satisfy the connections if and only if they extend to the
  generated nets so that all port maps and assigns hold; the extension is unique, and the order
  of the sinks does not matter.
* **The form of the netlist** follows from the connections: nets are declared for exactly the inputs
  driven in part and the external outputs driven inverted, and it is known which ports are mapped,
  what may be assigned, and which inputs share a mapping.
* **Compaction** removes exactly the passthrough assigns with their nets, is one simultaneous renaming
  whatever is collapsed first, and preserves the possible pin values of any netlist whose
  collapsed nets are mentioned only by name.
* **The driver search** evaluates each key once and never rewrites a cache entry. On any graph,
  cyclic or not, and from any cache it misses no source that is sure to be met before a cached key
  or is held by the first cached key met, and returns none but those that can be met so; the two
  coincide where each signal by itself decides whether its fallback matters. A key from which no
  cycle can be reached has the plain recursion's answer, whatever was asked before.
* **Parameter evaluation** reaches the least environment closed under evaluation, and reports
  exactly the parameters that fail in it, so it is the same for every permutation of the input.
* **Round trips**: port selectors, nested trees, saved file references, and the connections and
  external ports of a flat design through a KPM dataflow.

## Properties that hold only under a condition

Each is false of the code in general and is proved with the exact condition under which it holds.

* Parsing a port selector gives a well-formed one if and only if every bracket is closed at the end
  of its part: `a[1]x` is read as the field `[1]x`, which prints to a text that does not parse.
* The arithmetic meaning of CONCAT holds if and only if the left value is zero or the right value
  fits a width of at least one bit; a value of width zero is still padded to the digit `0`.
* The select emitted for a run of concatenation operands lists the bits of its spans if and only if
  the first span does not go against the step of the run, which `add` never tests:
  `{a[1:3], a[2]}` becomes `a[1:2]`.
* A compacted netlist refers only to nets it declares if and only if the collapsed nets were
  mentioned only by name. In what lowering produces they never are: for well-formed connections
  compaction either has nothing to collapse and changes nothing, or it removes a net that is still
  referred to. It has nothing to collapse if every sink is driven either whole or in parts; an
  output driven whole and in parts, with a part inverted, is an example where pin values become
  possible that the connections forbid. Where the part repeats what the whole says, the net is lost
  but the pins keep their possible values.
* Where instance names have no dots and are not `top`, different sources are routed to different
  blackbox inputs if and only if no two instances of one name and no two selects have a port of the
  same name among them. Elsewhere an instance `u.v` with port `a` and an instance `u` with port `v.a`
  share an input.
* A key that is asked after others has the sources it would have had if asked first if and only if
  each of them is met before a cached key or is held by the first cached key met. With dependency
  cycles this can fail; the answer never has any other source. This is exact where it is decided
  for each signal by itself whether its fallback matters, and bounded from both sides elsewhere.
* A flattened tree is rebuilt as it was if and only if it has no empty dictionary and no None leaf.
* The text of a file reference reads back if and only if the path has no line break.

## Model

| member | source | states |
|---|---|---|
| SvLowering.LoweringPreservesMeaning | topwrap/backend/sv/design.py:270-463 | pin and net values satisfy the lowered netlist iff all connections hold and every generated net carries its sink's value |
| SvLowering.LoweringExtendsUniquely | topwrap/backend/sv/design.py:270-463 | pin values satisfy the connections iff they extend to the generated nets, and two extensions agree on every generated net |
| SvLowering.StoredMeaning | topwrap/backend/sv/design.py:270-276 | the netlist means that every stored partial connection holds and every generated net carries its sink's value |
| SvLowering.OrderIrrelevant | topwrap/backend/sv/design.py:270-276 | two stored states that differ only in the order of their sinks declare the same nets and mean the same |
| SvLowering.PrefixDeclares | topwrap/backend/sv/design.py:270-276 | the declared nets are those of the sinks processed so far, each determined by its own partial connections |
| SvLowering.EntryDeclares | topwrap/backend/sv/design.py:421-463 | processing a sink declares its own wire, if it needs one, and keeps all other nets |
| SvLowering.CollectedExactly | topwrap/backend/sv/design.py:96-129 | a partial connection is stored for a sink iff some connection says so, whichever way round it was written |
| SvLowering.CollectMeaning | topwrap/backend/sv/design.py:96-129 | all connections hold iff every sink agrees with everything stored for it |
| SvLowering.PortMapOrAssignMeaning | topwrap/backend/sv/design.py:312-330 | adding a port map or an assign adds exactly one equation, if it replaces no entry |
| SvLowering.SliceMeaning | topwrap/backend/sv/design.py:436-449 | connecting a part adds exactly the equation of that part |
| SvLowering.ConnectSlicesMeaning | topwrap/backend/sv/design.py:451-463 | connecting all parts of a sink adds exactly their equations and overwrites nothing |
| SvLowering.WireForPartialPortMeaning | topwrap/backend/sv/design.py:421-434 | the wire for the parts of a sink is tied to the sink, and to nothing else |
| SvLowering.DirectMeaning | topwrap/backend/sv/design.py:350-419 | an unsliced connection of an instance input or an external output adds exactly its equation, also when it reuses what the driver is already mapped to |
| SvLowering.EntryMeaning | topwrap/backend/sv/design.py:451-463 | processing a sink adds exactly the meaning of its partial connections, and new nets carry the sink's value |
| SvLowering.PrefixMeaning | topwrap/backend/sv/design.py:270-276 | after any number of sinks the netlist means exactly those sinks, and has touched no other |
| SvLoweredForm.NetsAre | topwrap/backend/sv/design.py:395-434 | of well-formed connections: a net is declared for exactly the instance inputs driven in part and the external outputs driven inverted |
| SvLoweredForm.MappedPortsAre | topwrap/backend/sv/design.py:312-463 | the mapped ports are exactly the instance ports that a connection drives, and those that drive, whole, an external port or an input that is driven in parts |
| SvLoweredForm.DirectInputsAre | topwrap/backend/sv/design.py:359-378 | in the final netlist an input driven only by a whole instance output shares the text that the output is mapped to, if a sink before it had it mapped, and else names the output; inverted iff the connection is |
| SvLoweredForm.AssignedPartsAre | topwrap/backend/sv/design.py:312-463 | only external outputs and declared nets are assigned, and of them only parts that a connection drives or, for an output with an inverted driver, the whole |
| SvLoweredForm.DirectIff | topwrap/backend/sv/design.py:395-419 | a well-driven sink is connected without a wire iff it is driven only whole and, if external, not inverted |
| SvLoweredForm.FinallyMapped | topwrap/backend/sv/design.py:270-276 | a port that is mapped keeps its mapping however many sinks follow |
| SvLoweredForm.RenderedPortsAre | topwrap/backend/sv/design.py:535-555 | what the rendered module has for a port: the default for an input no connection drives, and else what compaction left; nets and assigns are as compaction left them |
| SvCompaction.CompactedIsNormal | topwrap/backend/sv/design.py:465-506 | nothing can be collapsed any more after compaction |
| SvCompaction.PassthroughIff | topwrap/backend/sv/design.py:478-497 | the test accepts an assign iff it gives a top port the name of a declared net that is in no other assign by name, on either side, and that some port is mapped to |
| SvCompaction.CollapsedNetIff | topwrap/backend/sv/design.py:484-502 | a net is collapsed iff there is such an assign for it |
| SvCompaction.CompactedNets | topwrap/backend/sv/design.py:499-502 | exactly the nets without such an assign stay declared |
| SvCompaction.CompactedAssigns | topwrap/backend/sv/design.py:499-502 | exactly such assigns are gone |
| SvCompaction.CompactedPortMaps | topwrap/backend/sv/design.py:488-498 | ports mapped to such a net are mapped to the top port instead; no other port map changes |
| SvCompaction.NoPassthroughLeft | topwrap/backend/sv/design.py:465-506 | no such assign is left after compaction |
| SvCompaction.CollapsibleAfter | topwrap/backend/sv/design.py:478-506 | collapsing some nets makes no other net collapsible or uncollapsible |
| SvCompaction.CollapseOneMore | topwrap/backend/sv/design.py:488-502 | collapsing one net after others is the same simultaneous renaming as collapsing them together |
| SvCompaction.CollapsedUnmentioned | topwrap/backend/sv/design.py:484-502 | a collapsed net is mentioned nowhere afterwards iff it was mentioned only by name |
| SvCompaction.CompactedClosedIff | topwrap/backend/sv/design.py:484-502 | a compacted netlist refers only to its own nets iff the collapsed ones were mentioned only by name |
| SvCompaction.CompactionKeeps | topwrap/backend/sv/design.py:465-506 | whatever satisfies a netlist satisfies it compacted |
| SvCompaction.CompactionReflects | topwrap/backend/sv/design.py:465-506 | if collapsed nets are mentioned only by name, whatever satisfies the compacted netlist satisfies the original, with the collapsed nets given their ports' values |
| SvCompaction.CompactionPreservesPins | topwrap/backend/sv/design.py:465-506 | if collapsed nets are mentioned only by name, a netlist and its compaction allow the same pin values |
| SvSerialization.LoweredIsClosed | topwrap/backend/sv/design.py:270-463 | every net that a lowered netlist refers to is declared |
| SvSerialization.NothingToCompact | topwrap/backend/sv/design.py:465-506 | with sinks driven whole or in parts, compaction leaves the lowered netlist as it is |
| SvSerialization.CollapsedIsPartlyMentioned | topwrap/backend/sv/design.py:421-506 | whenever compaction collapses a net of a lowered netlist, something still refers to a part or the inversion of that net |
| SvSerialization.CompactionSafeIff | topwrap/backend/sv/design.py:465-506 | after lowering well-formed connections, compaction leaves only declared nets iff it had nothing to collapse, that is iff it changed nothing |
| SvSerialization.CompactionCanLoseAConnection | topwrap/backend/sv/design.py:484-502 | an output driven whole and in inverted parts: a slice of a net that is no longer declared remains, and pin values that break a connection satisfy the compacted netlist |
| SvSerialization.CollapseCanBeHarmless | topwrap/backend/sv/design.py:484-502 | an input driven whole and redundantly in part: the net is lost, and the possible pin values are the same in every value domain |
| SvSerialization.SecondDriverReplacesFirst | topwrap/backend/sv/design.py:328-330 | of two constants for the same external output only the second is assigned |
| SvSerialization.UsedExactly | topwrap/backend/sv/design.py:96-111 | a port counts as used iff it is an instance's and some connection drives it |
| SvSerialization.DefaultsMeaning | topwrap/backend/sv/design.py:546-555 | filling in defaults adds exactly the equations of unconnected inputs with a default |
| SvSerialization.LoweredSparesDefaults | topwrap/backend/sv/design.py:546-555 | no default replaces a port map that came from a connection |
| SvSerialization.SerializationPreservesMeaning | topwrap/backend/sv/design.py:535-555 | if there is nothing to collapse, the rendered netlist means: all connections hold, unconnected inputs have their defaults, nets follow their sinks |
| SvSerialization.SerializedClosedIff | topwrap/backend/sv/design.py:535-555 | the rendered netlist refers only to declared nets iff compaction had nothing to collapse |
| SvDesignData.DesignData.Store | topwrap/backend/sv/design.py:96-111 | appends the partial connection for its port and marks instance ports used |
| SvDesignData.DesignData.HandlePortCon | topwrap/backend/sv/design.py:121-129 | stores the connection on its sink's side, as specified for one connection |
| SvDesignData.DesignData.Parse | topwrap/backend/sv/design.py:113-119 | the stored state after any port or constant connection |
| SvDesignData.DesignData.Connect | topwrap/backend/sv/design.py:312-330 | one port map, if the port is a whole instance port not mapped yet, else one assign |
| SvDesignData.DesignData.ConnectInternal | topwrap/backend/sv/design.py:359-378 | the netlist after connecting an instance input whole |
| SvDesignData.DesignData.ConnectExternal | topwrap/backend/sv/design.py:380-393 | the netlist after connecting an external port whole |
| SvDesignData.DesignData.TryDirect | topwrap/backend/sv/design.py:395-419 | applies to a single whole connection (inverted only into an input), and is refused without effect otherwise |
| SvDesignData.DesignData.MakeWire | topwrap/backend/sv/design.py:421-434 | which wire collects the parts, and how it is declared and tied to the port |
| SvDesignData.DesignData.ConnectSlice | topwrap/backend/sv/design.py:436-449 | the netlist after connecting one part |
| SvDesignData.DesignData.EmitEntry | topwrap/backend/sv/design.py:451-463 | the loop over a sink's deduplicated parts gives the specified netlist |
| SvDesignData.DesignData.EmitAll | topwrap/backend/sv/design.py:270-276 | the loop over all sinks gives the specified netlist |
| SvDesignData.DesignData.IsPassthrough | topwrap/backend/sv/design.py:479-497 | accepts an assign iff it gives a top port the name of a declared net that is in no other assign by name and that some port is mapped to |
| SvDesignData.DesignData.Redirect | topwrap/backend/sv/design.py:490-500 | exactly the port maps that are the net itself are redirected |
| SvDesignData.DesignData.CollapseAssign | topwrap/backend/sv/design.py:499-502 | one assign and its net are removed, the net's port maps redirected |
| SvDesignData.DesignData.CompactPassthroughNets | topwrap/backend/sv/design.py:477-506 | the restarting loop terminates with the simultaneous compaction, whatever order assigns are visited in |
| SvDesignData.DesignData.FillDefaultValues | topwrap/backend/sv/design.py:546-555 | exactly unconnected instance inputs with a default are mapped to it |
| SvDesignData.SerializeDesign | topwrap/backend/sv/design.py:535-555 | the whole sequence on a fresh state gives the specified netlist |
| Sequences.Deduplicate | topwrap/backend/sv/design.py:332-348 | keeps the first occurrences in order, with a growing set of seen ones |
| Sequences.DedupFacts | topwrap/frontend/sv/module.py:968-983 | deduplication keeps every member and repeats none |
| Sequences.DedupAppends | topwrap/frontend/sv/module.py:968-983 | the order is that of first occurrences: more input only appends |
| AnswerSources.AnswerIff | topwrap/frontend/sv/module.py:2142-2211 | where each signal by itself decides whether its fallback matters: from any cache, the sources of an answer are exactly those met before a cached key or held by the first cached key met |
| AnswerSources.AnswerSound | topwrap/frontend/sv/module.py:2142-2211 | on every graph and from any cache, every source of an answer comes from a key met in that way, through drivers or through a fallback that can be consulted |
| AnswerSources.AnswerComplete | topwrap/frontend/sv/module.py:2142-2211 | on every graph and from any cache, no source is missed that drivers, or the fallback of a signal without drivers, lead to before a cached key, or that the first cached key met holds |
| AnswerSources.SameSourcesIff | topwrap/frontend/sv/module.py:2187-2211 | likewise: from the cache of any earlier queries a key has the sources of a first query iff each is met before a cached key or held by the first one met; it never has others |
| AnswerSources.AskedLaterIff | topwrap/frontend/sv/module.py:2187-2211 | likewise, for every sequence of queries followed by the key |
| AnswerSources.QuerySound | topwrap/frontend/sv/module.py:2187-2211 | every source returned or cached is a leaf reachable from its key, with or without cycles |
| AnswerSources.FirstQueryComplete | topwrap/frontend/sv/module.py:2142-2211 | the first query returns every leaf reachable through drivers and through fallbacks of signals without drivers, with or without cycles |
| AnswerSources.QueryTraced | topwrap/frontend/sv/module.py:2187-2211 | every source returned or cached since any earlier point comes from what was reached, or cached, at that point |
| AnswerSources.QueryFlows | topwrap/frontend/sv/module.py:2168-2211 | what a query adds to the cache is closed under sure dependencies up to the keys in progress, and holds its leaves and those of the cached keys it asked |
| AnswerSources.SessionSound | topwrap/frontend/sv/module.py:2187-2211 | in every sequence of queries every answer consists of leaves reachable from its key |
| AnswerSources.CyclesMakeOrderVisible | topwrap/frontend/sv/module.py:2197-2211 | two signals that drive each other: the answer for one depends on whether the other was asked before |
| AnswerSources.FallbackMayBeUnused | topwrap/frontend/sv/module.py:2154-2178 | a signal whose driver only names another signal: a leaf of its fallback that could be consulted is not in the answer |
| AcyclicAnswers.BodyAgrees | topwrap/frontend/sv/module.py:2168-2185 | evaluating any key from a correct cache gives a key without reachable cycles the plain recursion's answer |
| AcyclicAnswers.QueryAgrees | topwrap/frontend/sv/module.py:2187-2211 | any query from a correct cache keeps it correct, and gives a key without reachable cycles the plain recursion's answer |
| AcyclicAnswers.AcyclicOrderIrrelevant | topwrap/frontend/sv/module.py:2187-2211 | in every sequence of queries, cycles elsewhere or not, a key from which no cycle can be reached gets the plain recursion's answer |
| AcyclicAnswers.LogicIff | topwrap/frontend/sv/module.py:2142-2185 | a signal without reachable cycles that has yielding drivers has their sources, through logic iff two of them yield or the answer of any driver goes through logic |
| AcyclicAnswers.ValueByCase | topwrap/frontend/sv/module.py:2098-2140 | without a yielding driver such a signal has the answer of its first continuous assignment, else literal or named text, else external port, else instance ports, else all procedural assignments through logic, in this order |
| AcyclicAnswers.DriversCounted | topwrap/frontend/sv/module.py:2153-2185 | the counts and flags collected over the drivers say how many yield sources and whether any goes through logic |
| AnswerCases.AnswerByCase | topwrap/frontend/sv/module.py:2098-2185 | on any graph and from any cache: the answer of an unknown signal case by case: yielding drivers, first continuous assignment, literal or named text, external port, instance ports, procedural assignments through logic, nothing with the drivers' logic |
| AnswerCases.KnownAnswer | topwrap/frontend/sv/module.py:2187-2199 | a cached signal has the cached answer and one in progress none, and the cache stays |
| AnswerCases.AnswerIsCached | topwrap/frontend/sv/module.py:2199-2211 | the answer of a signal that was not known is what the cache holds for it afterwards |
| AnswerCases.ItemsByOne | topwrap/frontend/sv/module.py:2098-2140 | one more leaf or signal of an expression appends its sources and adds its logic |
| SourceResolver.Query | topwrap/frontend/sv/module.py:2187-2211 | terminates, keeps every cache entry, caches the key unless it is in progress, and never caches a key in progress |
| SourceResolver.Resolver.Resolve | topwrap/frontend/sv/module.py:2187-2211 | the stateful search equals the functional one, restores the set in progress, keeps cache entries and evaluates no key twice |
| SourceResolver.Resolver.ResolveBody | topwrap/frontend/sv/module.py:2142-2185 | drivers with sources are joined in order, the fallback is consulted only if there are none |
| SourceResolver.Resolver.Evaluate | topwrap/frontend/sv/module.py:2098-2140 | an expression's leaves and answers are joined in order |
| ConcatRuns.AddValid | topwrap/frontend/sv/module.py:208-229 | accepted spans keep a run contiguous with a constant step of one |
| ConcatRuns.MergedIff | topwrap/frontend/sv/module.py:1147-1159 | the merged select lists the bits of the run's spans in order, iff the first span does not go against the step; else it lists fewer |
| ConcatRuns.MergePreservesIff | topwrap/frontend/sv/module.py:1162-1177 | the operands after merging list the same bits as before iff every run is aligned |
| ConcatRuns.StepsKeepBits | topwrap/frontend/sv/module.py:1162-1177 | grouping operands into runs keeps all their bits in order |
| ConcatRuns.GroupsAreGreedy | topwrap/frontend/sv/module.py:1162-1177 | the groups are the operands in order, each one operand that is no select or a chain of selects of one signal that go on in single steps one way, and no chain could have taken in the select that follows it |
| ConcatRuns.AddedGoesOn | topwrap/frontend/sv/module.py:208-229 | an accepted span makes the run such a chain, one span longer |
| ConcatRuns.GoingOnIsAdded | topwrap/frontend/sv/module.py:208-229 | a span with which the run is still such a chain is accepted |
| ConcatRuns.EmittedOperands | topwrap/frontend/sv/module.py:1136-1160 | each group becomes one operand: one that is no select as it is, a chain the select from its first start to its last end |
| ConcatRuns.ReversedFirstSpan | topwrap/frontend/sv/module.py:208-229 | a concatenation for which the merged select is wrong |
| ConcatRuns.ConcatRun.TryAdd | topwrap/frontend/sv/module.py:208-229 | the mutable run follows the specification, also in the step a refused span leaves behind |
| ConcatRuns.ConcatRun.Reset | topwrap/frontend/sv/module.py:203-206 | the run is empty with no step |
| ConcatRuns.FlushRun | topwrap/frontend/sv/module.py:1136-1160 | a non-empty run becomes one operand and is reset |
| ConcatRuns.ConcatOperandSources | topwrap/frontend/sv/module.py:1162-1177 | the loop over the operands gives the specified merged list |
| PackedSelects.PositionsAreBijective | topwrap/frontend/sv/module.py:696-717 | declared indices, ascending or descending, map one to one onto the positions below the width, and no other index maps |
| PackedSelects.TilesPartition | topwrap/frontend/sv/module.py:719-729 | the bit ranges of the indices cover exactly the bits of the array and never overlap |
| PackedSelects.RangeIsUnionOfTiles | topwrap/frontend/sv/module.py:731-749 | a range select exists iff both indices are declared, and covers exactly the ranges of the indices between them |
| PackedSelects.RangeCovers | topwrap/frontend/sv/module.py:742-749 | a bit is in the range iff the index of its tile lies between the two indices |
| PackedSelects.PositionFromRight | topwrap/frontend/sv/module.py:696-717 | the position of a declared index is its distance from the right bound, whichever way the range is declared |
| PackedSelects.PlainSelects | topwrap/frontend/sv/module.py:719-749 | of a type without packed dimensions an index selects its own bit and a range all bits between its ends, in whichever order |
| LogicOperands.MergeKeepsNonLogic | topwrap/frontend/sv/module.py:993-1002 | operands that are not through logic are kept as they are, in order |
| LogicOperands.MergeSeparates | topwrap/frontend/sv/module.py:985-1002 | no two logic operands are adjacent after merging |
| LogicOperands.MergeDeduplicates | topwrap/frontend/sv/module.py:968-991 | merged logic operands have no repeated source |
| LogicOperands.MergeIdempotent | topwrap/frontend/sv/module.py:961-1002 | merging again changes nothing |
| LogicOperands.RunMergesInPlace | topwrap/frontend/sv/module.py:984-1002 | every maximal run of logic operands becomes one operand in its place, with the run's sources in first-occurrence order, and what surrounds it is merged as on its own |
| LogicOperands.ResumeMerges | topwrap/frontend/sv/module.py:993-1002 | continuing with an open run gives one operand with the sources of the whole maximal run in first-occurrence order |
| LogicOperands.MergeBlackboxConcatOperands | topwrap/frontend/sv/module.py:961-1002 | the loop with its open run gives the specified merge |
| BlackboxIndex.Frontend.GetPort | topwrap/frontend/sv/module.py:916-925 | index and port list stay in agreement; a second direction makes a port bidirectional, a new name adds one port |
| BlackboxIndex.Frontend.RouteInput | topwrap/frontend/sv/module.py:951-955 | one connection into the blackbox input named after the source |
| BlackboxIndex.Frontend.RouteThroughBlackbox | topwrap/frontend/sv/module.py:934-959 | the connections appended for port sources, a lone constant or the output; for sources without dots in their instances' names, inputs are shared by equal sources only, iff no two instances of one name and no two selects have an end at a port of the same name |
| BlackboxIndex.PortNamesEqualIff | topwrap/frontend/sv/module.py:909-914 | for names without dots and no instance called `top`, two ends get one blackbox port name iff they are the same port of equally named instances, or equally named ports of selects |
| BlackboxIndex.NamesCollide | topwrap/frontend/sv/module.py:909-914 | different ends with one name: an instance name with a dot, an instance called `top`, equally named ports of two selects |
| BlackboxIndex.RoutedApartIff | topwrap/frontend/sv/module.py:946-955 | for such ends, sharing a blackbox input means being the same end, iff no two instances of one name and no two selects have an end at a port of the same name |
| BlackboxIndex.OneSource | topwrap/frontend/sv/module.py:934-945 | a driven source counts as a port source, a constant one as a constant |
| BlackboxIndex.PortSourcesSplit | topwrap/frontend/sv/module.py:934-945 | driven sources are kept one by one in order |
| BlackboxIndex.Frontend.ConcatStates | topwrap/frontend/sv/module.py:2508-2522 | the two flags of every concatenation, from one pass over the connections |
| BlackboxIndex.StateMeaning | topwrap/frontend/sv/module.py:2508-2525 | the flags say: it has a connection, and none of its connections leaves the blackbox |
| BlackboxIndex.Frontend.StripBlackboxOnlyConcats | topwrap/frontend/sv/module.py:2492-2552 | what remains of connections, components and ports, with index and list in agreement again |
| BlackboxIndex.StripLeaves | topwrap/frontend/sv/module.py:2523-2550 | exactly the connections of no blackbox-only concatenation, the other instances, and the ports still used remain; no connection refers to a pruned port |
| BlackboxIndex.SurvivingInOrder | topwrap/frontend/sv/module.py:2528-2533 | each kept connection follows exactly the kept ones before it |
| BlackboxIndex.SurvivingExactly | topwrap/frontend/sv/module.py:2528-2533 | a connection is kept iff it touches no removed instance |
| BlackboxIndex.UsedExactly | topwrap/frontend/sv/module.py:2535-2549 | a port is used iff a port connection has it at an end |
| BlackboxIndex.RemovedIff | topwrap/frontend/sv/module.py:2508-2525 | a component is removed iff it is a concatenation with a connection, each of which has the blackbox at the other end |
| BlackboxIndex.SurvivesIff | topwrap/frontend/sv/module.py:2528-2533 | a connection is gone iff a removed component has an end of it |
| BlackboxIndex.KeptIff | topwrap/frontend/sv/module.py:2535-2549 | a port stays iff it is an end of a port connection that stays |
| BlackboxIndex.RemainingInOrder | topwrap/frontend/sv/module.py:2528-2534 | each kept component follows exactly the kept ones before it |
| BlackboxIndex.KeptInOrder | topwrap/frontend/sv/module.py:2535-2549 | each kept port follows exactly the kept ones before it |
| BlackboxIndex.StripKeepsAgreement | topwrap/frontend/sv/module.py:2528-2552 | after pruning names stay unique and remaining connections refer only to listed ports of a fitting direction |
| ParameterWorklist.EvaluateParameterList | topwrap/hdl_parsers_utils.py:55-110 | terminates; every parameter ends evaluated, dropped or left over, with values obtained for it and evaluators that returned nothing for the dropped; every left-over one fails in the final environment; with distinct names and a stable evaluator the environment is the least closed one, gives each parameter its immediate value or its expression's value or no name, and exactly the failing parameters are left over |
| ParameterWorklist.PermutationInvariant | topwrap/hdl_parsers_utils.py:69-110 | environment and left-over parameters are the same for every permutation of the input |
| ParameterWorklist.Rotated | topwrap/hdl_parsers_utils.py:93-96 | putting a failing parameter back keeps the account of settled, dropped and failing parameters |
| ParameterWorklist.Evaluated | topwrap/hdl_parsers_utils.py:80-92 | recording a value keeps that account and restarts the failure count |
| ParameterWorklist.Discarded | topwrap/hdl_parsers_utils.py:90-104 | a parameter whose evaluator returns nothing is dropped and stays accounted for |
| ParameterWorklist.EvaluateExtends | topwrap/hdl_parsers_utils.py:97-103 | an arithmetic expression that has a value keeps it when more names are known |
| ParameterWorklist.EvaluateIff | topwrap/hdl_parsers_utils.py:97-103 | an arithmetic expression is evaluated to exactly the value that the relation of its parts gives it, and fails iff there is none |
| ParameterWorklist.ArithmeticIsStable | topwrap/hdl_parsers_utils.py:97-103 | plain arithmetic expressions meet the evaluator hypothesis of the results above |
| ParameterWorklist.EvaluateBothOrders | topwrap/hdl_parsers_utils.py:55-110 | arithmetic parameters with distinct names give the same environment in both orders, the least closed one |
| BitVectors.ConcatValueIff | topwrap/hdl_parsers_utils.py:140-148 | the concatenation is left times 2^width plus right iff the left value is zero or the right one fits |
| BitVectors.ConcatIs | topwrap/hdl_parsers_utils.py:140-148 | of any operands, fitting or not: left times 2^d plus right, where d is the least digit count that is no less than the width and holds the right value |
| BitVectors.ReplConcatIs | topwrap/hdl_parsers_utils.py:150-154 | of any operand: one copy is the operand, and one more copy shifts those before by its digits |
| BitVectors.OverwideOperandExample | topwrap/hdl_parsers_utils.py:140-148 | after a one-bit 1, the literal `2'd5` gives 13 instead of 9 |
| BitVectors.ConcatFits | topwrap/hdl_parsers_utils.py:140-148 | fitting operands give a fitting value of the summed width |
| BitVectors.ConcatAssociative | topwrap/hdl_parsers_utils.py:140-148 | concatenation of fitting values is associative |
| BitVectors.CopiesDenote | topwrap/hdl_parsers_utils.py:150-154 | n-fold concatenation has the value of n repeated digit strings and fits n times the width |
| BitVectors.ReplConcatIsCopies | topwrap/hdl_parsers_utils.py:150-154 | repetition fails iff the count is not positive, and else is n-fold concatenation |
| BitVectors.PaddedDenotes | topwrap/hdl_parsers_utils.py:143-144 | padding a binary text keeps its value |
| BitVectors.DigitsNeeded | topwrap/hdl_parsers_utils.py:143-144 | a value's binary text is within a width iff the width is positive and the value below its power of two |
| PortSelectors.RoundTripIff | topwrap/model/inference/port.py:92-187 | printing and parsing back gives the selector iff it is well-formed |
| PortSelectors.CanonicalIff | topwrap/model/inference/port.py:92-187 | a parsed selector is well-formed, and prints to a text that parses to it, iff all brackets of the text are closed |
| PortSelectors.ParseGives | topwrap/model/inference/port.py:110-142 | what parsing can produce: trimmed non-empty names without dots, and brackets only in unclosed fields |
| PortSelectors.ParseIff | topwrap/model/inference/port.py:92-142 | a text parses to a selector iff its parts, with spaces around, are its port name and what denotes its operations, and no bracket is followed by spaces alone |
| PortSelectors.ParseErrorIs | topwrap/model/inference/port.py:92-142 | which error a text is refused with: the first that applies, and of the parts the first that stands for nothing |
| PortSelectors.PartsOfIff | topwrap/model/inference/port.py:101-111 | the parts are the only ones that glue back to the text, cut before each bracket and at each dot |
| PortSelectors.StripIff | topwrap/model/inference/port.py:101-111 | stripping leaves the one text that, with spaces around it, is the given one and neither starts nor ends with a space |
| PortSelectors.UnclosedBracketExample | topwrap/model/inference/port.py:121-140 | `a[1]x` parses, and the printed result does not |
| PortSelectors.UnclosedDoesNotParse | topwrap/model/inference/port.py:119-140 | no selector with an unclosed field prints to a text that parses |
| PortSelectors.ParseBoundsIff | topwrap/model/inference/port.py:67-67 | the bounds parser accepts exactly the texts of the bounds pattern, with the numbers they show |
| PortSelectors.PartsOfIsCut | topwrap/model/inference/port.py:101-111 | splitting at dots and then at brackets is cutting in one pass |
| PortSelectors.PrintParts | topwrap/model/inference/port.py:168-187 | a printed selector is cut into its port and one part for each operation |
| PortSelectors.PrintedParts | topwrap/model/inference/port.py:168-187 | a printed selector glues its port and, in order, one part for each operation: a field name, an index or a range, without spaces or leading zeros |
| PortSelectors.FromStr | topwrap/model/inference/port.py:92-142 | the parsing loops give the specified result, with the error of the first part that fails |
| PortSelectors.OpsFrom | topwrap/model/inference/port.py:119-140 | the loop over the parts gives the operations in order, or the first error |
| PortSelectors.ToStr | topwrap/model/inference/port.py:168-187 | the printing loop gives the specified text |
| TreeSerdes.RoundTripIff | topwrap/common_serdes.py:95-274 | a tree of uniform depth is rebuilt without its empty dictionaries and None leaves, so unchanged iff it has none |
| TreeSerdes.EmptyDictionaryExample | topwrap/common_serdes.py:116-124 | a dictionary that holds an empty one has no rows and comes back empty |
| TreeSerdes.RebuildValue | topwrap/common_serdes.py:253-274 | grouping the rows of a value rebuilds the pruned value |
| TreeSerdes.RebuildEntries | topwrap/common_serdes.py:266-274 | grouping the rows of a dictionary rebuilds its pruned entries in order, since equal keys are adjacent |
| TreeSerdes.FlattenTreeEmptyIff | topwrap/common_serdes.py:116-124 | a dictionary has no rows iff nothing is left of it after pruning |
| TreeSerdes.FlattenTreeLength | topwrap/common_serdes.py:116-124 | all rows of a tree of uniform depth have one length |
| TreeSerdes.TreeRowsArePaths | topwrap/common_serdes.py:95-124 | the rows of any tree are exactly its paths from the top to a leaf |
| TreeSerdes.AnnotateAgrees | topwrap/common_serdes.py:127-169 | rows of the right length are annotated, each cell under its column's name |
| TreeSerdes.AnnotateIff | topwrap/common_serdes.py:127-169 | rows are annotated iff each has a cell for every name; the first that has not gives the error |
| TreeSerdes.UnflattenLeaf | topwrap/common_serdes.py:253-265 | with one field left, a single row gives its value and any other number the list of theirs in order |
| TreeSerdes.LastRunWins | topwrap/common_serdes.py:266-274 | of any rows, a key has what the last run of consecutive rows with it unflattens to |
| TreeSerdes.OtherKeysStay | topwrap/common_serdes.py:266-274 | a key that no row has keeps what it had |
| TreeSerdes.PruneIff | topwrap/common_serdes.py:116-122 | pruning changes nothing iff there is nothing to prune |
| TreeSerdes.UnflattenAnnotatedTree | topwrap/common_serdes.py:253-274 | the loop over groups gives the specified tree |
| FileReferences.RelativeLoop | topwrap/util.py:144-162 | the walk up from the base gives the specified path or error |
| FileReferences.RelativeIs | topwrap/util.py:144-162 | for any two paths: up to the nearest ancestor of the target and down to it, unless a `..` of the base is met on the way, or there is none, with the error of each |
| FileReferences.RelativeResolves | topwrap/util.py:144-162 | joining the relative path to the base and normalizing gives the target |
| FileReferences.RelativeUsesFewestUps | topwrap/util.py:144-162 | no path that leads from the base to the target has fewer upward steps |
| FileReferences.DifferentAnchorsFail | topwrap/util.py:152-160 | paths with different anchors are refused, with the error that is met first |
| FileReferences.FileTextRoundTripIff | topwrap/resource_field.py:103-152 | a printed file reference parses to its value iff the value has no line break |
| FileReferences.ParseIdentIff | topwrap/resource_field.py:133-152 | a text is a reference iff it can be read as scheme, arguments and value; of several readings the one with the shortest scheme is taken |
| FileReferences.MatchArgsIff | topwrap/resource_field.py:133-152 | arguments are matched iff they can be read, up to a bracket that a colon and one line follow and without line breaks; of several readings the shortest is taken |
| FileReferences.LineBreakExample | topwrap/resource_field.py:133-152 | the final line break of a path is lost |
| FileReferences.JoinedRoundTrip | topwrap/resource_field.py:97-108 | the components of a path survive being joined to a text and split again |
| FileReferences.SaveLoad | topwrap/resource_field.py:97-152 | a reference saved in a directory and loaded from there names the same file |
| KpmDataflows.RoundTrip | topwrap/frontend/kpm/dataflow.py:342-423 | representing a design and parsing it back gives its plain connections once each and then every inverted one, from driver to sink and without slices; external ports are made anew from name and exposed interface |
| KpmDataflows.RoundTripKeepsSet | topwrap/frontend/kpm/dataflow.py:342-423 | a connection is read back iff it is the canonical form of one of the design's |
| KpmDataflows.ExternalPortsComeBack | topwrap/frontend/kpm/dataflow.py:653-691 | the module's external ports come back in order with their names and directions, each once; any other one is used by a connection |
| KpmDataflows.AddConnectionsReads | topwrap/backend/kpm/dataflow.py:317-392 | after any list of connections exactly those can be read from the graph |
| KpmDataflows.PlainConnectionAdded | topwrap/backend/kpm/dataflow.py:387-392 | a plain connection adds one readable connection, or none if it is there already |
| KpmDataflows.InvertedConnectionAdded | topwrap/backend/kpm/dataflow.py:352-386 | an inverted connection adds one inverter that reads back as that connection from driver to sink |
| KpmDataflows.ConstantConnectionAdded | topwrap/backend/kpm/dataflow.py:318-338 | a constant connection adds one readable connection through the cached constant node |
| KpmDataflows.ParsesIff | topwrap/frontend/kpm/dataflow.py:342-423 | of any graph: it can be read iff each edge between other nodes joins a pin or constant to a pin, and each inverter has edges in and out of which the last join pins |
| KpmDataflows.InvertedConstantFails | topwrap/frontend/kpm/dataflow.py:704-708 | a graph with an inverter between a constant and a port cannot be read |
| KpmDataflows.InverterErrorIs | topwrap/frontend/kpm/dataflow.py:385-423 | why an inverter cannot be read: no edge in, none out, an end at no port, or a constant at its input |
| KpmDataflows.IntoInverterIs | topwrap/frontend/kpm/dataflow.py:342-383 | the edge kept into an inverter is the last one in the graph |
| KpmDataflows.OutOfInverterIs | topwrap/frontend/kpm/dataflow.py:342-383 | the edge kept out of an inverter is the last one in the graph |
| KpmDataflows.InstancesComeBack | topwrap/backend/kpm/dataflow.py:184-191 | the first nodes of a represented design are its instances in order, each with its ports as interfaces |
| KpmDataflows.ComponentsAdded | topwrap/backend/kpm/dataflow.py:184-191 | after adding components and externals every pin a connection needs is registered and nothing is read yet |
| KpmTranslation.DataflowBackend.Represented | topwrap/backend/kpm/dataflow.py:317-392 | adding a connection to the mutable graph follows the specification |
| KpmTranslation.DataflowBackend.AddInstancePorts | topwrap/backend/kpm/dataflow.py:249-277 | one node with the instance's interfaces, each registered for its port |
| KpmTranslation.DataflowBackend.AddExternalPort | topwrap/backend/kpm/dataflow.py:289-315 | one node whose inward interface is registered for the port |
| KpmTranslation.DataflowBackend.Link | topwrap/backend/kpm/dataflow.py:492-502 | one edge from driver to sink, unless it exists |
| KpmTranslation.RepresentDesign | topwrap/backend/kpm/dataflow.py:173-205 | the loops over components, externals and connections give the specified graph |
| KpmTranslation.ProcessConnections | topwrap/frontend/kpm/dataflow.py:342-383 | one pass separates plain connections from the edges of inverters, of which the last into and out of each node is kept |
| KpmTranslation.ParseDataflow | topwrap/frontend/kpm/dataflow.py:385-423 | plain connections and inverters give the specified list or the first error |
| KpmInference.Search.Infer | topwrap/frontend/kpm/dataflow.py:750-788 | visits only the net of the interface, leaves no neighbour of it unvisited, and yields exactly the types of what it visited |
| KpmInference.NextIff | topwrap/frontend/kpm/dataflow.py:750-788 | the search goes on exactly to the neighbours: all that is linked to an external node, to the same group of an interconnect, or to a subgraph's interface outside and inside |
| KpmInference.TypesAtIff | topwrap/frontend/kpm/dataflow.py:785-788 | the types known at an interface are those of the ports and interfaces of its name in a loaded module |
| KpmInference.ExploredExactly | topwrap/frontend/kpm/dataflow.py:728-788 | from an empty visited set the types found are exactly those of typed pins in the net |
| KpmInference.InferExternal | topwrap/frontend/kpm/dataflow.py:653-658 | the type is one of a typed pin in the net, and the single bit iff there is none |
| Hierarchy.Traverse | topwrap/model/module.py:171-191 | terminates with exactly the modules below the root, each once, by non-decreasing distance from it |
| Hierarchy.AllFound | topwrap/model/module.py:182-189 | once everything found is expanded, every module was found at its distance at most |
| Hierarchy.VisitComponents | topwrap/model/module.py:185-189 | exactly the components not visited before are queued, in order of first occurrence, and all are marked visited |
| Hierarchy.VisitKeepsSearching | topwrap/model/module.py:185-189 | queueing them keeps what was found distinct, in order of distance and at most one level ahead |
| Hierarchy.NextRound | topwrap/model/module.py:182-189 | after a round one more module is expanded and the search is still in order |
| Hierarchy.AllExpanded | topwrap/model/module.py:182-191 | with an empty queue exactly the reached modules were found, each once, by distance |
| DomainLowering.OneConnectionPerPin | topwrap/model/design.py:292-349 | each clock and reset pin is the target of exactly one new connection, in order |
| DomainLowering.NewConnectionsMeaning | topwrap/model/design.py:292-349 | pin levels agree with an instance's new connections iff each clock pin has the level of its domain's clock signal and each reset pin is asserted exactly when its domain's reset signal is |
| DomainLowering.AllNewConnectionsMeaning | topwrap/model/design.py:278-351 | the same for all instances of a design |
| DomainLowering.LowerableIff | topwrap/model/design.py:310-349 | an instance can be lowered iff each clock and reset has a domain, and each synchronous reset one that is synchronous to its clock's |
| DomainLowering.ResetFollowsDomain | topwrap/model/design.py:310-349 | a reset pin is asserted iff its domain is, whatever the polarities; a synchronous reset shares the domain of its clock |
| DomainLowering.CrosslessAppended | topwrap/model/design.py:353-401 | connections that lowering adds cannot change the outcome of the crossing check |
| DomainLowering.CrosslessIff | topwrap/model/design.py:353-401 | the check passes iff both clocks of each interface connection between known clocks are in one and the same domain |
| DomainLowering.Design.LowerDomains | topwrap/model/design.py:278-351 | for interface connections between components and without clocks on external sides: succeeds iff every instance can be lowered and no interface connection crosses domains; adds exactly the instances' connections |
| DomainLowering.NothingToCross | topwrap/model/design.py:353-401 | without components, where the check is not made, no interface connection can cross domains |
| DomainLowering.Design.LowerClocks | topwrap/model/design.py:291-307 | one connection for each clock from its domain, or failure iff one has no domain |
| DomainLowering.Design.LowerResets | topwrap/model/design.py:310-349 | one connection for each reset, inverted iff polarities differ; failure iff a reset has no domain or a synchronous one is in a foreign or asynchronous domain |
| DomainLowering.Design.CheckIntfCdc | topwrap/model/design.py:353-401 | succeeds iff no interface connection with both clocks known crosses domains |
| DomainLowering.Design.AddConnection | topwrap/model/design.py:305-305 | the connection is appended |
| DomainLowering.WantedNames | topwrap/frontend/yaml/design.py:724-753 | every clock or reset gets the domain name given for it or the default one; fails iff a given name is not one of the module's |
| DomainLowering.FindDomains | topwrap/frontend/yaml/design.py:755-774 | every clock or reset gets the first domain of its wanted name; fails iff there is none for one of them |
| DomainLowering.AssignedByName | topwrap/frontend/yaml/design.py:724-774 | with distinct names, an item's domain is the first that has the name given for it, or the default name |
| DomainLowering.AssignmentOutcomeIs | topwrap/frontend/yaml/design.py:721-774 | with distinct names: an instance is assigned unless a name is given that no clock has, or no reset, or the named or default domain of a clock is missing, or of a reset; the first of these is the error |
| DomainLowering.AssignInstance | topwrap/frontend/yaml/design.py:721-788 | the first error in the order of the checks, or the wanted domains if there is none |
| DomainLowering.AssignAll | topwrap/frontend/yaml/design.py:778-788 | succeeds iff every described instance can be assigned, and then all are |
| DomainLowering.AssignedHaveDomains | topwrap/frontend/yaml/design.py:776-790 | after assignment every clock and reset of every instance has a domain |
| DomainLowering.ParseClocksResets | topwrap/frontend/yaml/design.py:776-790 | exactly when parsing succeeds, what it then has added, and that lowering never fails for want of a domain |

## Left out

- SvDesignData.DesignData.Parse: has no interface connections, and the lowering no bidirectional ports: `topwrap/backend/sv/design.py:246` bypasses `used_ports`, so a default can replace such a mapping.
- The text of generated names: a pin and a net stand for unique names. Instance `a__b` with port `c` and instance `a` with port `b__c` would share a net name; `assign_map[port.name]` is taken to equal the escaped name.
- SvDesignData.SerializeDesign: covers port and constant connections, without the blanks for unconnected pins, net types, simplification of parenthesized literals and template rendering.
- AnswerSources.AnswerIff: requires that for each signal met it is decided by itself whether its fallback matters (a driver has a source of its own, nothing drives it, or the fallback adds nothing to the drivers); elsewhere `AnswerSound` and `AnswerComplete` are the bounds, since the fallback is consulted or not depending on other answers.
- SourceResolver.Resolver.ResolveBody: `_combine_disjoint_drivers` is taken to decline, and the overlap filter on bit ranges is part of how the graph is given; expressions of the frontend are given by the leaves and signals they mention.
- ConcatRuns.FlushRun: a run of one span is emitted as its own expression, taken to denote that span.
- BlackboxIndex.Frontend.RouteThroughBlackbox: whether a port has symbolic dimensions is an argument; new blackbox ports have no type, so the test on their dimensions always holds.
- BlackboxIndex.Frontend.AddConnection: stands for all other code that appends connections, which may attach the blackbox only at listed ports of a fitting direction.
- ParameterWorklist.EvaluateParameterList: the two syntactic kinds of expressions share one evaluator argument, and exceptions that end the evaluation altogether are not modelled.
- Division and powers in parameter expressions: a division by zero ends the original with an uncaught exception.
- CONCAT inside the parameter worklist: `topwrap/hdl_parsers_utils.py:238-246` evaluates the whole environment again, so its outcome is not stable; the arithmetic is verified apart from the worklist.
- The hexadecimal text in which bit vectors are passed: it is read as the number it denotes.
- PortSelectors.ParseBoundsIff: digits outside ASCII, which the pattern accepts too, are not modelled.
- `make_referenced_port` and `from_referenced_port`.
- TreeSerdes.UnflattenAnnotatedTree: the `sort` flag, which the round trip does not use, and keys that compare equal across types.
- FileReferences.SaveLoad: symbolic links are not followed; the other reference schemes and their arguments after parsing are left out.
- KpmDataflows.RoundTrip: without nested graphs, interface connections, interconnects, domains, positions and parameters.
- KpmInference.Search.Infer: the original is a generator that stops at the first type; the model collects all types, and the first is the one used. Which of several types comes first is not characterised apart from the search.
- Parsing of the domain lists themselves, logging, and insertion of synchronizers, which the original does not do either.
- The recovery of names from source text, bit overlap in `LogicSelect.overlaps`, and everything that only does input and output.
