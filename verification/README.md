# Verified models of mydbg

This project models the parts of mydbg whose behaviour is decided by code rather than
by a window system, a debugger backend or a CPU emulator, and proves what they promise.
`dafny verify dfyconfig.toml` checks everything.

## The components

- **Control-flow graph layout** (`GraphModel`, `DepthFirst`, `Layering`, `Placement`,
  `Routing`, `GraphLayout`): edge collection, the explicit-stack depth-first search that
  marks loop edges, longest-path layering over reverse finish order, barycentre ordering,
  card placement and orthogonal edge routing. The main result is
  `DisassemblyGraphLayout.Build`: for every list of blocks, every cycle is cut by a marked
  edge that runs against the way in, layers are longest-walk lengths, no card overlaps
  another, and no route of an in-graph edge enters a card or leaves the gutters and outer
  lanes.
- **ROP trace recorder and time-travel panel** (`RopMemory`, `RopEffects`,
  `RopSemantics`, `RopMachine`, `RopTrace`, `RopReader`, `RopView`, `RopEndToEnd`,
  `RopBudget`): lazily captured byte-masked pages, the undo log of an instruction, the
  bounded run loop, the budgeted reader of the result, and the panel that replays effects
  into stack slots. `RopSemantics` says what a script of instructions does to plain memory
  and registers; the simulator is held to it. The main result is `TraceAndShow`: at every
  cursor the panel shows the state that the script leads to, from the synthetic return,
  after that many instructions. Beside it, a failed step rolls back exactly, every trace is
  a connected run within its limits, and `RecordAndRead`: a recorded trace is never invalid
  to the native reader, and too large for it only beyond a ceiling that follows from the
  request.
- **Python lexer and indenter** (`PythonLexer`, `PythonNesting`, `PythonDeterminism`,
  `PythonIndent`): the
  context stack for nested interpolated strings, whose shape survives every line; every
  line is a chain of turns whose tokens cover it but for white space met in Python mode;
  brackets and quotes match over the turns; those turns, and the analysis of a whole
  document, are determined by the text;
  incremental and whole-line columns agree; indentation text has exactly the requested
  width.
- **Disassembly text** (`DisassemblyText`, `OperandLinks`, `Presentation`,
  `PresentationCache`): spans that tile a growing text under merging, splitting and
  inserting; links on exactly the right bytes; the two cells of a row; and the per-row
  cache, whose answers equal a fresh computation over any run of requests.
- **Localization** (`Utf8`, `QuotedString`, `PrintfGrammar`, `PrintfSignature`, with
  `PrefixCode`): the UTF-8 validator against both definitions of RFC 3629 (sections 3 and
  4), the quoted-string decoder against the spellings of section 7 of RFC 8259, and the
  printf signature reader against a grammar of patterns and a definition of signatures.
- **Navigation history and number codecs** (`Navigation`, `HexText`): the bounded history
  with its skipping traversal, and hexadecimal, byte-order and clipboard round trips.

`Wrappers`, `Counting`, `Sequences` and `Bytes` hold what several of them share.

## How to read the model

Objects that the program changes in place are classes whose methods state their whole new
state; the loops of the program are loops here. Where a loop body is long, it is a method
on values with the same branches, and the class method assigns the result.

Coordinates are real numbers. Measured text sizes, fonts, localized strings, register
tables, and the number and address parsers that decide a span's kind are parameters. Live
memory is a map from addresses to bytes whose domain is what can be read. The CPU is a
script of turns, each giving the disassembler's verdict, the accesses of each repetition
and the registers afterwards, or the fault that stops it; an access that the hook refuses
ends its turn. Deadlines,
cancellation and stale stops are a check that may fail at any of its calls.

Text is a sequence of bytes, written as characters in the range of a byte where that
reads better. Widths matter where the program relies on them: 64-bit words and addresses
are bounded explicitly, the saturating argument index is modelled as such, and the wrap of
a slot address is written out.

Two remarks on behaviour. A pattern with `%n` or an unknown conversion fails like any
other malformed pattern, so all failures of a pattern are one result here. The hexadecimal
byte reader strips one `0x` from every token, so `0x` alone is malformed.

## Model

| member | source | states |
|---|---|---|
| `GraphModel.IndexAddresses` | src/app/DisassemblyGraphLayout.cpp:57-82 | Each block address resolves to the first block that has it; an address of no block resolves to none. |
| `GraphModel.CollectEdges` | src/app/DisassemblyGraphLayout.cpp:86-125 | The flat edge vector holds exactly the blocks' edges, in block order and in edge order within a block, with targets resolved by address; the outgoing and incoming lists index it both ways. |
| `GraphModel.CloseCycle` | src/app/DisassemblyGraphLayout.cpp:151-152 | An edge whose source is reachable from its target lies on a cycle. |
| `DepthFirst.Step` | src/app/DisassemblyGraphLayout.cpp:139-157 | One turn of the explicit-stack loop keeps the whole white/grey/black invariant (stack linked by edges, finish ranks, classification of every seen edge, unmarked ways from the root to every block found and around every marked edge) and makes lexicographic progress, so the search terminates. |
| `DepthFirst.SearchFrom` | src/app/DisassemblyGraphLayout.cpp:134-157 | From a white root and an empty stack the search ends with an empty stack, the root coloured and no colour lost. |
| `DepthFirst.StackReaches` | src/app/DisassemblyGraphLayout.cpp:140-156 | A lower stack frame reaches every higher one along edges. |
| `DepthFirst.StackWalk` | src/app/DisassemblyGraphLayout.cpp:140-156 | Consecutive frames of the stack are joined by edges that were passed and not marked. |
| `DepthFirst.BottomLowest` | src/app/DisassemblyGraphLayout.cpp:133-139 | The bottom frame is the lowest block from which any frame can be reached, because all lower blocks and what they reach are finished. |
| `DepthFirst.TopGuided` | src/app/DisassemblyGraphLayout.cpp:148-153 | An edge from the top frame to a lower one runs against unmarked ways: one from the root to its target that avoids its source, and one from its target to its source. |
| `DepthFirst.MarkBackEdges` | src/app/DisassemblyGraphLayout.cpp:129-158 | Every block finishes exactly once; an edge is marked back if and only if its target does not finish before its source; every marked edge closes a real cycle. For each marked edge, unmarked edges lead from the lowest block that reaches its source to its target without visiting its source, and from its target to its source; and every block is found along unmarked edges from the lowest block that reaches it. |
| `DepthFirst.AllFinished` | src/app/DisassemblyGraphLayout.cpp:133-158 | Once every block is coloured and the stack is empty, the finish list is a permutation of the blocks and back marks are exactly the edges against it. |
| `Layering.UnmarkedEdgesAcyclic` | src/app/DisassemblyGraphLayout.cpp:127-169 | Reverse finish order is a topological order of the unmarked in-graph edges, which therefore have no cycle. |
| `Layering.AcyclicGraphUnmarked` | src/app/DisassemblyGraphLayout.cpp:127-158 | An acyclic graph gets no back marks. |
| `Layering.WayInUnmarked` | src/app/DisassemblyGraphLayout.cpp:127-158 | An edge is never marked when every way to its target visits its source first: where a loop is entered stays forward. |
| `Layering.WayBackMarked` | src/app/DisassemblyGraphLayout.cpp:127-158 | An edge is always marked when every way to its source visits its target first: the edge back to the only entry of a loop. |
| `Layering.DominanceMarks` | src/app/DisassemblyGraphLayout.cpp:127-158 | Both hold of every edge of the graph, seen from the lowest block that reaches its source. |
| `Layering.LayersAreLongestWalks` | src/app/DisassemblyGraphLayout.cpp:159-169 | Layers that rise along every forward edge and are each supported by one are exactly the lengths of the longest forward walks, walks of any shape included. |
| `Layering.NoGapBelow` | src/app/DisassemblyGraphLayout.cpp:159-173 | Below an occupied layer every layer is occupied. |
| `Layering.AssignLayers` | src/app/DisassemblyGraphLayout.cpp:159-169 | The relaxation over reverse finish order gives each block the length of the longest forward walk that ends at it; layers rise along forward edges; the layer count is one more than the highest layer and no layer up to it is empty. |
| `Layering.RelaxEdge` | src/app/DisassemblyGraphLayout.cpp:161-168 | Relaxing one edge keeps every bound already established and the support of every raised layer. |
| `Placement.BucketByLayer` | src/app/DisassemblyGraphLayout.cpp:170-173 | Row r lists exactly the blocks of layer r, each once, in increasing order. |
| `Placement.ComputeBarycentre` | src/app/DisassemblyGraphLayout.cpp:182-193 | The mean of the centres of the forward predecessors, or the block's own index when it has none. |
| `Placement.PullReadsPredecessors` | src/app/DisassemblyGraphLayout.cpp:182-193 | A barycentre depends on nothing but the centres of forward predecessors. |
| `Placement.BarycentreStable` | src/app/DisassemblyGraphLayout.cpp:182-193 | It is fixed once all lower layers are placed, so no barycentre reads a block that is not placed yet. |
| `Placement.BarycentreBetween` | src/app/DisassemblyGraphLayout.cpp:182-193 | A barycentre lies among the centres of the forward predecessors, so one predecessor, or several at one centre, give that centre; without any it is the block's index. |
| `Placement.StableSort` | src/app/DisassemblyGraphLayout.cpp:195-198 | The row sorted by key with ties kept in index order, and a permutation of the row. |
| `Placement.MeasureRow` | src/app/DisassemblyGraphLayout.cpp:199-204 | Row width with a gap between neighbours, and a height that no card of the row exceeds. |
| `Placement.LayRow` | src/app/DisassemblyGraphLayout.cpp:205-213 | Cards stand side by side from the row start, each a column gap after the one before, with the centre of each recorded; blocks of other layers are untouched. |
| `Placement.PlaceCards` | src/app/DisassemblyGraphLayout.cpp:170-217 | Every card lies inside the band of its layer and inside the left/right extent; bands follow each other a layer gap apart; within a layer cards stand in barycentre order a column gap apart. |
| `Routing.NoOverlap` | src/app/DisassemblyGraphLayout.cpp:205-217 | No two cards share an interior point. |
| `Routing.GutterLegClear` | src/app/DisassemblyGraphLayout.cpp:253-268 | A horizontal leg outside every band crosses no card. |
| `Routing.OuterLegClear` | src/app/DisassemblyGraphLayout.cpp:258-268 | A vertical leg left or right of all rows crosses no card. |
| `Routing.PortLegClear` | src/app/DisassemblyGraphLayout.cpp:227-230 | A vertical leg between a card border and the gutter next to it crosses no card. |
| `Routing.PortsSpread` | src/app/DisassemblyGraphLayout.cpp:225-228 | Edges of one block leave it at separate points, left to right in edge order. |
| `Routing.ShortRouteClear` | src/app/DisassemblyGraphLayout.cpp:251-254 | The four-point route between adjacent layers enters no card. |
| `Routing.LongRouteClear` | src/app/DisassemblyGraphLayout.cpp:255-269 | The six-point route around the outside enters no card. |
| `Routing.RouteInside` | src/app/DisassemblyGraphLayout.cpp:229-274 | Every in-graph edge gets a four-point route exactly when it is a forward edge to the next layer, else a six-point one, from its port to the middle of the target's top border. Horizontal legs lie strictly inside the gutters (exits in the upper half of the one below the source, entries in the lower half of the one above the target), the long vertical leg strictly outside all rows, and no leg enters a card. |
| `Routing.CoverRoute` | src/app/DisassemblyGraphLayout.cpp:280-292 | Bounds only grow and come to hold the whole route and its label. |
| `Routing.InitialBoundsHoldCards` | src/app/DisassemblyGraphLayout.cpp:219-220 | The bounds computed before routing already hold every card. |
| `Routing.RouteEdges` | src/app/DisassemblyGraphLayout.cpp:221-292 | All edges are routed as above, their legs in the gutters and outside the extent, and cards, routes and labels all lie in the final bounds. |
| `GraphLayout.MeasureCard` | src/app/DisassemblyGraphLayout.cpp:89-109 | A card is exactly as wide as its widest text asks, between the minimum and the cap, and its rows stack without gap or overlap below the header, each as high as its text and wrapped annotation. |
| `GraphLayout.DisassemblyGraphLayout.Build` | src/app/DisassemblyGraphLayout.cpp:84-285 | For any list of blocks: cards have the measured sizes and the gaps of the font; back marks sit on real cycles, leave none, and fall on the edge back to a loop's only entry and never on the way in; layers are longest-walk lengths; cards are disjoint; every in-graph route keeps to gutters and outer lanes and clears all cards; everything lies in the bounds. |
| `RopMemory.Memory.FindRegion` | python/mydbg/rop_trace.py:114-122 | The first region in start order that holds the address, if it permits the access; otherwise the status of that access kind. |
| `RopMemory.Memory.MapPage` | python/mydbg/rop_trace.py:133-157 | Mapping a page keeps lazily captured memory consistent with the live and simulated memory, and knows at least what was known. |
| `RopMemory.Memory.FillHoles` | python/mydbg/rop_trace.py:158-172 | Reading the missing runs of a chunk makes the whole chunk known and clobbers no store. |
| `RopMemory.Memory.Ensure` | python/mydbg/rop_trace.py:124-173 | Success means the range is in bounds, wholly known, and every byte of it lies where the access is permitted; on failure the status is accounted for; the simulated memory never changes. |
| `RopMemory.Memory.Read` | python/mydbg/rop_trace.py:175-177 | A successful read returns the simulated bytes of the whole range. |
| `RopMemory.Memory.Original` | python/mydbg/rop_trace.py:179-187 | A successful read of originals returns the live bytes, whatever has been stored since. |
| `RopMemory.Memory.CaptureSlot` | python/mydbg/rop_trace.py:189-203 | A slot is captured once, with the live word when it is readable and zero otherwise, and is found under its address from then on; earlier slots stay; only an interruption or a limit that struck prevents it. |
| `RopMemory.Memory.CaptureSlots` | python/mydbg/rop_trace.py:432-434 | On success every pointer-sized step inside the access starts a captured slot; only an interruption or a limit that struck prevents it. |
| `RopMemory.MapKeeps` | python/mydbg/rop_trace.py:133-157 | A freshly mapped page says nothing false: its bytes are unknown until captured. |
| `RopMemory.CaptureKeeps` | python/mydbg/rop_trace.py:154-157 | Writing captured live bytes into holes keeps lazy and eager memory in agreement. |
| `RopMemory.HoleUnknown` | python/mydbg/rop_trace.py:158-172 | A byte that is not known has never been stored to: its simulated value is still the live one. |
| `RopMemory.StoreKeeps` | python/mydbg/rop_trace.py:418-436 | A store to known bytes keeps lazy and eager memory in agreement and leaves the originals alone. |
| `RopMemory.SameRegion` | python/mydbg/rop_trace.py:130-132 | One permission check covers the chunk up to the region's end, because regions are sorted and apart. |
| `RopEffects.ReplayConcat` | python/mydbg/rop_trace.py:495-504 | Replaying two logs one after the other is replaying their concatenation. |
| `RopEffects.RewindStore` | python/mydbg/rop_trace.py:479-481 | Undoing a store right after making it restores memory, and so does undoing the rest of the log. |
| `RopEffects.RewindIgnoresAfter` | python/mydbg/rop_trace.py:471-474 | Undoing depends on the bytes before each store only. |
| `RopEffects.FinalizedReplay` | python/mydbg/rop_trace.py:469-474 | When every logged store carries the bytes its range holds at the end, and memory changed nowhere else, replaying the log on the memory before gives the memory after, overlapping stores included. |
| `RopEffects.ChangesApply` | python/mydbg/rop_trace.py:501-502 | The recorded register changes turn the values before into the values after, and back. |
| `RopEffects.ChangesFit` | python/mydbg/rop_trace.py:501-502 | Their number and their values stay within what a reader admits. |
| `RopSemantics.PerformedConcat` | python/mydbg/rop_trace.py:460-476 | Accesses made one list after the other leave the memory that the joined list leaves. |
| `RopSemantics.LogOfConcat` | python/mydbg/rop_trace.py:428-431 | The logs of two lists of accesses, the second made in the memory the first leaves, are together the log of the joined list. |
| `RopSemantics.LogOfRewinds` | python/mydbg/rop_trace.py:479-481 | A log with one entry per access, each holding the bytes found, undoes those accesses. |
| `RopSemantics.LogOfConfined` | python/mydbg/rop_trace.py:418-436 | Accesses change no byte outside the stores of their log. |
| `RopSemantics.RetiredPerforms` | python/mydbg/rop_trace.py:451-476 | Whatever the number of repetitions, the memory an instruction leaves is the one its accesses leave in order. |
| `RopSemantics.OneWritten` | python/mydbg/rop_trace.py:302-310 | After one iteration a register holds what the iteration writes to it, or what it held. |
| `RopSemantics.PerformedLeaves` | python/mydbg/rop_trace.py:418-436 | After a list of accesses a byte holds the data of the last store that covers it, or what it held. |
| `RopSemantics.RetiredRan` | python/mydbg/rop_trace.py:449-476 | An instruction runs some first iterations without a fault: every register and byte is left as they write it last, the program counter is back at the instruction before each further one, and the last one does not repeat. |
| `RopSemantics.WindowsWatched` | python/mydbg/rop_trace.py:205-209 | An access is marked exactly when it starts near the stack pointer or shares a byte with a watched window. |
| `RopSemantics.WatchedStay` | python/mydbg/rop_trace.py:428-434 | Stack accesses whose words are captured stay so while further slots are captured. |
| `RopMachine.Machine.EnsureAccess` | python/mydbg/rop_trace.py:419-421 | Success means the announced range is in bounds, known, and permitted for the kind of the access at every byte; the simulated memory stays. Failure is an interruption or limit that struck, an absent byte, or a denied one. |
| `RopMachine.Machine.Announce` | python/mydbg/rop_trace.py:418-436 | The access hook logs an admitted, permitted access with the bytes its range holds, marks it as a stack access exactly when it is near the stack pointer or a watched window, captures all stack words of a marked one, and never changes the simulated memory. It refuses only an access whose range is absent or denied, or at an interruption or limit that struck. |
| `RopMachine.Machine.Perform` | python/mydbg/rop_trace.py:418-436 | An admitted access is logged and carried out: a store leaves exactly its data in its range, a load nothing. A refused one changes no simulated byte. Undoing the log gives the memory at the start either way. |
| `RopMachine.Machine.Emulate` | python/mydbg/rop_trace.py:460-468 | On success the memory is the one that all given accesses leave, there is one log entry for each of them with the bytes it found and the stack mark its range asks for, the stack words of marked ones are captured, and each was permitted; on failure the log still undoes what was done, and the reason is that of one of the accesses. |
| `RopMachine.Machine.Finalize` | python/mydbg/rop_trace.py:469-474 | Every store logged in this iteration gets the bytes its range holds now; nothing else about the log changes. |
| `RopMachine.Machine.Rollback` | python/mydbg/rop_trace.py:478-482 | A failed step puts memory back exactly as it was. |
| `RopMachine.Machine.Iterate` | python/mydbg/rop_trace.py:451-474 | On success the state is the one the given iteration leads to, registers read back from it and its accesses carried out, logged and marked; replaying the finalized log gives the memory, rewinding it the memory before. On failure the registers are untouched and the reason is the iteration's own fault, a refused access, an interruption or a limit. |
| `RopMachine.Machine.RunIterations` | python/mydbg/rop_trace.py:451-476 | On success the state, the accesses and their stack marks are those of the scripted iterations up to the first one that does not repeat, and the stack words of marked ones are captured; the whole log replays to the state and rewinds from it, later iterations overwriting earlier bytes included. On failure some iteration, an interruption, a limit or the end of the script gives the reason. |
| `RopMachine.Machine.Step` | python/mydbg/rop_trace.py:438-504 | A completed step is exactly what the scripted iterations do from the state before: memory, registers, logged and marked accesses and register changes; every register and byte is as the iterations that run write it last, and so are the row's next address and stack pointer; each word of a stack access has a slot; the row replays to the new state and rewinds to the old one. A failed step changes neither memory nor registers and fails for a reason of the script, an interruption or a limit. Logged bytes and accesses are charged exactly. |
| `RopMachine.Machine.Decode` | python/mydbg/rop_trace.py:312-320 | A decoded instruction is the disassembler's verdict on the simulated bytes at the program counter, every one of them executable; no simulated byte changes. It fails only without a verdict, at a byte that cannot be fetched, or at an interruption or limit. |
| `RopMachine.Machine.PopReturn` | python/mydbg/rop_trace.py:565-569 | The synthetic return loads the program counter from the live stack word and moves the stack pointer past it; if the word cannot be read no register changes. |
| `RopMachine.Machine.LogAccess` | python/mydbg/rop_trace.py:421-431 | Every access is charged before it is logged, nothing is logged beyond the byte and count limits, and it is refused only beyond them. |
| `RopMachine.RetiredRow` | python/mydbg/rop_trace.py:495-504 | The row built after an instruction explains the step, carries exactly what the script did, and stays within what a reader admits. |
| `RopMachine.RetiredTells` | python/mydbg/rop_trace.py:488-504 | The row tells that run without carrying it out: its next address and stack pointer are those written last, and it logs the accesses made one for one. |
| `RopMachine.NotedOneMore` | python/mydbg/rop_trace.py:418-436 | Announcing one more access keeps the marks and the captured words of all accesses of the iteration right. |
| `RopMachine.IterationNoted` | python/mydbg/rop_trace.py:469-474 | Finalizing an iteration keeps the stack marks, and its marked accesses stay captured. |
| `RopMachine.IterationAccounted` | python/mydbg/rop_trace.py:469-476 | Finalizing one more iteration keeps the account: all accesses so far carried out, logged one for one, replayable and reversible. |
| `RopMachine.IterationReplays` | python/mydbg/rop_trace.py:469-474 | Finalized stores of an iteration chain with those of the iterations before it. |
| `RopMachine.ChangesRoundTrip` | python/mydbg/rop_trace.py:501-502 | Register changes computed from before and after reproduce both. |
| `RopTrace.Recorder.OpenNode` | python/mydbg/rop_trace.py:580-586 | Opening a node keeps the shape of all earlier nodes; its stack slot is the word that led to it: the stack address for the first, the popped word after a return, none after another transfer. |
| `RopTrace.Recorder.Execute` | python/mydbg/rop_trace.py:601-605 | A row is completed with exactly the effects that the turn's script has on the state before (the turn drives the old state to the new one), its stack words captured, and for a return the word it pops captured first; or it stays incomplete with no effect at all, for a reason of the turn, an interruption or a limit. |
| `RopTrace.Recorder.Advance` | python/mydbg/rop_trace.py:577-608 | One turn of the run loop keeps the recording sound, slots and chain of nodes included. Without a boundary exactly one row is added, driven by this turn; a boundary adds at most the row this turn fetched, unexecuted, and is the instruction limit, the node limit with all nodes closed, or a reason of the turn. |
| `RopTrace.Recorder.Run` | python/mydbg/rop_trace.py:573-611 | Rows never exceed the instruction limit and nodes never exceed the node limit. Turn k of the script drives state k to state k + 1 and makes row k; only the last row can be unexecuted, and then it shows what the next turn fetched; the last state is the machine's own; every node but the last ends in a transfer, only its last row is one, and each names the stack word it was entered through; returns and stack accesses have their words captured. The run ends with the instruction limit exactly at that many rows, with the node limit only at that many closed nodes, with the script, or for a reason of the next turn. |
| `RopTrace.RecordedIsConnected` | python/mydbg/rop_trace.py:587-608 | Each completed row's next address and stack pointer are the next row's. |
| `RopTrace.OpenKeepsChain` | python/mydbg/rop_trace.py:580-586 | A node opened on the word that led to it keeps the chain of stack slots. |
| `RopTrace.ScriptedCompleted` | python/mydbg/rop_trace.py:604-605 | A completed row driven by its turn extends the script's account of the trace by that turn. |
| `RopTrace.ScriptTold` | python/mydbg/rop_trace.py:577-608 | Each completed row of a trace tells what some first iterations of its turn write last. |
| `RopTrace.EnterStack` | python/mydbg/rop_trace.py:564-573 | The synthetic return loads the program counter from the stack word and moves the stack pointer past it, or leaves the registers; on success every word of the window is captured; the simulated memory never changes. |
| `RopTrace.WindowWords` | python/mydbg/rop_trace.py:571-572 | All complete words of the stack window and the word that is popped have slots. |
| `RopTrace.WindowBytes` | python/mydbg/rop_trace.py:564 | Exactly the bytes of the window and of the popped word are watched. |
| `RopReader.TraceReader.Consume` | src/scripting/PythonRopTrace.cpp:130-135 | Consuming either takes exactly the bytes asked for or fails because they are not left. |
| `RopReader.TraceReader.OpenSequence` | src/scripting/PythonRopTrace.cpp:172-187 | A list is admitted if and only if it respects its maximum and its element storage fits the remaining budget. |
| `RopReader.TraceReader.ReadRow` | src/scripting/PythonRopTrace.cpp:211-249 | An instruction is read if and only if its fields are admissible and its whole cost fits. |
| `RopReader.TraceReader.ReadNode` | src/scripting/PythonRopTrace.cpp:195-209 | A node is read if and only if it is admissible, its cost fits and its rows fit the running instruction budget, which it lowers by their number. |
| `RopReader.TraceReader.ReadNodes` | src/scripting/PythonRopTrace.cpp:112-114 | The node list is read if and only if it is acceptable and its total cost is within the byte budget. |
| `RopReader.RecordedIsAcceptable` | src/scripting/PythonRopTrace.cpp:195-209 | Whatever the recorder produces within its limits is acceptable: neither the node limit nor the running instruction budget ever rejects it. |
| `RopView.LittleEndianByte` | src/app/RopPanel.cpp:513-523 | Byte k of a little-endian word is the k-th byte of memory. |
| `RopView.WithByteFits` | src/app/RopPanel.cpp:518-523 | Replacing one byte of a word within the pointer size leaves a word within it. |
| `RopView.WordOfBytes` | src/app/RopPanel.cpp:513-523 | A word within its size is the little-endian value of its bytes. |
| `RopView.ReplayIsLastWrite` | src/app/RopPanel.cpp:483-529 | The byte that replay leaves at an address is the last one stored there, or the original one. |
| `RopView.UpdateSlot` | src/app/RopPanel.cpp:513-527 | Storing the covered bytes into a slot makes each byte show the last store to it; the slot is readable exactly when every byte is known. |
| `RopView.WrapHarmless` | src/app/RopPanel.cpp:515-517 | A slot address that wraps around does not fall into the access. |
| `RopView.LowerBound` | src/app/RopPanel.cpp:505-509 | The first slot at or above an address in the sorted list. |
| `RopView.ApplyAccess` | src/app/RopPanel.cpp:499-528 | The window from the lower bound to the last byte visits every slot the access touches: afterwards all slots show the longer log. |
| `RopView.ApplyChanges` | src/app/RopPanel.cpp:489-498 | Each register shows its last change, and its value before only for the row at the cursor. |
| `RopView.SortSlots` | src/app/RopPanel.cpp:408-417 | The slots sorted by address, the same multiset. |
| `RopView.Reset` | src/app/RopPanel.cpp:467-482 | Slots, registers and pointers show the state before any row. |
| `RopView.ReplayRow` | src/app/RopPanel.cpp:483-530 | Replaying one more row moves the display from the log before it to the log after it. |
| `RopView.RopView.constructor` | src/app/RopPanel.cpp:408-458 | The rows are the trace's instructions in order, the slots are sorted, and the cursor stands at the start. |
| `RopView.RopView.SelectCursor` | src/app/RopPanel.cpp:261-264 | The cursor is clamped to the number of rows. |
| `RopView.RopView.Reconstruct` | src/app/RopPanel.cpp:461-532 | From any earlier cursor, the display becomes the one that replaying all completed rows before the cursor gives. |
| `RopEndToEnd.LogReplaysHistory` | src/app/RopPanel.cpp:483-530 | Replaying the log before a cursor on the initial memory gives the memory recorded at that cursor. |
| `RopEndToEnd.ChangesReplayHistory` | src/app/RopPanel.cpp:489-498 | Folding the register changes before a cursor gives the registers recorded there. |
| `RopEndToEnd.PanelShowsSimulatedState` | src/app/RopPanel.cpp:461-532 | Every known byte of every slot is the simulated byte at the cursor, every readable slot is the whole little-endian word of simulated memory there, a byte is known exactly when captured or stored to, and registers, program counter and stack pointer are the simulated ones. |
| `RopEndToEnd.SlotWordFollows` | src/app/RopPanel.cpp:513-527 | A slot all of whose bytes are shown right shows the little-endian word of its bytes. |
| `RopEndToEnd.RecordedIsSane` | src/app/RopPanel.cpp:408-417 | Every recorded trace meets the viewer's assumptions, among them that no access wraps. |
| `RopEndToEnd.SlottedOnPanel` | src/app/RopPanel.cpp:408-417 | Sorting loses no slot: every captured stack word has a row on the panel. |
| `RopEndToEnd.RecordTrace` | python/mydbg/rop_trace.py:507-612 | The recorded history starts in the state after the synthetic return, each next state is the one turn k of the script makes of the state before, and the last one is the machine's; rows and initial registers belong to it; limits on nodes, rows, logged bytes and logged accesses hold. The slots are those the recorder captured, among them the word returned through, every word of the stack window, every word of every access near the stack pointer or the window, and every word a return pops. It ends with a failed return, an interruption or limit that struck, or as its run does; after a failed return nothing is recorded. |
| `RopEndToEnd.TraceAndShow` | src/app/RopPanel.cpp:461-532 | Recorder and viewer composed: at whatever cursor, the panel shows the state that the script leads to from the synthetic return after that many instructions: registers, pointers, every known byte and every readable word, as last written by the iterations that ran, with a row for every stack word captured on the way. |
| `RopBudget.NodesCostIsRows` | src/scripting/PythonRopTrace.cpp:195-249 | What a trace costs to read does not depend on how its rows are grouped into nodes. |
| `RopBudget.RecordedIsAffordable` | src/scripting/PythonRopTrace.cpp:130-187 | A recorded trace costs at most what its node and instruction limits and the recorder's limits on logged effects allow. |
| `RopBudget.DefaultsFit` | python/mydbg/rop_trace.py:507-508 | With the default instruction and node limits that ceiling is at most half the reader's byte budget. |
| `RopBudget.RecordedTextsShort` | python/mydbg/rop_trace.py:501-504 | Rows show only the disassembler's texts and change only tracked registers by name. |
| `RopBudget.RecordAndRead` | src/scripting/PythonRopTrace.cpp:95-114 | Recorder and native reader composed: what is read is a recording of the script that ends for a stated reason; no field of it is ever invalid, and it is refused as too large exactly when its cost exceeds the budget, never when the ceiling fits. |
| `PythonLexer.NumberEnd` | src/app/PythonSyntax.cpp:392-431 | A numeric literal is a prefixed integer, or whole digits with an optional fraction, exponent (only with a digit) and imaginary suffix, each as long as possible. |
| `PythonLexer.EscapeEnd` | src/app/PythonSyntax.cpp:488-510 | A non-raw escape takes its hexadecimal, octal or named part, as long as its letter allows. |
| `PythonLexer.WordEnd` | src/app/PythonSyntax.cpp:316-318 | The longest run of identifier characters. |
| `PythonLexer.Lexer.NewLine` | src/app/PythonSyntax.cpp:264-271 | The contexts keep their shape, at most one context is dropped, and exactly when the innermost one is an ordinary string without an escaped line break; all others stay, and no escaped-line flag survives. |
| `PythonLexer.Lexer.Recover` | src/app/PythonSyntax.cpp:265-268 | The loop drops the innermost unterminated string and then stops, because below a string stands a replacement field. |
| `PythonLexer.FrontStacked` | src/app/PythonSyntax.cpp:240-252 | Below a string stands a replacement field or nothing. |
| `PythonLexer.ReplacedStacked` | src/app/PythonSyntax.cpp:298-302 | A replacement field may become a format specification in place. |
| `PythonLexer.Lexer.OpenString` | src/app/PythonSyntax.cpp:373-390 | The opened context has the quote, triple, raw, bytes and interpolated marks that prefix and quotes spell. |
| `PythonLexer.Lexer.OpenReplacement` | src/app/PythonSyntax.cpp:471-475 | A brace opens a replacement field at depth zero on the interpolated literal. |
| `PythonLexer.Lexer.Literal` | src/app/PythonSyntax.cpp:433-524 | One token of literal text: the contexts pop exactly on a closing quote or brace, push exactly on an opening brace, and otherwise only record an escaped line break; the token ends where the quote, brace, escape or run does. |
| `PythonLexer.Lexer.LiteralEscape` | src/app/PythonSyntax.cpp:482-515 | A backslash at the end of the line flags the context; elsewhere it takes its escape sequence with it. |
| `PythonLexer.Lexer.FieldEnd` | src/app/PythonSyntax.cpp:291-311 | At depth zero a brace closes the field, a colon turns it into a format, and a conversion is one token. |
| `PythonLexer.Lexer.Operator` | src/app/PythonSyntax.cpp:333-353 | The token is the longest operator; depth follows brackets and is never negative. |
| `PythonLexer.Lexer.PythonToken` | src/app/PythonSyntax.cpp:280-354 | One token of Python text: a comment, the end, format or conversion of a field at depth zero, a string with the contexts it opens, a word, a number, or the longest operator with its effect on the bracket depth. |
| `PythonLexer.Lexer.LexOne` | src/app/PythonSyntax.cpp:275-354 | One turn of the loop from any well-shaped stack: in a literal always one token; in Python either one byte of white space skipped or one token; the stack changes exactly as that token asks. |
| `PythonLexer.Lexer.Line` | src/app/PythonSyntax.cpp:273-355 | From any well-shaped context stack and for any line: consecutive stacks are related by the turns of the loop; the tokens are those the turns emit, in order, non-empty and disjoint; a byte is outside all of them exactly when it is white space that a turn reached in Python mode. |
| `PythonLexer.AppendKeepsTokens` | src/app/PythonSyntax.cpp:273-355 | A token that starts where the covered part ends extends the covered part to its end. |
| `PythonLexer.TurnKeepsTokens` | src/app/PythonSyntax.cpp:273-355 | Each turn keeps the correspondence between bytes outside all tokens and white space skipped in Python mode. |
| `PythonNesting.FieldCounted` | src/app/PythonSyntax.cpp:333-353 | Over turns that do not end a field, its depth is the number of round, square and curly brackets left open in it; strings and fields inside it do not count. |
| `PythonNesting.BracketsMatch` | src/app/PythonSyntax.cpp:291-353 | From an opening bracket of a field to the one that matches it, the contexts come back to what they were. |
| `PythonNesting.BracketsHoldField` | src/app/PythonSyntax.cpp:291-339 | Between matching brackets no token of the field ends it or starts its format; a colon or exclamation mark is punctuation there. |
| `PythonNesting.FieldEndsOutside` | src/app/PythonSyntax.cpp:291-311 | With no bracket open, the first colon of a field starts its format and the first closing brace ends it. |
| `PythonNesting.StringsMatch` | src/app/PythonSyntax.cpp:433-480 | A string ends at the first token of its own text that starts with the quotes it was opened with, one or three, and that token is those quotes. |
| `PythonDeterminism.TurnUnique` | src/app/PythonSyntax.cpp:275-354 | From one context stack a position has one outcome: one token, or white space skipped, and one stack after it. |
| `PythonDeterminism.LineUnique` | src/app/PythonSyntax.cpp:273-355 | From the same contexts a line has one sequence of turns and tokens and ends in one context stack. |
| `PythonDeterminism.DocumentUnique` | src/app/PythonSyntax.cpp:773-829 | A document has one analysis: tokens of all lines and the contexts carried to each are determined by the text. |
| `PythonIndent.MeasureColumns` | src/app/PythonSyntax.cpp:212-220 | The tab-aware visual column of a text. |
| `PythonIndent.TabStops` | src/app/PythonSyntax.cpp:212-220 | A tab leads to the next multiple of the tab size, a character one column on. |
| `PythonIndent.ColumnsJoin` | src/app/PythonSyntax.cpp:212-220 | Measuring in two pieces is measuring at once: columns is a left fold. |
| `PythonIndent.ColumnsGrow` | src/app/PythonSyntax.cpp:212-220 | A longer prefix never has a smaller column. |
| `PythonIndent.Statement.Consume` | src/app/PythonSyntax.cpp:568-573 | The incremental column of an outer token is the column of the whole line prefix before it. |
| `PythonIndent.AnalyzeLine` | src/app/PythonSyntax.cpp:848-850 | So it is for all outer tokens of a line. |
| `PythonIndent.AnalyzeLines` | src/app/PythonSyntax.cpp:773-829 | Every line of a document is lexed in exactly the contexts that the line break after the line before leaves, starting from none, and is covered by its tokens. |
| `PythonIndent.MakeIndent` | src/app/PythonSyntax.cpp:735-762 | For any blank prefix and tab size, the result is blank, exactly max(width, 0) columns wide, keeps the longest fitting prefix, and adds tabs beyond it only when the prefix is pure tabs. |
| `PythonIndent.AddTabs` | src/app/PythonSyntax.cpp:754-759 | Tabs are added while they fit and no longer. |
| `DisassemblyText.StyledText.AddToken` | src/app/DisassemblyText.cpp:235-245 | The spans tile up to the new end and the new stretch has this kind and target, whether or not the last span grew. |
| `DisassemblyText.StyledText.Append` | src/app/DisassemblyText.cpp:247-252 | Text and paint grow by exactly the value; the spans still tile the text. |
| `DisassemblyText.RecordedTiles` | src/app/DisassemblyText.cpp:235-245 | Merging with the last span and adding a new one paint the same. |
| `DisassemblyText.SplitTiles` | src/app/DisassemblyText.cpp:446-455 | Cutting a span keeps the tiling. |
| `DisassemblyText.AgreementIsPainted` | src/app/DisassemblyText.cpp:235-245 | A tiling that agrees with a byte-wise painting has that painting. |
| `DisassemblyText.LinkOccurrence` | src/app/DisassemblyText.cpp:444-459 | Linking one occurrence targets exactly its non-plain bytes, despite splits and inserts in the middle of the loop. |
| `DisassemblyText.LinkAll` | src/app/DisassemblyText.cpp:436-461 | Over all occurrences: the spans tile, no byte changes kind, and the targets change exactly on the non-plain bytes of word-bounded occurrences. |
| `DisassemblyText.StyledText.LinkReference` | src/app/DisassemblyText.cpp:431-462 | The same for the text object; it reports a find exactly when a word-bounded occurrence exists. |
| `DisassemblyText.NextToken` | src/app/DisassemblyText.cpp:257-312 | A quoted string ends past its first unescaped quote, a word takes all its characters and double colons and has the kind of the tables; only white space outside comments is plain, and a comment lasts to the end. End, kind and scan state are those of one step. |
| `DisassemblyText.QuoteEndsFirst` | src/app/DisassemblyText.cpp:262-272 | A quoted string ends past its first quote with an even number of backslashes before it, and without one at the end of the text. |
| `DisassemblyText.TokenizedStep` | src/app/DisassemblyText.cpp:312-313 | Recording one token extends the tokenized part to its end. |
| `DisassemblyText.TokenizeFrom` | src/app/DisassemblyText.cpp:254-313 | The spans are exactly those of one token step after the other over the rest of the text, merged as they are recorded; they tile it, keep the paint before it, and have no target. |
| `DisassemblyText.StyledText.AppendTokenized` | src/app/DisassemblyText.cpp:563-566 | Appending and tokenizing leaves the cell tiled, with the spans that the token steps over the appended text give. |
| `OperandLinks.SplitOperands` | src/app/DisassemblyText.cpp:335-350 | The operands cover the list and exactly the commas at bracket depth zero lie between them. |
| `OperandLinks.BracketsHoldOperand` | src/app/DisassemblyText.cpp:335-350 | No comma between an opening bracket and the closing one that matches it separates operands. |
| `OperandLinks.OutsideBracketsSplits` | src/app/DisassemblyText.cpp:335-350 | Where no bracket is open, and none was closed too often, every comma separates operands. |
| `OperandLinks.OperandsOrdered` | src/app/DisassemblyText.cpp:335-350 | Later operands lie strictly after earlier ones, so a span lies in one operand at most. |
| `OperandLinks.LinkOperands` | src/app/DisassemblyText.cpp:332-429 | Every span keeps its bounds and kind; its target is the branch destination inside the destination operand, its own literal when no other span inside the operand stands against it, and the old one otherwise. |
| `OperandLinks.LinkOperand` | src/app/DisassemblyText.cpp:390-428 | One pass over the spans settles one operand, although it reads the list it is writing. |
| `OperandLinks.AloneSame` | src/app/DisassemblyText.cpp:410-425 | Whether a literal stands alone does not depend on targets set meanwhile. |
| `OperandLinks.NothingElseIff` | src/app/DisassemblyText.cpp:410-425 | The operand holds nothing but the literal exactly when the literal stands alone and no other than decoration reaches over an end of the operand: spans that do are not looked at. |
| `OperandLinks.SignIsOverlooked` | src/app/DisassemblyText.cpp:410-425 | So in eax,-0x10 the number is taken to stand alone: its sign has merged with the comma before it. |
| `OperandLinks.OutsideKeepsTarget` | src/app/DisassemblyText.cpp:392-394 | Spans before the operands and spans across a top-level comma keep their targets. |
| `OperandLinks.TwoLiteralsLinkNeither` | src/app/DisassemblyText.cpp:410-427 | Two numbers in one operand link neither. |
| `Presentation.LinkCell` | src/app/DisassemblyText.cpp:561-568 | Linking operands leaves kind and target of the bytes before them alone, settles every span of every operand by the operand rules, and gives no freshly tokenized span a target but the destination or its own literal. |
| `Presentation.MakeInstruction` | src/app/DisassemblyText.cpp:556-569 | The cell reads mnemonic and operands and is tiled; the mnemonic's bytes show its kind and the branch target; the operand spans are those of the token steps after the mnemonic, linked exactly as the operand rules ask. |
| `Presentation.AddReference` | src/app/DisassemblyText.cpp:573-614 | After a reference, the annotation shows its address, its preview, and its symbol or its function's name (unless the branch stays inside the function), each with every byte linked to its address; what is newly linked is linked to nothing else. |
| `Presentation.AddressReadsBack` | src/app/DisassemblyText.cpp:573-614 | An address shown in an annotation reads back as the address. |
| `Presentation.LinkedStays` | src/app/DisassemblyText.cpp:573-614 | A link stays while the cell grows, but for bytes that are linked anew. |
| `Presentation.ReferenceSettles` | src/app/DisassemblyText.cpp:573-614 | Whatever of address, preview and name is found in the comment or appended, all of them are linked once the reference is done. |
| `Presentation.OneMoreLinked` | src/app/DisassemblyText.cpp:570-614 | Adding a reference keeps the earlier ones linked, to their own address or that of a later reference that names the same bytes. |
| `Presentation.AddScope` | src/app/DisassemblyText.cpp:532-548 | Each scope from the outermost one inwards adds its own lines: where it was inlined, its parameters, its locals. |
| `Presentation.OuterScopesFirst` | src/app/DisassemblyText.cpp:532-534 | The scopes are listed from one without a parent to this one, each right after the one around it. |
| `Presentation.AddDeclarations` | src/app/DisassemblyText.cpp:504-530 | The declarations of one sort, comma separated under their label, on a line of their own or in brackets, or nothing when there are none. |
| `Presentation.AddContext` | src/app/DisassemblyText.cpp:616-631 | Exactly the source line, the function with its parameters, and the scopes, each only where the row begins it. |
| `Presentation.MakeAnnotation` | src/app/DisassemblyText.cpp:570-637 | The annotation is the comment, every reference, the lines of context and then the user's comment; the comment's spans are those of the token steps, with their kinds; address, preview and name of every reference stand in it linked to that reference or a later one naming the same bytes; it stays tiled and links to nothing but the addresses of its references. |
| `Presentation.MakePresentation` | src/app/DisassemblyText.cpp:552-640 | Both cells as described: mnemonic, linked operands, comment, references, context and user comment; every reference linked, and links of the annotation only to its references; a value-initialized row shows nothing. |
| `PresentationCache.SameScopeIff` | src/app/DisassemblyTextDrawing.cpp:62-71 | Comparing scopes parent by parent is comparing them completely. |
| `PresentationCache.MatchesIff` | src/app/DisassemblyTextDrawing.cpp:88-108 | A cached row matches exactly when no field that its presentation reads has changed. |
| `PresentationCache.RefreshRow` | src/app/DisassemblyTextDrawing.cpp:279-306 | Remaking and re-measuring only what the changed keys reach gives the row a fresh computation gives. |
| `PresentationCache.RefreshRows` | src/app/DisassemblyTextDrawing.cpp:277-308 | Rows reused, remade, dropped and newly grown are all fresh for the new keys. |
| `PresentationCache.Cache.Present` | src/app/DisassemblyTextDrawing.cpp:260-315 | For any deterministic row maker that shows nothing for a blank row (as MakePresentation does): the rows returned are the fresh ones for this snapshot, font, size, width and architecture. |
| `PresentationCache.Serve` | src/app/DisassemblyTextDrawing.cpp:260-315 | So over any sequence of requests through one cache. |
| `Utf8.WellFormedIffEncoded` | src/localization/Localization.cpp:65-118 | The byte grammar of RFC 3629 and its encoding table describe the same sequences. |
| `Utf8.DecodedEncoded` | src/localization/Localization.cpp:102-118 | Encoded text is well formed and decodes to itself. |
| `Utf8.EncodedDecoded` | src/localization/Localization.cpp:65-118 | Well-formed bytes decode to text that encodes to them. |
| `Utf8.CheckCharacter` | src/localization/Localization.cpp:66-98 | The range, overlong and surrogate tests on the gathered code point accept exactly the characters of the grammar. |
| `Utf8.ValidUtf8` | src/localization/Localization.cpp:65-100 | Accepts exactly the encodings of sequences of Unicode scalar values. |
| `Utf8.AppendUtf8` | src/localization/Localization.cpp:102-118 | Appends the encoding of the code point. |
| `QuotedString.ItemUnique` | src/localization/Localization.cpp:146-199 | No two items of a quoted string can start the same bytes. |
| `QuotedString.HexQuad` | src/localization/Localization.cpp:126-145 | Four digits are read exactly when the closing quote still follows; the value is theirs. |
| `QuotedString.UnicodeEscape` | src/localization/Localization.cpp:177-193 | A code unit or a complete surrogate pair is read, or no item at all starts here. |
| `QuotedString.DecodeNext` | src/localization/Localization.cpp:147-198 | One item is read and its meaning appended, without passing the closing quote, or no item starts here. |
| `QuotedString.Decode` | src/localization/Localization.cpp:120-204 | Succeeds exactly on quoted spellings of well-formed text, with the text they spell. |
| `QuotedString.DenotationUnique` | src/localization/Localization.cpp:120-204 | A quoted string spells one text at most. |
| `QuotedString.SpellingsDecodeToUtf8` | src/localization/Localization.cpp:120-204 | For any sequence of scalar values and any choice of raw, short, single-escape and pair spellings, the string decodes to exactly its UTF-8. |
| `QuotedString.EscapedSpellingExists` | src/localization/Localization.cpp:177-193 | Every scalar value has an escape spelling. |
| `QuotedString.ShortSpellingIff` | src/localization/Localization.cpp:155-176 | A character has a short escape exactly when RFC 8259 lists one, and then only that one. |
| `QuotedString.RawSpellingIff` | src/localization/Localization.cpp:147-153 | A scalar value can stand for itself exactly when it is no control, quote or backslash. |
| `PrefixCode.Continues` | src/localization/Localization.cpp:120-204 | Where no two items start the same text, what has been read is the start of every reading. |
| `PrintfGrammar.ReadNumber` | src/localization/Localization.cpp:276-279 | The running argument number saturates at 129: it is the smaller of 129 and the number spelled. |
| `PrintfGrammar.ArgumentPosition` | src/localization/Localization.cpp:273-288 | Digits closed by a dollar sign number an argument from 1 to 128 or nothing can stand here; without the sign nothing is consumed. |
| `PrintfGrammar.ReadField` | src/localization/Localization.cpp:317-331 | The only width or precision that can stand here, or none can. |
| `PrintfGrammar.ConversionUnique` | src/localization/Localization.cpp:311-381 | At most one conversion can stand at a position. |
| `PrintfGrammar.ReadConversion` | src/localization/Localization.cpp:311-381 | The reader finds that conversion and its argument uses, or none can stand here. |
| `PrintfGrammar.TypeListed` | src/localization/Localization.cpp:346-380 | A conversion reads exactly the argument type that lists its length and letter, and none when no type does. |
| `PrintfSignature.PiecesReadable` | src/localization/Localization.cpp:304-381 | No two pieces can start the same pattern. |
| `PrintfSignature.ParseUnique` | src/localization/Localization.cpp:268-386 | A pattern has one parse at most. |
| `PrintfSignature.SignatureUnique` | src/localization/Localization.cpp:268-386 | A pattern has one signature at most. |
| `PrintfSignature.ArgumentTable.Add` | src/localization/Localization.cpp:289-303 | A use is recorded, or no pattern that starts with these uses has a signature: mixed styles, index out of range, or conflicting types. |
| `PrintfSignature.FullTable` | src/localization/Localization.cpp:383-386 | A table without holes is the signature. |
| `PrintfSignature.HoleDenies` | src/localization/Localization.cpp:383-385 | A table with a hole admits no signature. |
| `PrintfSignature.FormatSignature` | src/localization/Localization.cpp:268-387 | Returns the signature of a pattern exactly when it has one: entry i is the common type of all uses of argument i, without holes, without mixing, at most 128. |
| `PrintfSignature.SequentialSignature` | src/localization/Localization.cpp:289-303 | In sequence, entry k is the type of use k. |
| `PrintfSignature.SequentialJoin` | src/localization/Localization.cpp:268-387 | For accepted sequential patterns the signature of the joined pattern is the joined signature, exactly when it stays within the limit. |
| `PrintfSignature.PositionalSwap` | src/localization/Localization.cpp:268-387 | For positional patterns the order of the parts does not matter. |
| `PrintfSignature.NoMixing` | src/localization/Localization.cpp:296-297 | A pattern that uses both styles has no signature. |
| `PrintfSignature.StarsComeFirst` | src/localization/Localization.cpp:311-381 | Width and precision to be looked up are ints that come before the value. |
| `PrintfSignature.NumbersFromOne` | src/localization/Localization.cpp:273-303 | Numbered conversions name their arguments from one, whatever their order in the pattern. |
| `Navigation.Navigator.Apply` | src/app/AppActions.cpp:155-165 | Showing an address moves cursor and scroll target, clears the restore point and the keyboard line, asks the engine once, and leaves the history alone. |
| `Navigation.Navigator.Reset` | src/app/AppActions.cpp:167-180 | The history is empty and the keyboard state is cleared; the cursor stays. |
| `Navigation.Navigator.Follow` | src/app/AppActions.cpp:182-204 | The history becomes the last 256 of the entries up to the current one, brought up to date, and the target. |
| `Navigation.Navigator.Enter` | src/app/AppActions.cpp:196-202 | A full history drops its oldest entry first. |
| `Navigation.FollowedInBounds` | src/app/AppActions.cpp:182-204 | The index stays inside a history of at most 256 entries, at its end after a jump; the address followed is shown without a line. |
| `Navigation.LandingIsNearest` | src/app/AppActions.cpp:215-228 | The entry landed on is the nearest one in the direction that is executable and not at the cursor; without one there is none. |
| `Navigation.LandingRestored` | src/app/AppActions.cpp:206-236 | After a move the restored source position is the entry landed on when it has a function and a line, and none otherwise. |
| `Navigation.Navigator.Traverse` | src/app/AppActions.cpp:206-236 | Nothing unless stopped with a history; else the current entry is brought up to date and cursor, index and restore point move to the nearest entry that can be shown, if any. |
| `Navigation.TraversedInBounds` | src/app/AppActions.cpp:206-236 | Traversal keeps the number of entries and the index in range, and moves to executable addresses only. |
| `Navigation.ThereAndBack` | src/app/AppActions.cpp:206-236 | A move in one direction followed by one in the other restores the cursor exactly when the address left is executable, however many entries are skipped; it comes back to the very entry left exactly when no entry passed over has its address, and then to its source position too. |
| `Navigation.RunInBounds` | src/app/AppActions.cpp:167-236 | Over every run of selections, jumps, traversals and resets from an empty history, the index stays inside at most 256 entries. |
| `Navigation.RunJumpBack` | src/app/AppActions.cpp:182-236 | Anywhere in a run, going back after a jump restores the address left whenever it is executable, and with it the source position that was restored or selected there. |
| `Navigation.Navigator.Nearest` | src/app/AppActions.cpp:215-228 | The search finds that entry. |
| `Navigation.FollowThenBack` | src/app/AppActions.cpp:182-236 | Back after following an address returns to the address left and to its source position, also when the history was full. |
| `HexText.FieldsJoin` | src/app/AppActions.cpp:35-62 | A separator splits the tokens of a text. |
| `HexText.ParseHexByteText` | src/app/AppActions.cpp:31-65 | The bytes of all tokens in order, or nothing when a token is malformed or there is none. |
| `HexText.BytesAsHex` | src/app/AppActions.cpp:17-29 | Two lower-case digits a byte, separated by spaces; a non-empty list is read back unchanged. |
| `HexText.ListedRoundTrip` | src/app/AppActions.cpp:31-65 | Any listing of bytes with an optional 0x prefix, either case and any separators is read back. |
| `HexText.ParseValue` | src/app/AppActions.cpp:67-83 | The number spelled after leading spaces, decimal or hexadecimal by prefix, in full and within 64 bits. |
| `HexText.PointerAt` | src/app/AppActions.cpp:113-133 | The word of the target's width at an offset in the target's byte order, if it lies in the captured memory. |
| `HexText.FormatMemoryInteger` | src/app/MemoryData.cpp:114-131 | Two digits a byte, most significant first, for 1 to 8 bytes and an explicit order. |
| `HexText.IntegerRoundTrip` | src/app/MemoryData.cpp:114-131 | Reading back the formatted integer gives the word that the same bytes hold in that order. |
| `HexText.ReversedWordsAt` | src/app/MemoryData.cpp:105-109 | The index formula stays in bounds and picks the bytes of each word back to front. |
| `HexText.ReversedWordsTwice` | src/app/MemoryData.cpp:105-109 | Converting the byte order twice restores the bytes. |
| `HexText.ReversedWordAt` | src/app/MemoryData.cpp:105-109 | Reversing words reverses each complete word in its place. |
| `HexText.ConvertedWords` | src/app/MemoryData.cpp:97-106 | Read in the order asked for, each complete converted word is the word that the target holds; bytes wanted as stored stay as they are. |
| `HexText.DecimalValue` | src/app/MemoryData.cpp:74-82 | The decimal size reads back as the number. |
| `HexText.FormatMemoryBytes` | src/app/MemoryData.cpp:35-112 | Formats exactly when there are bytes, the word size is 1, 2, 4 or 8, and words that need an order are complete and the target's order is known; the text is opening, converted bytes and closing of the format. |
| `HexText.HexFormatRoundTrip` | src/app/MemoryData.cpp:17-112 | The hexadecimal format is read back as the converted bytes, and converting those restores the original. |

## Left out

- Drawing, hit testing, zooming, tooltips and menus; fonts and text measurement are parameters.
- The debugger backend, the emulator and the disassembler: their results are parameters, and which registers and flags an instruction may depend on (`required_state`, undefined flags) is one of the ways a turn can fail.
- Segment-base registers that the recorder adds to the register set while it runs.
- The slot role marking of the ROP panel (return target, data, first cursor), its annotations and its layout.
- The labels of external and unresolved edges: their end points are offset by edge index and may leave the gutter, so no clearance is claimed for them.
- The suite, delimiter and soft-keyword decisions of the Python indenter; only its columns and its indentation text are modelled.
- The catalog file parser, integer macro expansion and message formatting.
- Input dialogs around the navigation history, and its dialog and dispatch flags.
- The maximum string size test of the clipboard formatter.
- Pointer identity in the comparison of cached debug scopes: comparing an object with itself is skipped by the program and has the same outcome as comparing it in full.
- Standard library sorting and searching are written out as a stable insertion sort and a binary search; a hash map of block addresses is a map.
- Floating-point rounding of card coordinates: coordinates are exact real numbers.
- The permission bits given to the emulator for a mapped page: every access is checked against its region before it is carried out.
- Stores that the access hook refuses are never carried out here; the program stops the emulator and rolls the instruction back, so none is ever visible.
- The trace header, its initial registers and its stack slots as the reader sees them; what they cost is a parameter of the reader of the nodes, the part with running budgets.
- RopTrace.Recorder.Run: which interruption strikes is open, because cancellation, the deadline and a moved target can strike at any check; a script that is used up ends a run like its deadline.
- PresentationCache.Cache.Present: the row maker is any deterministic function that shows nothing for a blank row; `MakePresentation` is proved to show nothing for one, but its spans are specified by what each byte shows, not as a function.
- Bit masks: the known bytes of a slot are a set of offsets, and masking or shifting a word is arithmetic on it; so are the shifts of the UTF-8 encoder and validator.
- DisassemblyText.NextToken: which words are registers and which are numbers is a parameter, so the kind of a word is stated relative to those tables.
- The interleaving of reading a conversion and recording its argument uses: they are collected and then recorded in order, and every failure of either is the same failure.
- Snapshots that change rows without changing revision or row count: the cache relies on there being none, as the program does.
