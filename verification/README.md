# libink core, modelled in Dafny

libink is a small C++ utility library. This project models its sequential
core as pure Dafny functions over immutable datatypes, and proves what the
library promises about each piece:

- **TimerWheel** (`timer_wheel.dfy`): the single-level timing wheel. Nodes
  are indices into a caller-owned slab of `TimerNode`s, and the slot heads
  and `prev`/`next`/`slotIndex` links are modelled as in the source. A
  proof-side partition of the slab into groups ties the links to the
  lists they spell. `update`, `unlink`, `tick`, `processExpired` and
  `timeToNextTickMillis` are modelled. The clock is a parameter.
- **RingBuffer** (`ring_buffer.dfy`): the bounded byte FIFO. It covers
  wrap-around `read`/`write`, the zero-copy windows, the clamped position
  advances and `clear`. Its meaning is the sequence of waiting bytes,
  `Contents`.
- **InkedList** (`inked_list.dfy`): the doubly-linked list as a sequence
  with a count. **InkixTree** (`inkix_tree.dfy`): the compressed prefix
  tree, with `insert` (including node splitting) and `get`.
- **ArgParser** (`arg_parser.dfy`): `argsToString`, `add_argument`,
  `extract_value` and `parse_args`.
- **Inkogger** (`inkogger.dfy`): the logger's level filter, level names and
  colours, file-name extraction, line formatting, ANSI stripping, the
  `LogStream` dispatch and the `LogManager` registry.
- **EnhancedJson** (`enhanced_json.dfy`): the path, merge, query and schema
  operations over a JSON datatype.
- **WStrings** and **InkString** (`wstring.dfy`, `ink_string.dfy`): the two
  small-string-optimised strings and the FNV-1a hash. The C-string helpers
  they share (`strcmp`, `tolower`) live in **CString** (`c_string.dfy`).
- **Arena** and **ObjectPool** (`arena.dfy`, `object_pool.dfy`): the
  bump-pointer arena and the doubling free-list pool. Addresses are
  naturals, and where memory is mapped is a parameter.
- **InkType** (`ink_type.dfy`): the tagged value. **InkException**
  (`ink_exception.dfy`): the context map and the layout of the full
  message. **InkBase** and **InkFlags** (`ink_base.dfy`): the base macros.
  **Utils** (`utils.dfy`): `cto_int`.
- **Text** (`text.dfy`) and **Wrappers** (`wrappers.dfy`) are shared
  helpers. Text holds `std::string::find`/`find_first_of` and decimal
  printing; Wrappers holds `Option`/`Result`.

Unsigned C++ arithmetic is written out where it can wrap. This covers:

- the `u32` slot sum and the `u64` tick arithmetic of the wheel;
- `size_t` capacities;
- the FNV multiply;
- the 64-bit align-up.

## Model

| member | source | states |
|---|---|---|
| TimerWheel.NewWheel | src/TimerWheel.cpp:7-14 | A new wheel has the requested number of slots, all empty, cursor 0 and last tick at the given time. |
| TimerWheel.NewWheelValid | include/ink/TimerWheel.h:9-13 | Over a slab of default nodes (no links, slot 0), a fresh wheel satisfies the wheel invariant: every slot list is empty and every node stands alone. |
| TimerWheel.FreshSlots | src/TimerWheel.cpp:10-13 | Following `next` from an empty slot head reaches no node. |
| TimerWheel.TargetSlot | src/TimerWheel.cpp:24-25 | The slot `update` files into lies inside the wheel and, absent `u32` overflow, is the slot one full turn behind the cursor. |
| TimerWheel.Unlink | src/TimerWheel.cpp:39-57 | `unlink` keeps slab and wheel well formed and leaves the cursor, last tick and wheel size alone. |
| TimerWheel.UnlinkSpec | src/TimerWheel.cpp:41-56 | Under the invariant, `unlink` either changes nothing (a node with no links that heads no slot) or does all of the following: removes exactly that node from its list, keeps the order of the rest, advances the slot head when the node was the head, clears the node's links, and touches no node except it and its two neighbours. |
| TimerWheel.Update | src/TimerWheel.cpp:16-37 | `update` keeps slab and wheel well formed and leaves the cursor, last tick and wheel size alone. |
| TimerWheel.Push | src/TimerWheel.cpp:28-36 | The node becomes the head of the slot one turn behind the cursor and records that slot; the wheel stays well formed and its cursor, last tick and size stay. |
| TimerWheel.UpdateSpec | src/TimerWheel.cpp:16-37 | Whatever list the node was in, afterwards it heads the slot one turn behind the cursor with no `prev`. Every other list keeps its order, and only the node, its old neighbours and the old target head are touched. |
| TimerWheel.UpdatePlacesOnce | src/TimerWheel.cpp:19-36 | After `update` the node occurs exactly once across all slot lists, as the head of the target slot. |
| TimerWheel.Tick | src/TimerWheel.cpp:59-69 | `tick` returns the old head under the cursor, empties that slot, moves the cursor on by one modulo the size, adds one tick length to the last tick in `u64` arithmetic, and leaves the other slots alone. |
| TimerWheel.TickValid | src/TimerWheel.cpp:59-69 | `tick` keeps the wheel invariant; the handed-out list becomes a detached chain. |
| TimerWheel.TickSpec | src/TimerWheel.cpp:62-65 | Following `next` from the returned head visits exactly the list that was under the cursor, in order, and that slot is now empty. |
| TimerWheel.TimeToNextTick | src/TimerWheel.cpp:71-80 | The result is 0 once a full tick has elapsed, otherwise the remaining part of the tick. A clock behind the last tick by at most 2^64 − 1000 wraps in `u64` to a full tick and also yields 0; one behind by more than that is within 1000 of wrapping round and yields the remaining part of the tick. |
| TimerWheel.UpdateThenTicks | src/TimerWheel.cpp:24-25 | A node updated with the cursor at `c` is handed out by the n-th following tick and by none of the n − 1 ticks before it. |
| TimerWheel.TicksHeads | src/TimerWheel.cpp:62-66 | Within one turn, successive ticks hand out the present slot heads one slot after another from the cursor. |
| TimerWheel.TicksFromSlot | src/TimerWheel.cpp:62-66 | A node heading the slot one turn behind the cursor is handed out only by the last of the next n ticks. |
| TimerWheel.ProcessExpired | include/ink/TimerWheel.h:31-47 | For a callback that re-arms the node it is handed or leaves it alone: the callback is handed exactly the old list under the cursor, head first, and cursor and last tick move on once. Afterwards the wheel is valid again: the target slot holds the re-armed nodes (latest first) in front of what the tick left there, and nodes left alone have no links. |
| TimerWheel.ExpireChain | include/ink/TimerWheel.h:37-46 | For a callback that re-arms the node it is handed or leaves it alone: the walk visits exactly the handed-out chain, in order, even when nodes are re-armed, because the successor is read before the callback runs. The wheel ends valid, with the re-armed nodes at the front of the target slot and the other nodes unlinked. |
| TimerWheel.ClearSpec | include/ink/TimerWheel.h:40-41 | Clearing the first node's links detaches it alone and leaves the rest of the chain linked. |
| TimerWheel.RearmSlot | src/TimerWheel.cpp:24-25 | Right after a tick at `c`, `update` files into slot `c` itself, so re-armed nodes return to the slot just emptied. |
| TimerWheel.Perform | include/ink/TimerWheel.h:44 | Whatever `update` and `unlink` calls a callback makes, in order, the slab and wheel stay well formed and cursor, last tick and wheel size stay. |
| TimerWheel.WalkFrom | include/ink/TimerWheel.h:36-46 | The walk with an arbitrary callback keeps slab and wheel well formed and hands out only slab nodes, at most one per round. It hands out nothing and finishes iff the list is empty; otherwise the head comes first. |
| TimerWheel.ProcessExpiredWith | include/ink/TimerWheel.h:31-47 | `processExpired` with an arbitrary callback moves cursor and last tick on once. Nothing is handed out, and the walk finishes, iff the slot under the cursor was empty; otherwise its head is handed out first. |
| TimerWheel.WalkRearmStep | include/ink/TimerWheel.h:38-46 | One round of the general walk with a re-arm-or-leave callback is the round `ExpireChain` makes: clear the links, re-arm or not, go on to the saved successor. |
| TimerWheel.ExpiringThreaded | include/ink/TimerWheel.h:36-46 | While the handed-out list is walked, each node's `next`, read before the callback runs, names the following node of the list; handling the rest in turn leaves the state the loop ends in. |
| TimerWheel.WalkThreaded | include/ink/TimerWheel.h:36-46 | Along such a list the general walk with a re-arm-or-leave callback hands out exactly the list, in order, finishes, and ends where handling the nodes in turn ends. |
| TimerWheel.WalkFollowsChain | include/ink/TimerWheel.h:36-46 | From the state the tick leaves, the general walk with a re-arm-or-leave callback hands out exactly the expired list and ends in a state `ExpireChain` promises. |
| TimerWheel.ProcessExpiredAgrees | include/ink/TimerWheel.h:31-47 | The general `processExpired`, given a re-arm-or-leave callback, keeps the promises of ProcessExpired: exactly the old list under the cursor is handed out, and the wheel ends valid with the re-armed nodes in front of the target slot. |
| TimerWheel.UnlinkSuccessorLosesNode | include/ink/TimerWheel.h:38-46 | A callback that unlinks the saved successor cuts the walk short: on the list 0, 1, 2, unlinking 1 while 0 is handled hands out 0 and 1 only, and no slot holds 2 afterwards. |
| TimerWheel.RearmSuccessorRevisits | include/ink/TimerWheel.h:38-46 | A callback that re-arms the saved successor makes the walk come back: on the list 0, 1, re-arming 0 and then 1 while 0 is handled hands out 0, 1 and then 0 again. |
| TimerWheel.RevisitTail | include/ink/TimerWheel.h:38-46 | The last two rounds of that walk: from the list 1, 0 it hands out 1, then 0, and finishes. |
| RingBuffer.New | src/RingBuffer.cpp:5-13 | A new buffer of positive capacity is valid and holds no waiting bytes. |
| RingBuffer.Size | include/ink/RingBuffer.h:39 | `size()`. Characterised by AccessorsSpec. |
| RingBuffer.Capacity | include/ink/RingBuffer.h:40 | `capacity()`. Characterised by AccessorsSpec. |
| RingBuffer.Full | include/ink/RingBuffer.h:42 | `full()`. Characterised by AccessorsSpec. |
| RingBuffer.AccessorsSpec | include/ink/RingBuffer.h:39-42 | `size() <= capacity()`; `empty()` iff nothing waits; `full()` iff the waiting bytes fill the capacity. |
| RingBuffer.Read | src/RingBuffer.cpp:20-44 | `read` returns nothing for `maxLen = 0` or an empty buffer, else min(maxLen, size) bytes. They are the oldest waiting bytes, they stop waiting, and the invariant holds after. |
| RingBuffer.Write | src/RingBuffer.cpp:46-71 | `write` stores nothing for empty data or a full buffer, else min(len, free space) bytes. The waiting bytes become the old ones followed by that prefix of the data, and the invariant holds after. |
| RingBuffer.WriteThenRead | src/RingBuffer.cpp:26-67 | After a `write`, a `read` returns the old waiting bytes followed by the written part of the data, in order across the wrap point, and leaves the buffer empty. |
| RingBuffer.ConsumeSpec | src/RingBuffer.cpp:30-43 | Moving the read position on by `n` (wrapping) and shrinking the size by `n` drops exactly the oldest `n` waiting bytes and keeps the invariant. |
| RingBuffer.ProduceSpec | src/RingBuffer.cpp:54-70 | Storing `n` bytes behind the waiting ones and moving the write position on (wrapping) appends exactly them and keeps the invariant. |
| RingBuffer.StoredTwoPieces | src/RingBuffer.cpp:59-67 | The two-piece copy past the end of the buffer stores each new byte at its wrapped position behind the waiting ones. |
| RingBuffer.GetReadBuffer | src/RingBuffer.cpp:73-86 | An empty buffer gives a null window of 0 bytes. Otherwise the window starts at the read position, holds 0 < count ≤ size bytes, and those are the oldest waiting bytes. |
| RingBuffer.GetWriteBuffer | src/RingBuffer.cpp:88-101 | A full buffer gives a null window of 0 bytes. Otherwise the window starts at the write position, holds 0 < count ≤ free space bytes, and stays inside the buffer. |
| RingBuffer.AdvanceReadPos | src/RingBuffer.cpp:103-108 | Drops min(len, size) oldest waiting bytes, keeping the invariant. |
| RingBuffer.AdvanceWritePos | src/RingBuffer.cpp:111-116 | Makes min(len, free space) bytes behind the waiting ones wait too, keeping the invariant. |
| RingBuffer.Clear | src/RingBuffer.cpp:119-124 | Both positions and the size go back to 0, leaving nothing waiting. |
| RingBuffer.FillThenAdvance | src/RingBuffer.cpp:88-116 | Filling the write window and advancing by the bytes filled appends exactly those bytes, with the same effect as `write`. |
| RingBuffer.WindowThenAdvance | src/RingBuffer.cpp:73-108 | The read window holds what `read` of that many bytes returns, and advancing past it has the effect of that `read`. |
| InkedList.Length | include/ink/InkedList.h:79 | `length()`: the count field. Characterised by the push, pop, insert and remove contracts, which state how it changes. |
| InkedList.Empty | include/ink/InkedList.h:23-26 | The default list is valid and holds nothing. |
| InkedList.Single | include/ink/InkedList.h:29-39 | The one-element list is valid and holds exactly that element. |
| InkedList.PushBack | include/ink/InkedList.h:79-113 | `push_back` appends the element after the old ones; the length grows by one. |
| InkedList.Enqueue | include/ink/InkedList.h:115-147 | `enqueue` puts the element in front of the old ones; the length grows by one. |
| InkedList.PopFront | include/ink/InkedList.h:149-167 | On an empty list it fails and changes nothing. Otherwise it succeeds, hands back the first element and removes exactly it. |
| InkedList.PopBack | include/ink/InkedList.h:169-188 | On an empty list it fails and changes nothing. Otherwise it succeeds, hands back the last element and removes exactly it. |
| InkedList.Insert | include/ink/InkedList.h:190-240 | The element lands at the front for index 0 or an empty list, at the back for an index at or past the end, else at the index. Taking it out again gives the old list. |
| InkedList.RemoveIdx | include/ink/InkedList.h:242-262 | Fails, changing nothing, iff the index is at or past the end; otherwise deletes exactly the element at the index. |
| InkedList.RemoveData | include/ink/InkedList.h:264-295 | Fails, changing nothing, iff no element equals `x`. Otherwise it deletes exactly one position holding `x`: the root, else the tail, else the first interior match. |
| InkedList.ChosenUnique | include/ink/InkedList.h:266-292 | The preference order names at most one position. |
| InkedList.PushBackThenPopBack | include/ink/InkedList.h:81-188 | `pop_back` after `push_back(x)` returns `x` and restores the list. |
| InkedList.EnqueueThenPopFront | include/ink/InkedList.h:115-167 | `pop_front` after `enqueue(x)` returns `x` and restores the list. |
| InkedList.InsertThenRemove | include/ink/InkedList.h:190-262 | `remove_idx` at the position `insert` used undoes the insertion. |
| InkedList.RemoveDataCount | include/ink/InkedList.h:264-295 | Deleting one position takes out one occurrence of its element and nothing else (as multisets). |
| InkixTree.CommonPrefixLen | src/InkixTree.cpp:112-119 | The result is at most both lengths, both strings agree below it, and they differ at it unless one has ended: the longest common prefix. |
| InkixTree.FindChild | src/InkixTree.cpp:15-18 | Finds the first child whose non-empty label starts with the character, and nothing when none does. |
| InkixTree.RootWellFormed | src/InkixTree.cpp:5-7 | The root has an empty label, is not terminal, and is well formed. |
| InkixTree.Insert | src/InkixTree.cpp:43-110 | `insert` keeps the node's own label and terminal mark, and an empty key changes nothing. |
| InkixTree.Split | src/InkixTree.cpp:84-108 | The split node carries the common prefix, and it is terminal exactly when the key ends there. |
| InkixTree.InsertMember | src/InkixTree.cpp:43-110 | After inserting a non-empty key, the stored words are exactly the old ones plus that key. |
| InkixTree.LeafMember | src/InkixTree.cpp:56-60 | A new terminal leaf stores exactly its own label. |
| InkixTree.DescendVia | src/InkixTree.cpp:69-81 | Descending into a child whose label is a prefix of the key (marking it terminal when the key ends) adds exactly the key to what that child stores. |
| InkixTree.SplitVia | src/InkixTree.cpp:84-108 | The split keeps every word the old child stored and adds exactly the key. |
| InkixTree.InsertWellFormed | src/InkixTree.cpp:50-108 | `insert` keeps every label below the root non-empty and sibling first characters pairwise distinct. |
| InkixTree.SplitWellFormed | src/InkixTree.cpp:84-108 | A split of a well-formed child is well formed. |
| InkixTree.Get | src/InkixTree.cpp:9-41 | A non-empty answer of `get` is a suffix of the key: the label of the node where the key runs out. |
| InkixTree.GetSpells | src/InkixTree.cpp:9-41 | A non-empty answer means the key is spelled by a path of labels from the node, and the answer is the last label on it. |
| InkixTree.SpelledGets | src/InkixTree.cpp:9-41 | Conversely, when the key is spelled by a path of labels, `get` returns that path's last label, which is non-empty. |
| InkixTree.GetIffSpelled | src/InkixTree.cpp:9-41 | `get` is non-empty iff the key is spelled by a path of labels, and then it names the one last label any such path can end with. |
| InkixTree.InsertThenGet | src/InkixTree.cpp:9-110 | After inserting a non-empty key, `get` on it returns a non-empty label that ends the key. |
| InkixTree.GetNewLeaf | src/InkixTree.cpp:21-24 | When no child starts with the key, `get` after `insert` returns the whole key, the label of the new leaf. |
| ArgParser.NewParser | src/ArgParser.cpp:8-13 | A new parser is valid and has nothing registered. |
| ArgParser.ArgsToString | src/ArgParser.cpp:15-22 | The result is empty iff there is at most the program name, and otherwise ends in a space. |
| ArgParser.ArgsToStringSnoc | src/ArgParser.cpp:18-20 | One more argument appends that argument and one space, and changes nothing before it. |
| ArgParser.ArgsToStringLoop | src/ArgParser.cpp:15-22 | The loop as written, from index 1, computes the joined arguments. |
| ArgParser.AddArgument | src/ArgParser.cpp:24-34 | Corrected member of the ArgParser finding. Registration is refused iff the description is not part of the long id or is already registered. Otherwise the argument is recorded under its description and nothing else changes. |
| ArgParser.AddLongArgument | src/ArgParser.cpp:36-45 | The overload without a short id is the full one with an empty short id. |
| ArgParser.AddTwiceRefused | src/ArgParser.cpp:31-33 | A description registers once; a second registration is refused. |
| ArgParser.AddArgumentAsWritten | src/ArgParser.cpp:31-32 | The guards as written throw when the description IS part of the long id, or when it is NOT yet registered. |
| ArgParser.AsWrittenRejectsFirst | src/ArgParser.cpp:31-32 | Under the guards as written, every registration on a fresh parser throws. |
| ArgParser.AsWrittenRejectsPort | src/ArgParser.cpp:31-32 | As-written member of the ArgParser finding: the guards as written refuse `--port` with description `port` on a fresh parser. |
| ArgParser.ValueStart | src/ArgParser.cpp:49-63 | The value starts at or after the position and within the text. Everything skipped is a space or '=', at most one '=' is skipped, and the value does not start with a space. When the value starts right after an '=', that '=' was among the skipped characters. |
| ArgParser.ExtractAfterEquals | src/ArgParser.cpp:49-83 | A plain value joined to its flag by '=' and ended by a space comes back whole: `--port=8080 ...` yields `8080`. |
| ArgParser.ExtractValue | src/ArgParser.cpp:47-84 | The value is never longer than what follows the position. |
| ArgParser.ExtractValueSpec | src/ArgParser.cpp:47-84 | The value is "" when only spaces and '=' follow. A value opening with `"` or `'` is the text up to the next identical quote or the end. Any other value is the text up to the first space, tab or newline, or the end. |
| ArgParser.ValueFromSpec | src/ArgParser.cpp:65-83 | A value stops at its matching quote, or at the first space, tab or newline. |
| ArgParser.ExtractQuoted | src/ArgParser.cpp:65-75 | A quoted value comes back without its quotes, spaces included. |
| ArgParser.ExtractPlain | src/ArgParser.cpp:77-83 | A plain value after a flag and a space comes back whole. |
| ArgParser.FoundPos | src/ArgParser.cpp:103-117 | The value is looked for right after the first occurrence of the long id, or else of a non-empty short id. |
| ArgParser.FoundValuePrecedence | src/ArgParser.cpp:103-117 | A found long id wins over the short id, and an empty short id is never searched. |
| ArgParser.Decide | src/ArgParser.cpp:119-124 | A non-empty value is kept; else a non-empty default of an optional argument; else a required argument is lacking; else the argument is absent. |
| ArgParser.Collect | src/ArgParser.cpp:92-125 | The parse loop over the registry in a given order. Characterised by CollectLacking and ParseArgsRules. |
| ArgParser.CollectLacking | src/ArgParser.cpp:119-140 | The list of lacking long ids names every required argument not found, and nothing else. |
| ArgParser.ParseArgs | src/ArgParser.cpp:86-143 | `parse_args` succeeds iff no registered argument is lacking. On success, a description has a result exactly when a value or an optional default applies, and the result is that value. On failure, the message starts "Missing required arguments: ". |
| ArgParser.ParseArgsRules | src/ArgParser.cpp:119-124 | For each registered argument, the result follows the decision rules above. |
| ArgParser.ParsePortFromArgv | src/ArgParser.cpp:15-143 | Uses the corrected member of the ArgParser finding. A required `--port` given on the command line comes back under its description with the typed value. |
| Inkogger.FromValue | include/ink/Inkogger.h:25-35 | A number names a level iff it is below COUNT (8), and the level named has that value. |
| Inkogger.ValuesAreACode | include/ink/Inkogger.h:25-35 | Two levels with the same value are the same level, and each level's value maps back to it. |
| Inkogger.NewLogger | src/Inkogger.cpp:10-13 | A new logger has level INFO, colours on and no file. |
| Inkogger.SetLevel | src/Inkogger.cpp:23-26 | Only the level changes. |
| Inkogger.SetUseColors | src/Inkogger.cpp:159-162 | Only the colour switch changes. |
| Inkogger.LevelString | src/Inkogger.cpp:49-62 | `getLevelString`: the level's name. Characterised by MetadataAgrees. |
| Inkogger.MetadataAgrees | include/ink/Inkogger.h:64-73 | The colour table has COUNT entries. Each level's entry carries the name `getLevelString` gives and the colour `getColorForLevel` gives; OFF's colour is "". |
| Inkogger.ColorFor | src/Inkogger.cpp:33-47 | With colours off the colour is "". |
| Inkogger.IsEnabledAsWritten | src/Inkogger.cpp:28-31 | `isEnabled` as written, `level >= m_Level`. Characterised by AsWrittenDropsErrors and FiltersDisagree. |
| Inkogger.IsEnabled | src/Inkogger.cpp:28-31 | The corrected filter. Characterised by SeverityThreshold and FiltersDisagree. |
| Inkogger.SeverityThreshold | src/Inkogger.cpp:28-31 | The filter passes the configured level and everything more severe, nothing less severe. A new logger passes FATAL through INFO only. |
| Inkogger.AsWrittenDropsErrors | src/Inkogger.cpp:28-31 | The comparison as written passes TRACE and drops ERROR and FATAL on a new logger. |
| Inkogger.FiltersDisagree | src/Inkogger.cpp:28-31 | The written and the corrected filter agree on passing a message only at the configured level itself. |
| Inkogger.BaseName | src/Inkogger.cpp:81-90 | The displayed file name is a suffix of the path. |
| Inkogger.BaseNameSpec | src/Inkogger.cpp:81-90 | The displayed file name holds no '/'. It holds no '\\' when the path has no '/', and it is the whole path when the path has neither. |
| Inkogger.BaseNameOfJoin | src/Inkogger.cpp:81-90 | For a directory joined to a plain name by '/' (or by '\\' with no '/' anywhere), the display is the plain name. |
| Inkogger.Trailer | src/Inkogger.cpp:102-111 | The name, message, file and line part of a log line adds no escape character of its own. |
| Inkogger.SearchesAreFind | src/Inkogger.cpp:124-133 | The two searches of the strip loop are `find("\033[", from)` and `find('m', from)`. |
| Inkogger.StripAnsiLoop | src/Inkogger.cpp:124-133 | The loop as written computes the stripping function. |
| Inkogger.FormatLine | src/Inkogger.cpp:96-111 | The `snprintf` line `[ts] colour[LEVEL]reset [name]: message (file:line)`. Defined by its body; characterised by StripColoursOnly, Trailer and Emit. |
| Inkogger.StripAnsi | src/Inkogger.cpp:124-133 | The colour-stripping loop's result. Characterised by StripAnsiLoop, StripAnsiStripped, StripIdempotent and StripNoEsc. |
| Inkogger.StripAnsiStripped | src/Inkogger.cpp:124-133 | After stripping, no "\033[" remains unless the first one has no following 'm'. |
| Inkogger.StripIdempotent | src/Inkogger.cpp:124-133 | Stripping twice is stripping once. |
| Inkogger.StripNoEsc | src/Inkogger.cpp:124-133 | Text without an escape character is left as it is. |
| Inkogger.StripColourCode | src/Inkogger.cpp:124-133 | A colour code at the front is erased whole. |
| Inkogger.StripAfterPlain | src/Inkogger.cpp:124-133 | Plain text in front passes through untouched. |
| Inkogger.Emit | src/Inkogger.cpp:92-138 | A formatted line goes to the console iff it fits the 4096-byte buffer, and to the file iff it went to the console and file logging is on. The console receives the formatted line and a newline; the file receives the same line with its ANSI colour sequences stripped, and a newline. |
| Inkogger.Log | src/Inkogger.cpp:76-138 | As written: a level the written filter drops produces nothing; anything written passed the written filter and fits the buffer, and the file copy appears only with file logging on. The console text is the formatted line and a newline; the file text is that line with colours stripped, and a newline. |
| Inkogger.LogCorrected | src/Inkogger.cpp:76-138 | With the corrected filter: a level below the configured severity produces nothing; anything written passed the severity threshold and fits the buffer, and the file copy appears only with file logging on. The console text is the formatted line and a newline; the file text is that line with colours stripped, and a newline. |
| Inkogger.LogsDisagree | src/Inkogger.cpp:28-31 | On a new logger, `log` as written drops an ERROR message the corrected one prints and prints a TRACE message the corrected one drops; at the configured level both print the same. |
| Inkogger.ColourlessCopiesAgree | src/Inkogger.cpp:113-137 | With colours off and no escape byte in the parts, the file receives exactly the text the console receives. |
| Inkogger.StripColoursOnly | src/Inkogger.cpp:102-133 | Stripping a formatted line yields the same line formatted with colours off. |
| Inkogger.FileLineIsColourless | src/Inkogger.cpp:113-137 | The file copy of a log line is the colourless format of the line plus a newline. |
| Inkogger.StreamFlush | include/ink/Inkogger.h:116-121 | A stream at OFF calls the unlocated `log`; any other level calls the `log` with file and line; level and text are passed on. |
| Inkogger.GetLogger | src/Inkogger.cpp:165-185 | The returned logger carries the name and is registered under it. The global settings are unchanged, and registry validity is kept. |
| Inkogger.GetLoggerCaches | src/Inkogger.cpp:165-185 | A known name returns the cached logger and changes nothing. A new name gets the global level and colours, file logging only with a global path, and is then cached. |
| Inkogger.SetGlobalLevel | src/Inkogger.cpp:187-195 | The global level and every registered logger's level become the new level; nothing else changes. |
| Inkogger.SetGlobalUseColors | src/Inkogger.cpp:208-217 | The global colour switch and every registered logger's switch take the new value; nothing else changes. |
| Inkogger.SetGlobalLevelReachesAll | src/Inkogger.cpp:165-195 | After `setGlobalLevel`, every logger `getLogger` returns, old or new, has that level. |
| Inkogger.DefaultManagerGivesNewLogger | include/ink/Inkogger.h:155-157 | With the manager's defaults, `getLogger` gives the same settings as the logger constructor. |
| Utils.CtoInt | src/utils.cpp:30-39 | The result lies in [−1, 9]. It is non-negative iff the character is a decimal digit, which it then spells; otherwise it is −1. |
| Utils.CtoIntOfDigitChar | src/utils.cpp:32-34 | Every digit value comes back from the character that spells it. |
| EnhancedJson.Has | include/vac/EnhancedJson.h:230-232 | `has(key)`: the value is an object holding the key. Defined by its body; characterised by Get and RemoveKey, whose contracts use it. |
| EnhancedJson.GetPath | include/vac/EnhancedJson.h:178-223 | `getPath`: dotted path walk with numeric segments indexing arrays, falling back to the default. Defined by its body; characterised by GetPathHasPath and SetThenGet. |
| EnhancedJson.HasPath | include/vac/EnhancedJson.h:239-278 | `hasPath`: the same walk, answering whether it reaches a value. Defined by its body; characterised by GetPathHasPath and RemovePathSpec. |
| EnhancedJson.Get | include/vac/EnhancedJson.h:79-89 | The member under the key of an object holding it, else the default. |
| EnhancedJson.GetIndex | include/vac/EnhancedJson.h:111-121 | The element of an array at an index in range, else the default. |
| EnhancedJson.StoUl | include/vac/EnhancedJson.h:135-159 | A segment `stoul` accepts starts with a digit and has a value in the unsigned range; one not starting with a digit is rejected. |
| EnhancedJson.GetPathHasPath | include/vac/EnhancedJson.h:178-278 | Where `hasPath` holds, `getPath` ignores the default; where it fails, `getPath` returns the default. |
| EnhancedJson.NumericKeyUnreachable | include/vac/EnhancedJson.h:184-191 | A numeric segment never reaches an object member: "1" on {"1": v} is missing. |
| EnhancedJson.SetPath | include/vac/EnhancedJson.h:429-461 | `setPath` always leaves an object. |
| EnhancedJson.SetThenGet | include/vac/EnhancedJson.h:429-461 | On a path with no numeric segment, what `setPath` writes `getPath` reads back, and `hasPath` holds. |
| EnhancedJson.SetPathFrame | include/vac/EnhancedJson.h:429-461 | Top-level members off the path are untouched. |
| EnhancedJson.RemoveKey | include/vac/EnhancedJson.h:516-523 | Succeeds iff an object holds the key, and then erases exactly that member; otherwise nothing changes. |
| EnhancedJson.RemovePath | include/vac/EnhancedJson.h:530-551 | A failed `removePath` changes nothing. |
| EnhancedJson.RemovePathSpec | include/vac/EnhancedJson.h:530-551 | On a key path, `removePath` succeeds iff `hasPath` held, and afterwards the path is gone. |
| EnhancedJson.SetThenRemove | include/vac/EnhancedJson.h:429-551 | A path just set can be removed. |
| EnhancedJson.Merge | include/vac/EnhancedJson.h:469-491 | Nothing changes unless both are objects. Then the keys are the union, one-sided keys keep their values, and a shared non-object pair takes the other's value iff overwriting. |
| EnhancedJson.MergeSelf | include/vac/EnhancedJson.h:469-491 | Merging an object into itself changes nothing. |
| EnhancedJson.MergeEmpty | include/vac/EnhancedJson.h:469-491 | Merging with an empty object, either way round, changes nothing. |
| EnhancedJson.Keys | include/vac/EnhancedJson.h:497-509 | An object's keys, each once, in increasing order; none for other values. |
| EnhancedJson.Filter | include/vac/EnhancedJson.h:289-304 | Always an array: empty for a non-array, else holding exactly the matching elements with their multiplicities. |
| EnhancedJson.FilterInOrder | include/vac/EnhancedJson.h:289-304 | Filtering keeps array order: filtering a + b gives the filtered a followed by the filtered b, and a single element is kept iff it matches. |
| EnhancedJson.FindFirst | include/vac/EnhancedJson.h:354-367 | When some element matches, the element at the first matching index (no earlier element matches); else null. |
| EnhancedJson.Any | include/vac/EnhancedJson.h:383-396 | `any`: false on a non-array. Defined by its body; characterised by QueriesAgree. |
| EnhancedJson.All | include/vac/EnhancedJson.h:403-416 | `all`: false on a non-array and on an empty array. Characterised by QueriesAgree. |
| EnhancedJson.QueriesAgree | include/vac/EnhancedJson.h:383-416 | `any` holds iff some element matches. `all` implies `any` (so it fails on an empty array), and under `all`, `filter` keeps everything. |
| EnhancedJson.IsValid | include/vac/EnhancedJson.h:562-613 | `isValid(schema)`: the type, required and properties checks, recursing into properties and items. Defined by its body; characterised by EmptySchema, TypeOnlySchema and MissingRequired. |
| EnhancedJson.EmptySchema | include/vac/EnhancedJson.h:562-570 | The empty schema accepts every value; a non-object schema accepts none. |
| EnhancedJson.TypeOnlySchema | include/vac/EnhancedJson.h:572-581 | A schema naming only a type accepts exactly the values of that kind. |
| EnhancedJson.MissingRequired | include/vac/EnhancedJson.h:584-597 | A listed property named in "required" and missing from the object makes it invalid. |
| WStrings.Default | src/WString.cpp:7-10 | The default string is valid, inline and empty. |
| WStrings.FromCStr | src/WString.cpp:13-34 | A null pointer gives the empty inline string. Text is inline iff shorter than 64 bytes, otherwise in a heap block of length + 1; the text is kept. |
| WStrings.Length | src/WString.cpp:273-276 | `length()`: the inline size byte or the heap size. Defined by its body; characterised by LengthWithinCapacity. |
| WStrings.Capacity | src/WString.cpp:278-280 | `capacity()`: 63 inline, else the block size less one. Characterised by LengthWithinCapacity. |
| WStrings.LengthWithinCapacity | src/WString.cpp:273-280 | The length never exceeds the capacity. An inline string reports capacity 63; a heap string's capacity equals its length. |
| WStrings.AssignIsConstruct | src/WString.cpp:67-98 | Assigning a C string that does not point into the string itself gives exactly what the constructor builds from it, whatever the string held before. |
| WStrings.Move | src/WString.cpp:42-59 | The destination gets the source's text. A heap source becomes the empty inline string; an inline source keeps its text. |
| WStrings.Equal | src/WString.cpp:137-149 | `operator==`: equal lengths, then `strcmp` over the two representations. Characterised by EqualIff. |
| WStrings.EqualIff | src/WString.cpp:137-149 | `==` holds iff the texts are equal, whatever the representations. |
| WStrings.Concat | src/WString.cpp:157-206 | The result's text is a ++ b, inline iff the total is under 64 bytes. |
| WStrings.Append | src/WString.cpp:209-253 | The text becomes a ++ b. The string stays inline only when it was inline and the total is under 64; otherwise it gets a block of total + 1. |
| WStrings.AppendAgreesWithConcat | src/WString.cpp:157-253 | `+=` and `+` give the same text; a heap string never returns inline. |
| WStrings.ToLower | src/WString.cpp:256-270 | Same length and representation, every byte lowered. |
| WStrings.MoveFromAsWritten | src/WString.cpp:53-57 | As written, the moved-from heap string keeps its stale inline size byte. |
| WStrings.MovedFromStaleLength | src/WString.cpp:53-57 | A string grown from "a" past 64 bytes and moved from reports length 1 with empty text. |
| InkString.New | src/String.cpp:8-14 | A new string is empty and inline. |
| InkString.FromCStr | src/String.cpp:16-42 | A null pointer gives the empty inline string. Text is inline iff shorter than the inline size, else in a heap block of length + 1; the text is kept. |
| InkString.Length | src/String.cpp:222-232 | `length()` on the intended layout: the text's length. Defined by its body; characterised by CapacityBounds and AppendGrowth. |
| InkString.Capacity | src/String.cpp:234-244 | `capacity()` on the intended layout. Characterised by CapacityBounds. |
| InkString.CapacityBounds | src/String.cpp:234-244 | An inline string reports its inline size less one; a heap string at least its length. |
| InkString.AssignCStr | src/String.cpp:60-119 | Assignment keeps the inline size; the text becomes the new text, or empty for a null pointer. |
| InkString.AssignToHeap | src/String.cpp:90-117 | On a heap string there are three outcomes: back inline when the text fits the inline buffer; the same block when it has room for text and NUL; else a block of exactly length + 1. |
| InkString.AssignToSmall | src/String.cpp:60-89 | On an inline string, assignment picks the representation exactly as the constructor does. |
| InkString.Equal | src/String.cpp:138-142 | `operator==`: equal lengths, then `strcmp`. Characterised by EqualIff. |
| InkString.EqualIff | src/String.cpp:138-142 | `==` holds iff the texts are equal, whatever the inline sizes and representations. |
| InkString.Append | src/String.cpp:156-202 | The text becomes left ++ right. |
| InkString.AppendGrowth | src/String.cpp:162-199 | Inline stays inline iff the total fits, else it gets a block of total + 1. A heap string never goes inline; it keeps its block when there is room and otherwise grows to max(total + 1, twice the block). |
| InkString.Concat | src/String.cpp:149-154 | `a + b` has text a ++ b and a's inline size. |
| InkString.ConcatEqualsAppend | src/String.cpp:149-202 | `+` and `+=` produce strings equal under `==`. |
| InkString.MoveConstruct | src/String.cpp:49-53 | The new string takes the source's text and representation; the source is left moved-from. |
| InkString.MoveAssign | src/String.cpp:129-136 | Self-move changes nothing. Otherwise the destination takes the source's text and representation and the source is left moved-from. |
| InkString.CopyAssign | src/String.cpp:121-127 | Copying into any string, moved-from included, gives a valid string equal to the source, with its inline size and representation. |
| InkString.MoveRoundTrip | src/String.cpp:49-136 | Moving a string out and back restores it and leaves a moved-from husk; a moved-from string can be revived by move or copy assignment. |
| InkString.ToLower | src/String.cpp:204-215 | Same length, representation and capacity, every byte lowered. |
| InkString.Widen | include/ink/String.h:89-93 | A `char` widens to `size_t` by sign extension: bytes from 0x80 up land in the top of the `u64` range. |
| InkString.Hash | include/ink/String.h:86-95 | The loop computes the FNV-1a fold of the text, which starts from the offset basis 14695981039346656037. |
| InkString.EqualHashAlike | include/ink/String.h:86-95 | Strings equal under `==` hash alike. |
| InkString.Put | include/ink/String.h:54-68 | A store into the union's block places its bytes at the offset and changes no other byte. |
| InkString.DefaultAsWritten | src/String.cpp:8-14 | As written, the default constructor writes only the first eight bytes of the block; `heap.size` and the rest keep whatever the block held. |
| InkString.DefaultReadsHeap | src/String.cpp:222-232 | For every block content, after the default constructor as written `is_small` reads false and `length()` returns the never-written `heap.size`. |
| InkString.DefaultLengthGarbage | src/String.cpp:222-232 | As-written half of the String finding: on a block whose ninth byte is 5, a default string reports length 5, while the intended empty string has length 0. |
| CString.StrEqual | src/String.cpp:141 | `strcmp(a, b) == 0` over NUL-terminated buffers. Characterised by StrEqualIff. |
| CString.StrEqualIff | src/String.cpp:138-142 | For NUL-free text, `strcmp` equality is text equality. |
| CString.LowerByte | src/String.cpp:211 | `tolower` on one byte in the "C" locale. Characterised by Lower and LowerIdempotent. |
| CString.Lower | src/WString.cpp:256-270 | Lowering keeps the length, maps each byte by ASCII `tolower`, and keeps text NUL-free. |
| CString.LowerIdempotent | src/String.cpp:204-215 | Lowering twice is lowering once. |
| Arena.RoundUpSpec | include/ink/ArenaAllocator.h:44-47 | Rounding up to an alignment gives the least multiple at or above the position. |
| Arena.AlignSizeIsRoundUp | include/ink/ink_base.hpp:194 | For a power-of-two alignment and no overflow, the align-up macro is rounding up. |
| Arena.NewBlock | src/ArenaAllocator.cpp:5-28 | The result is null exactly when the mapping fails. Otherwise the block has the requested size, offset 0, and memory right after its header. |
| Arena.Init | src/ArenaAllocator.cpp:30-34 | Records the block size; the head is one fresh block of that size, or null when mapping fails. |
| Arena.AllocBlock | include/ink/ArenaAllocator.h:42-58 | On failure the block is unchanged and the result is null; only the offset ever changes. |
| Arena.AllocBlockSpec | include/ink/ArenaAllocator.h:42-58 | With a power-of-two alignment, allocation succeeds iff the aligned position plus the size fits the block. The result is aligned, at or above the old position, and ends at the new offset, which only grows and stays within the size. |
| Arena.SuccessiveAllocsDisjoint | include/ink/ArenaAllocator.h:56-57 | Two allocations in a row from one block do not overlap. |
| Arena.AllocHardAsWritten | src/ArenaAllocator.cpp:36-48 | As written: a failed mapping changes nothing and returns null; otherwise one new block is put in front of the old chain. |
| Arena.AllocHardAsWrittenFails | src/ArenaAllocator.cpp:38-47 | A 4096-byte request aligned to 64 on a fresh 4096-byte block maps and links the block yet returns null. |
| Arena.AllocHard | src/ArenaAllocator.cpp:36-48 | Corrected sizing: a failed mapping changes nothing and returns null; otherwise one new block is put in front of the old chain. |
| Arena.AllocHardSucceeds | src/ArenaAllocator.cpp:36-48 | The corrected hard path always serves an aligned request once the mapping succeeds, and keeps the arena valid. |
| Arena.AllocAsWritten | include/ink/ArenaAllocator.h:61-73 | As written: the head block serves the request when it can; only otherwise does the hard path as written run. |
| Arena.AllocPathsDisagree | src/ArenaAllocator.cpp:38-47 | On a fresh arena of 4096-byte blocks, 4096 bytes aligned to 64 come back null as written after a block is linked, while the corrected `arena_alloc` serves them. |
| Arena.Alloc | include/ink/ArenaAllocator.h:61-73 | Corrected member of the Arena finding: the head block serves the request when it can; only otherwise does the corrected hard path add a block. |
| Arena.AllocSucceeds | include/ink/ArenaAllocator.h:61-73 | With the corrected hard path, `arena_alloc` returns an aligned address whenever a mapping is available, and keeps the arena valid. |
| Arena.Reset | src/ArenaAllocator.cpp:50-56 | Every block's offset becomes 0; the chain, memory and sizes stay. |
| Arena.ResetThenAlloc | src/ArenaAllocator.cpp:50-56 | After a reset the head serves any aligned request that fits a block of its size from the start. |
| Arena.Destroy | src/ArenaAllocator.cpp:58-68 | The head becomes null. |
| ObjectPool.New | include/ink/ObjectPool.h:12-14 | A new pool has capacity `size`, one slab, and that slab's slots on the free list in reverse push order. |
| ObjectPool.Expand | include/ink/ObjectPool.h:41-52 | The slab is recorded, the old free list is kept, and `count` slots follow, last slot first. |
| ObjectPool.ExpandLoop | include/ink/ObjectPool.h:49-51 | The signed count-down loop computes `Expand`. |
| ObjectPool.Acquire | include/ink/ObjectPool.h:26-34 | When the free list is empty, the capacity doubles and a slab of that many slots is added. Then the most recently pushed slot is popped. |
| ObjectPool.Release | include/ink/ObjectPool.h:36-38 | The slot is pushed with no check. |
| ObjectPool.ReleaseThenAcquire | include/ink/ObjectPool.h:31-38 | The slot just released is the next one acquired, and the pool is back where it was. |
| ObjectPool.DoubleRelease | include/ink/ObjectPool.h:36-38 | Releasing a slot twice makes two acquires in a row hand it out twice. |
| ObjectPool.AcquireWhenEmpty | include/ink/ObjectPool.h:27-33 | An empty free list doubles the capacity and hands out the first slot of a new slab. |
| ObjectPool.FreshPoolOrder | include/ink/ObjectPool.h:41-52 | A fresh pool hands out its slots in address order. |
| ObjectPool.AcquireInOrder | include/ink/ObjectPool.h:31-33 | When the free list ends with a slab's push order, acquires return that slab's slots in address order. |
| InkBase.VersionIs10100 | include/ink/ink_base.hpp:32-35 | INK_VERSION is 10100. |
| InkBase.CodesDistinct | include/ink/ink_base.hpp:142-150 | Distinct result codes carry distinct numbers. |
| InkBase.Min | include/ink/ink_base.hpp:176 | The result is one of the arguments and at most both. |
| InkBase.Max | include/ink/ink_base.hpp:177 | The result is one of the arguments and at least both. |
| InkBase.Clamp | include/ink/ink_base.hpp:178 | For lo ≤ hi the result lies in [lo, hi] and equals x when x does; for hi < lo it is hi. |
| InkBase.AlignSize | include/ink/ink_base.hpp:194 | `INK_ALIGN_SIZE` on 64-bit words. Defined by its body; characterised by AlignSizeIsLeastMultiple and AlignSizeClearsLowBits. |
| InkBase.AlignSizeIsLeastMultiple | include/ink/ink_base.hpp:194 | For a power-of-two alignment and no 64-bit overflow, the result is the least multiple of the alignment at or above the size. |
| InkBase.AlignSizeClearsLowBits | include/ink/ink_base.hpp:194 | The mask clears exactly the low bits of size + alignment − 1. |
| InkBase.BitAndHighMask | include/ink/ink_base.hpp:194 | AND with a mask of the high bits clears the low bits. |
| InkFlags.FlagSet | include/ink/ink_base.hpp:185 | The flag's bits are set and every other bit is kept. |
| InkFlags.FlagClear | include/ink/ink_base.hpp:186 | The flag's bits are cleared and every other bit is kept. |
| InkFlags.FlagToggle | include/ink/ink_base.hpp:187 | Exactly the flag's bits are inverted. |
| InkFlags.FlagCheck | include/ink/ink_base.hpp:188 | `INK_FLAG_CHECK`: every bit of the flag is set. Characterised by SetThenCheck and ClearThenCheck. |
| InkFlags.SetThenCheck | include/ink/ink_base.hpp:185-188 | After a set, the check holds. |
| InkFlags.ClearThenCheck | include/ink/ink_base.hpp:186-188 | After clearing a non-zero flag, the check fails. |
| InkFlags.ToggleTwice | include/ink/ink_base.hpp:187 | Toggling twice restores the flags. |
| InkType.Default | include/ink/InkType.h:44 | The default value is Invalid. |
| InkType.FromSigned | include/ink/InkType.h:46-49 | A signed constructor records the tag of its width and gives a valid value. |
| InkType.FromUnsigned | include/ink/InkType.h:50-53 | An unsigned constructor records the tag of its width and gives a valid value. |
| InkType.FromString | include/ink/InkType.h:60-70 | The string constructors record the String tag. |
| InkType.GetType | include/ink/InkType.h:113 | `getType()`: the tag. Defined by its body; characterised by VariantDeterminesTag. |
| InkType.IsValid | include/ink/InkType.h:114 | `isValid()`: the tag is not Invalid. Defined by its body; characterised by MonostateIffInvalid. |
| InkType.ToVariant | include/ink/InkType.h:116-135 | `toVariant()`: the payload for the tag. Defined by its body; characterised by MonostateIffInvalid and the round-trip lemmas. |
| InkType.MonostateIffInvalid | include/ink/InkType.h:113-135 | `toVariant` is empty iff `isValid` fails. |
| InkType.SignedRoundTrip | include/ink/InkType.h:46-49 | Every signed integer comes back exactly, in its own alternative, through 64-bit storage and the narrowing cast. |
| InkType.UnsignedRoundTrip | include/ink/InkType.h:50-53 | Every unsigned integer comes back exactly, in its own alternative. |
| InkType.FromBool | include/ink/InkType.h:56 | The bool constructor. Characterised by OtherRoundTrips. |
| InkType.FromChar | include/ink/InkType.h:57 | The char constructor. Characterised by OtherRoundTrips. |
| InkType.FromHandle | include/ink/InkType.h:58 | The handle constructor. Characterised by OtherRoundTrips. |
| InkType.OtherRoundTrips | include/ink/InkType.h:56-70 | Text, booleans, characters and handles come back as given. |
| InkType.VariantDeterminesTag | include/ink/InkType.h:116-135 | Outside the float alternatives, equal variants mean equal tags. |
| InkType.Move | include/ink/InkType.h:80-111 | For two distinct objects, the destination takes tag and payload; the source becomes Invalid. |
| InkType.MoveAssign | include/ink/InkType.h:102-111 | Moving a value into itself leaves it as it was; between distinct objects the destination takes the value and the source becomes Invalid. In both cases the destination reads back the source's variant. |
| InkType.CopyAssign | include/ink/InkType.h:72-100 | A copy keeps the tag and the variant. |
| InkType.CopyIsSource | include/ink/InkType.h:89-100 | A copy equals its source, and self-assignment changes nothing. |
| InkException.New | include/ink/InkException.h:40-54 | A new exception has result code SUCCESS, no context, and a stack trace of just the throwing function. |
| InkException.NewWithCode | include/ink/InkException.h:64-80 | The code constructor keeps the code given. |
| InkException.AddContext | include/ink/InkException.h:175-182 | `addContext` records the value under the key. Characterised by AddThenGet. |
| InkException.GetContext | include/ink/InkException.h:189-195 | `getContext`: the value or "". Defined by its body; characterised by AddThenGet and AbsentContext. |
| InkException.HasContext | include/ink/InkException.h:202-204 | `hasContext`: whether the key was added. Characterised by AddThenGet and AbsentContext. |
| InkException.AddThenGet | include/ink/InkException.h:175-204 | After `addContext(k, v)`, `hasContext(k)` holds and `getContext(k)` is v. A later add under k wins, and other keys are untouched. |
| InkException.AbsentContext | include/ink/InkException.h:189-204 | An absent key reads as "" and is not present. |
| InkException.Nested | include/ink/InkException.h:224-234 | The nested exception has the new message and records the inner exception's full message under "InnerException". |
| InkException.What | include/ink/InkException.h:88-90 | `what()`: the full message. Defined by its body; characterised by MessageStart, ResultCodeLineIff and ContextBlockIff. |
| InkException.MessageStart | include/ink/InkException.h:243-249 | The full message opens with "Generic Exception: " and the message. |
| InkException.ResultCodeLineIff | include/ink/InkException.h:252-254 | A "Result Code" line appears iff the code is not SUCCESS. |
| InkException.ContextBlockIff | include/ink/InkException.h:263-268 | A "Context:" header appears iff there is context, followed by one line per entry. |
| InkException.ContextEntryLines | include/ink/InkException.h:263-268 | Each line after the header shows one entry as "key: value", in iteration order. |
| InkException.FormatStackTrace | include/ink/InkException.h:277-288 | The formatted trace is empty exactly when the trace has no frames. |
| InkException.ToString | include/ink/InkException.h:213-215 | `toString` opens with "Generic Exception: " and the message. Without the trace (or with an empty one) it is exactly the full message. |
| InkException.ToStringOfNew | include/ink/InkException.h:293-304 | A new exception's trace formats as the header plus the single frame `#0` naming the throwing function, and `toString(true)` is the full message followed by that. |

## Left out

- Clocks, memory mapping and files are parameters, not calls. The wheel
  takes `now`, `arena_new_block` takes where the mapping landed (or that it
  failed), and the logger takes the timestamp text and whether the log file
  opened. Console and file writes become the text they would write.
- Concurrency: the mutex of `LogManager` and all of ThreadPool,
  WorkerThread and InkQueue are not modelled. On the failure path of
  `getLogger` and `setLogToFile`, the logger re-takes the manager's mutex it
  already holds; that deadlock is outside a sequential model.
- `setLogToFile`, the `Logger` destructor and the strftime/localtime
  timestamps (src/Inkogger.cpp:63-74, 140-157;
  include/ink/InkException.h:257-260) are I/O.
- Inkogger.Log: src/Inkogger.cpp uses `Colors::` names that are not
  declared anywhere; the model reads them as the `LoggerColors` constants
  of include/ink/Inkogger.h. The `LogStream` destructor calls the
  two-argument `Inkogger::log` declared at include/ink/Inkogger.h:92,
  which src/Inkogger.cpp does not define; StreamFlush returns that call
  as `Unlocated` and the model does not run it further.
- Inkogger.Emit: `snprintf` truncation is modelled as the length check
  that follows it. A line longer than 4095 bytes is dropped, as the
  source does.
- Floating point: InkType's `f32`/`f64` alternatives carry no payload
  (VariantDeterminesTag excludes them). JSON numbers are integers.
- EnhancedJson.StoUl: `std::stoul`'s leading whitespace and sign are not
  modelled. A segment counts as numeric when it starts with a digit and
  its digit prefix is below 2^64.
- EnhancedJson.IsValid: the `catch` branch is modelled as rejection: a
  "type" that is not a string (where `get<std::string>()` throws) makes the
  value invalid. Other throwing conversions of nlohmann's library are not
  modelled. "required" is checked only for names listed under
  "properties", as the loop is written.
- EnhancedJson: serialisation, file load/save and the nlohmann wrappers
  are out of scope; so is the `JsonQuery` helper. `findAll` is `filter`
  (include/vac/EnhancedJson.h:373-376). `map`/`reduce` are not modelled,
  because they take arbitrary callables into an unseen library.
- EnhancedJson.Keys is a ghost function, because it orders a set of keys.
  Its increasing order is the sorted key order of nlohmann's objects.
- InkString: the value model (`Str`) follows the evidently intended
  layout, with `is_small`, `sso_capacity`, the inline text and the heap
  fields kept apart. The source as written does not keep them apart: in
  include/ink/String.h:54-68 `is_small`, `sso_capacity`, `stack.buffer[0]`
  and `heap.ptr` all start at byte 0 of the union. The byte-level model
  (Put, DefaultAsWritten, LengthAsWritten, little-endian) covers the
  default constructor only; see Findings. Two further consequences are
  not modelled at byte level: the inline `capacity()` (src/String.cpp:234-244)
  reads `sso_capacity` from bytes the text has overwritten, and a heap
  string's `is_small` reads the low byte of `heap.ptr`.
- InkString.Append: the operands are distinct objects. For `s += s` the
  source copies the string onto its own end with one `memcpy` whose
  ranges overlap (src/String.cpp:166 inline, :184 heap with room), which
  is undefined behaviour; a forward byte copy overwrites the terminating
  NUL before reading it, so the text is not `s ++ s`.
- WStrings.Append: the operands are distinct objects. For `w += w` on an
  inline string that stays inline, src/WString.cpp:217 copies with
  overlapping ranges, undefined behaviour as in InkString.Append; the
  heap path copies into a fresh block first and is not affected.
- WStrings.AssignIsConstruct: the C string does not point into the
  string. For `w = w.c_str()` on a heap string, src/WString.cpp:79-80
  frees the block and :86 or :94 then copies from it, a use after free.
- InkString.AssignCStr: the C string does not point into the string.
  For `s = s.c_str()` on a heap string whose text fits inline,
  src/String.cpp:94-99 frees the block and then copies from it, a use
  after free; the other paths copy a block onto itself, which `memcpy`
  leaves undefined.
- InkType.Move: models two distinct objects. `x = std::move(x)` is a
  no-op because of the guard at include/ink/InkType.h:103; MoveAssign
  models that case through its `same` flag.
- RingBuffer.New: capacity 0 is excluded. src/RingBuffer.cpp:5-13 accepts
  it; `read` and `write` then return 0 and the window getters give null
  windows, but `advanceReadPos` and `advanceWritePos` (:106, :114) take
  `% _capacity` with a capacity of 0, a division by zero.
- ObjectPool.Acquire: requires that a slot can be handed out. A pool
  created with size 0 doubles its capacity to 0, expands by nothing, and
  then calls `back()` on an empty free list
  (include/ink/ObjectPool.h:26-33), which is undefined behaviour.
- CString.Lower: `tolower` is ASCII only; locales are out of scope.
- The InkedList header constructors (include/ink/InkedList.h:41-59) are
  left out. They create a node reachable only through `root->prev`.
- include/ink/InkixTree.h declares a different node type without `get`;
  the model follows src/InkixTree.cpp and uses owned strings.
- InkixTree.Get: the terminal mark is not consulted, as in the source. So
  `get` answers "where does the key end", not "is the key stored".
  Membership is stated separately by InsertMember.
- ArgParser.ParseArgs: the full error message is stated by its prefix.
  The list after the prefix is characterised by CollectLacking, which
  says which long ids appear. Their order is the hash map's iteration
  order, a parameter.
- TimerWheel.ProcessExpired: its contract is stated for callbacks that
  re-arm the node they are handed or leave it alone. A callback may call
  `update` or `unlink` on any node; that case is modelled by
  ProcessExpiredWith, which runs at most `fuel` rounds because such a
  callback can send the walk back to nodes it has already handed out. UnlinkSuccessorLosesNode and
  RearmSuccessorRevisits show what happens when the saved successor is
  touched, and ProcessExpiredAgrees ties the two models together.
- TimerWheel.ExpireChain: restricted to re-arm-or-leave callbacks, like
  ProcessExpired; WalkFrom is the loop for any callback.
- InkString: a moved-from `String` holds a null `_data`. Its accessors
  would dereference null, so the model only lets it be destroyed or
  assigned to (`Obj.MovedFrom`).
- ArgParser: `show_help` (src/ArgParser.cpp:146-170) only prints.
- Copy constructors of WString, String and InkType are the identity on
  values, so only CopyAssign appears.
- The assert macros, LastWish, the aligned allocators, `exec_command` and
  the release script are I/O or thin wrappers.

## Findings

| source | as written | input that shows it | evidently intended | confidence | as-written member | corrected member |
|---|---|---|---|---|---|---|
| src/ArgParser.cpp:31-32 | `INK_THROW_IF` (include/ink/InkException.h:342-343) throws when its condition is false, so the guards throw when the description IS in the long id and when it is NOT yet registered | `add_argument("-p", "--port", "port", ...)` on a fresh parser throws | throw when the description is missing from the long id or already registered, as the messages say | not executed | ArgParser.AsWrittenRejectsPort | ArgParser.AddArgument |
| src/Inkogger.cpp:28-31 | `isEnabled` tests `level >= m_level` on values where FATAL is 1 and TRACE is 7 | a new logger (INFO) prints TRACE and drops ERROR and FATAL | pass the configured level and everything more severe (`level <= m_level`) | not executed | Inkogger.LogsDisagree | Inkogger.LogCorrected |
| src/WString.cpp:53-57 | moving from a heap string clears the heap fields and sets the inline flag but leaves the inline size byte as it was | "a" grown past 64 bytes, then moved from: `length()` is 1 while the text is "" | the moved-from string is empty with length 0 | not executed | WStrings.MovedFromStaleLength | WStrings.Move |
| src/ArenaAllocator.cpp:38-47 | `arena_alloc_hard` maps max(size, block_size) bytes, leaving no room for alignment padding | 4096 bytes aligned to 64 with block size 4096 and the block mapped at 4096 returns null after linking the block | a block large enough for the request after padding, max(size + align − 1, block_size) | not executed | Arena.AllocPathsDisagree | Arena.AllocSucceeds |
| src/String.cpp:8-14 | every member of the `Data` union starts at byte 0, so `stack.buffer[0] = '\0'` clears the byte `is_small` was just set in, and `length()` (:222-232) then reads the uninitialised `heap.size` | `String()` then `length()` on a block whose bytes 8..16 hold 5 returns 5 | an empty inline string of length 0, with the flag, capacity and text kept apart | not executed | InkString.DefaultLengthGarbage | InkString.New |

