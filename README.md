# Bus network with a linked hash table, modelled in Dafny

The program keeps the bus lines and bus stops of a city in two linked hash
tables and answers one-letter commands:

- `c` lists or adds lines.
- `p` lists or adds stops.
- `l` connects two stops on a line.
- `i` lists, for every stop served by more than one line, the sorted names
  of the lines through it.

This project models two parts of the program.

**The linked hash table** (`linked-hash-table.c`, module `LinkedHashTable`):
- A fixed array of 65537 slots indexed by the djb2 hash of the key.
- An insertion-order list threaded through `prev`/`next` links of the nodes,
  with `first`/`last`.
- One stored iteration cursor.
- This revision has no collision handling. An insert into a taken slot is
  refused with -1. A lookup returns whatever sits in the key's slot without
  comparing keys.
- `Table` is a class over an `array` of optional nodes. The `Node`
  objects carry real `next`/`prev` links. A ghost `Order` sequence gives the
  abstract view `Entries()`. Insert and lookup are proved against the
  function `Lookup` on that view; the constructor and the iterator are
  specified by `Entries()` and the table's fields.

**The bus-route logic of `main.c`** (module `BusNetwork`):
- Stops and lines are classes whose counters are updated in place.
- `add_connection` extends a line's route at one end, and keeps the line's
  `num_stops` and each stop's `num_lines`.
- `sort` is an in-place bubble sort of an array of names by `strcmp`.
- `intersects` tests a route for a stop name.
- The collect-then-sort step of the `i` command.
- The duplicate test of `add_new_stop`.
- The option test of the `c` command.
- String comparison follows the C library (module `CStrings`). A Dafny
  string stands for a NUL-terminated C string whose characters are 1..127.

The declarations in `linked-hash-table.h` disagree with the `.c` file: the
node has no `prev`, there is no `lht_t`, and the functions take `void**`.
`main.c` also calls `lht_iter` with a single argument. The model follows the
definitions in `linked-hash-table.c`. `lht_iter(lines)` is read as BEGIN and
`lht_iter(NULL)` as KEEP.

## Model

| member | source | states |
|---|---|---|
| LinkedHashTable.CalculateHash | linked-hash-table.c:29-37 | the djb2 loop with `unsigned long` wrap-around (mod 2^64) yields exactly the key's slot, which is below INIT_HASH |
| LinkedHashTable.LookupMissIff | linked-hash-table.c:77-80 | a lookup finds nothing exactly when no stored key selects the key's slot |
| LinkedHashTable.LookupFinds | linked-hash-table.c:77-80 | the entry stored in the key's slot (the first whose key selects it) is the one a lookup returns |
| LinkedHashTable.LookupStored | linked-hash-table.c:77-80 | a lookup only returns the value of a stored entry whose key selects the same slot |
| LinkedHashTable.LookupAppend | linked-hash-table.c:52-61 | storing a new entry keeps every answer already given, and answers the new value only for keys of its slot that had no answer |
| LinkedHashTable.LookupSameSlot | linked-hash-table.c:77-80 | keys are not compared: two keys with the same slot always get the same answer |
| LinkedHashTable.LookupStable | linked-hash-table.c:45-80 | once a lookup finds a value it keeps finding it after any later inserts, since nothing clears or overwrites a slot |
| LinkedHashTable.SlotsAgreeAppend | linked-hash-table.c:57-72 | storing a node in its empty slot and appending it to the order list keeps slots and list in agreement; the node was not already listed |
| LinkedHashTable.OccupiedIsCount | linked-hash-table.c:45-75 | helper of `OccupiedAtMostOrder`: the recursive occupied-slot count is the number of non-NULL slots |
| LinkedHashTable.OccupiedAtMostOrder | linked-hash-table.c:45-75 | a table never has more occupied slots than stored entries |
| LinkedHashTable.InjectionBound | linked-hash-table.c:45-75 | helper of `OccupiedAtMostOrder`: a set mapped one-to-one into another is no larger |
| LinkedHashTable.BoundedSetSize | linked-hash-table.c:45-75 | helper of `OccupiedAtMostOrder`: a set of positions below n has at most n members |
| LinkedHashTable.Node.constructor | linked-hash-table.c:57-58 | a node holds its key and value and no links |
| LinkedHashTable.Table.constructor | linked-hash-table.c:7-24 | `lht_init`: every slot empty, size 0, capacity INIT_HASH, `first == last == NULL`, no entries |
| LinkedHashTable.Table.SlotAnswersLookup | linked-hash-table.c:77-80 | on a valid table the key's slot answers exactly what `Lookup` says on the entries |
| LinkedHashTable.Table.Get | linked-hash-table.c:77-80 | `lht_get_element` answers `Lookup` on the entries; NULL iff the key's slot is empty; a found value is a stored one |
| LinkedHashTable.Table.Insert | linked-hash-table.c:45-75 | -1 iff the key's slot was taken, and then nothing changes; otherwise 0, the entry is appended in order, only the key's slot changes (to the new node), `last` is the new node, `first` changes only for an empty list, size and cursor untouched, and the key now finds the value |
| LinkedHashTable.Table.Link | linked-hash-table.c:57-72 | the new node goes into its empty slot and at the end of the order list, keeping the table valid |
| LinkedHashTable.Table.Append | linked-hash-table.c:63-72 | the node is threaded after `last` (or becomes the only node) and the prev/next links still run through the order list |
| LinkedHashTable.Table.Iter | linked-hash-table.c:88-96 | BEGIN moves the cursor to the first entry, KEEP one further; the value under the cursor is returned, or NULL past the end |
| CStrings.StrCmpZeroIffEqual | main.c:357-365 | on C strings, `strcmp` is 0 exactly for equal strings |
| CStrings.StrCmpAntisymmetric | main.c:340-352 | swapping the arguments of `strcmp` flips the sign |
| CStrings.StrCmpTransitive | main.c:340-352 | "`strcmp(a, b) <= 0`" is transitive, so sorting by it is well defined |
| CStrings.StrCmpReflexive | main.c:345 | `strcmp` of a name with itself is 0 |
| CStrings.StrNCmpIsPrefix | main.c:122 | `strncmp(token, s, strlen(token)) == 0` exactly when token is a prefix of s |
| BusNetwork.PassGrowsSorted | main.c:343-351 | an inner pass that brings the largest name of the unsorted front to its end grows the sorted back by one, keeping a permutation |
| BusNetwork.SwapStep | main.c:345-349 | swapping an out-of-order neighbour pair carries the largest name so far forward and keeps a permutation |
| BusNetwork.KeepStep | main.c:344-345 | an in-order neighbour pair already has the largest name so far in front |
| BusNetwork.BubblePass | main.c:344-350 | the inner loop leaves the largest of the first m names at m - 1, permutes only those m names |
| BusNetwork.Sort | main.c:340-352 | `sort` leaves the first `size` names ordered by `strcmp` and a permutation of what they were; the rest of the array is untouched |
| BusNetwork.SortOptionAccepted | main.c:122 | the sort option is accepted iff the token is a prefix of "inverso" |
| BusNetwork.Stop.constructor | main.c:178-181 | a new stop has its name and is on no line |
| BusNetwork.Extend | main.c:270-330 | a line with no stops gets `[origin, destination]`; a route ending at the origin gets the destination appended, even if it also starts at the destination; else a route starting at the destination gets the origin prepended; any other connection is refused; the result grows by one (or to two) and contains the pair origin, destination |
| BusNetwork.JoinsCountsNewStops | main.c:293-329 | when neither stop sits inside the route, `num_lines` grows by one exactly for a stop that newly joins the line (a circular line's first stop is not counted twice) |
| BusNetwork.JoinsRecountsInteriorStop | main.c:303-316 | outside that hypothesis the C code over-counts: on a route A, B, C the connection C to B appends B again and increments its `num_lines` although the line already runs through B |
| BusNetwork.Line.constructor | main.c:90-95 | a new line has its name, no stops and `num_stops == 0` |
| BusNetwork.Line.Connect | main.c:270-335 | the route becomes `Extend` of the old route, or nothing changes when it is refused; `num_stops` becomes 2 or grows by one, so it stays the route length; each stop's `num_lines` grows by the increments of the C code |
| BusNetwork.Intersects | main.c:357-365 | 1 iff some stop of the route has the stop's name, else 0 |
| BusNetwork.View | main.c:384-386 | a snapshot of the lines table's slots: empty exactly where the slot is NULL |
| BusNetwork.ThroughMembers | main.c:384-389 | a name is collected iff some slot holds a line of that name whose route has the stop |
| BusNetwork.ThroughSnoc | main.c:385-388 | scanning one more slot appends at most that slot's line name |
| BusNetwork.ThroughBound | main.c:384-388 | at most one name is collected per occupied slot, and fewer from leading slots than from all |
| BusNetwork.LinesThrough | main.c:384-389 | on a valid table the collected names are those of the stored lines through the stop, and there are no more of them than stored lines |
| BusNetwork.Network.constructor | main.c:423-424 | two empty tables with fresh slot arrays and no nodes, and `line_counter == 0` |
| BusNetwork.Network.GetLine | main.c:21-23 | `get_line` answers the lines table's lookup and returns a stored line |
| BusNetwork.Network.GetStop | main.c:13-15 | `get_stop` answers the stops table's lookup and returns a stored stop |
| BusNetwork.Network.AddNewStop | main.c:166-185 | -1 with nothing inserted iff a stop already answers for the name; otherwise 0, and a fresh stop with that name on no line is appended (in a fresh node) and found by name |
| BusNetwork.Network.AddNewLine | main.c:78-97 | corrected `add_new_line`: unless the name's slot is taken, a fresh line with that name, an empty route and `num_stops == 0` is appended (in a fresh node) and found by name; `line_counter` keeps counting the stored lines |
| BusNetwork.Network.AddNewLineAsWritten | main.c:78-97 | `add_new_line` as written: the same insert, stating the same stored line, but `line_counter` never changes |
| BusNetwork.Network.ListAllLines | main.c:28-41 | BEGIN then KEEP until NULL visits every stored line once, in insertion order |
| BusNetwork.Network.ListOrAddLine | main.c:104-132 | no name: list all lines; a known line: list it, or list it inverted when the option is a prefix of "inverso", else refuse the option, with the tables unchanged; an unknown name: add a fresh line with no stops through the corrected `AddNewLine`, which is why it assumes `line_counter` counts the stored lines; the name-length bound applies only to that add path |
| BusNetwork.Network.AddConnection | main.c:234-335 | refusals in the order no such line, no such origin, no such destination, negative cost or duration, not associable, each changing nothing; otherwise the line and both stops change as `Line.Connect` says, and nothing else may change; it needs only valid tables, whatever `line_counter` holds |
| BusNetwork.Network.CollectThrough | main.c:370-390 | the buffer has `line_counter` entries and holds, in slot order, the names of the lines through the stop; with the corrected counter they always fit |
| BusNetwork.Network.Intersections | main.c:370-391 | under the corrected counter (`line_counter` counts the stored lines), the buffer ends up holding exactly the collected names, sorted by `strcmp` |
| BusNetwork.Collect | main.c:384-390 | the slot loop writes exactly the names of the lines through the stop, in slot order, within the buffer |
| BusNetwork.CounterAsWrittenTooSmall | main.c:374-388 | with `line_counter` still 0 and one stored line through the stop, more names are collected than the buffer holds |

## Left out

- I/O: all printing, the `fgets` command loop of `main` (main.c:420-468), the output of `list_single_line`, `list_single_line_inverted`, `list_all_stops`, `list_single_stop` and `print_intersction`. `list_single_line` and its inverted twin are modelled only as the choice of action (`ListOrAddLine`).
- Parsing: `strtok`, `sscanf` and `atof` (main.c:108-131, 192-228). Names and options reach the model already split. A missing token is `None`.
- Floating point: latitude and longitude, and the `total_cost`/`total_duration` sums. The cost and duration check of `add_connection` is the boolean `negative`.
- `malloc` failures, including `add_new_stop` returning 0 without a stop (main.c:172-176). The node `lht_insert_new_element` allocates before a refused insert leaks; the model allocates it too but only ever links it on success.
- The route is a `seq<Stop>` field of the line (first element = `origin->raw`, last = `destination->raw`) instead of a doubly-linked list of `stop_node_t`. Consequently `Intersects` walks the sequence rather than the `next` links.
- `lht_iterator_current` is left uninitialised by `lht_init`. Here it starts as NULL, and KEEP requires a current node, since the C code dereferences it.
- Keys and names are C strings of characters 1..127 (`CString`). Name lengths above `LINE_NAME_LENGTH`/`STOP_NAME_LENGTH` are excluded by `requires` instead of modelling the `strcpy` overflow.
- `stop_counter` (main.c:6) is never used; the table's `size` is set once and never read.
- `list_interconnections` (main.c:404-418), the loop calling `print_intersction` for every stop on more than one line, is not modelled; `Intersections` is the body of one such call.
- `BusNetwork.Network.ListOrAddLine`: its add path uses the corrected `AddNewLine`, so it assumes `line_counter` counts the stored lines, which the code as written never maintains (see Findings).
- `BusNetwork.Network.AddNewStop`, `BusNetwork.Network.AddNewLine`: their contracts speak only of the table they change. The other table is outside their `modifies` clause, so it is unchanged by the frame rule and not restated.

## Findings

| source | as written | input that shows it | evidently intended | confidence | as-written member | corrected member |
|---|---|---|---|---|---|---|
| main.c:78-97 | `line_counter` (main.c:7) is never incremented, so `print_intersction` allocates a buffer of 0 entries (main.c:374) and then writes one name per line through the stop into it (main.c:388), past its end | `c A`, `p S1 0 0`, `p S2 0 0`, `l A S1 S2 1 1`, `c B`, `l B S1 S2 1 1`, `i` | `add_new_line` counts every stored line, so the buffer holds every name collected | not executed | BusNetwork.CounterAsWrittenTooSmall | BusNetwork.Network.CollectThrough |
