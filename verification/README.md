# Verified models of rdma-core and measurement-script algorithms

The repository is an evaluation artifact: benchmark scripts around a copy of rdma-core. These modules model
the algorithms in it whose correctness is not visible from one function body.

- `LinkedLists`, `ListRuns`: the intrusive circular lists of ccan/list. Nodes are heap objects with nullable
  links. A list is the sequence of its nodes, head first, and `Ring` says that the links agree with it both
  ways. `ListRuns` proves every run of operations over any number of lists against the sequence model.
- `LibraryGraph`: `compute_graph` of the static-library sanitizer, which prunes a graph in place while it
  recurses over it. It returns exactly for acyclic graphs, and leaves the unique smallest graph with the same
  reachability.
- `Fabric`, `Multicast`, `McSearch`, `Unicast`: route tracing in ibtracert over an abstract fabric. Each query
  is a function of the fabric and may fail. The multicast search is proved to find a shortest route, and the
  unicast walk to succeed exactly when the forwarding tables lead to the destination within its limits.
- `WordBits`, `Bitmap`: the word-packed bitmaps of ccan/bitmap on arrays of 64-bit words, stated about the bits
  that `bitmap_test_bit` sees.
- `BuddyBlocks`, `Buddy`, `BuddyRuns`: the buddy allocator of the mlx5 provider, on top of those bitmaps. Its
  free bitmaps are at all times the maximal aligned blocks of the free units. `BuddyRuns` states this of whole
  runs of requests and returns, every grant and refusal included.
- `CsvText`: the padded CSV that one script prints and another one parses.
- `Percentiles`: the percentile sweep over a latency histogram.
- `Ilog`: the integer logarithms of ccan/ilog, on machine words.
- `DrPathText`: printing direct routes into a buffer and parsing them, in libibmad.
- `Counters`: the capped counters of perfquery.
- `Shifts`, `Common`: shifts and powers of two for the allocator; an option type, bytes and white space.

Where the source changes things in place the model does too: classes with fields, arrays, loops with
invariants. Results of `malloc`, `realloc` and of fabric queries are parameters or part of the abstract state.

Some properties that one might expect do not hold of the code. Each is shown to fail, and the exact condition is
proved instead:

- `switch_mclookup` counts its sets of 16 ports for `numports` ports although ports are numbered from 0, so it
  misses the last port of a switch with 16 ports (`Multicast.LastPortMissed`), and in general exactly when the last
  port is a multiple of 16 and in the group (`Multicast.LookupMissesLastPort`). Multicast edges are therefore those
  that the lookup reports; when they make the same routes as the tables is `Multicast.RoutesAgree`.
- `find_route` reports a destination met on the 63rd turn as not found (`Unicast.OneHopTooFar`); which
  destinations it does find, from every start, is `Unicast.FindRoute`.
- `parse_csv` does not strip test names, so no test comes back under its own name (`CsvText.NeverItself`) but all
  under their padded ones (`CsvText.RoundTrip`).
- `list_check_node` can run into a NULL link, as on an entry that was never linked (`LinkedLists.CheckUnlinked`);
  exactly when is part of `LinkedLists.CheckNode`.
- A direct route printed by `drpath2str` need not read back: an empty one gains a hop
  (`DrPathText.EmptyPathGainsHop`) and one that is cut by the buffer changes (`DrPathText.CutList`). When it does
  is `DrPathText.DrPath.Reread`.
- `compute_graph` does not return on a cycle (`LibraryGraph.LibraryGraph.ComputeGraph`).

## Model

| member | source | states |
|---|---|---|
| `LinkedLists.Init` | fig14/rdma-core/ccan/list.h:143-158 | An initialised head or node is the ring of itself alone. |
| `LinkedLists.AddAfter` | fig14/rdma-core/ccan/list.h:178-188 | In any ring, the new node stands right after the given one and all other positions are kept; only four links change. |
| `LinkedLists.Add` | fig14/rdma-core/ccan/list.h:204-209 | The new entry is first and the rest of the list is unchanged. |
| `LinkedLists.AddBefore` | fig14/rdma-core/ccan/list.h:227-237 | The new node stands right before the given one, at the end when that is the head. |
| `LinkedLists.AddTail` | fig14/rdma-core/ccan/list.h:250-255 | The new entry is last. |
| `LinkedLists.Empty` | fig14/rdma-core/ccan/list.h:267-271 | True exactly for a ring of the head alone. |
| `LinkedLists.Del` | fig14/rdma-core/ccan/list.h:324-333 | The ring without that entry is left, in the same order; a self-linked node stays as it is. |
| `LinkedLists.DelInit` | fig14/rdma-core/ccan/list.h:350-354 | As `Del`, and the entry is a ring of its own, so deleting it again is safe. |
| `LinkedLists.Swap` | fig14/rdma-core/ccan/list.h:405-417 | The new node takes the exact place of the old one, also in a list of one entry. |
| `LinkedLists.Pop` | fig14/rdma-core/ccan/list.h:475-484 | Takes out and returns the first entry, or returns NULL and changes nothing. |
| `LinkedLists.AppendList` | fig14/rdma-core/ccan/list.h:640-656 | For any two disjoint rings, empty or not: the target is to followed by from, the source is empty. |
| `LinkedLists.PrependList` | fig14/rdma-core/ccan/list.h:672-688 | Likewise with from followed by to. |
| `LinkedLists.RingUnique` | fig14/rdma-core/ccan/list.h:24-27 | The links determine the list: two rings with the same head are the same sequence. |
| `LinkedLists.AtPlace` | fig14/rdma-core/ccan/list.h:178-417 | Where a node stands once in a list, inserting after and before it, removing it and replacing it act at its place and nowhere else; before the head is the end, and the head is not removed. |
| `LinkedLists.CheckNode` | fig14/rdma-core/ccan/list.c:20-36 | On any heap closed under links, however corrupt: ends; accepts if and only if the node heads a ring; meets a NULL link if and only if a walk over mutually linked nodes leads to one; otherwise reports or aborts as asked. |
| `LinkedLists.CheckUnlinked` | fig14/rdma-core/ccan/list.c:20-36 | On an entry whose links are NULL the check runs into one. |
| `LinkedLists.ForEachRev` | fig14/rdma-core/ccan/list.h:691-696 | Backward iteration yields the reverse of the forward contents. |
| `LinkedLists.ForEachSafe` | fig14/rdma-core/ccan/list.h:698-706 | Every entry is visited once and in order while each body deletes any entries already visited, each by `list_del` or by `list_del_init`; the others are left in order. |
| `LinkedLists.GoneIs` | fig14/rdma-core/ccan/list.h:698-706 | What is gone after some bodies is exactly what one of them deletes. |
| `LinkedLists.KeepHas` | fig14/rdma-core/ccan/list.h:698-706 | What is left are exactly the entries that are not gone. |
| `ListRuns.Execute` | fig14/rdma-core/ccan/list.h:143-688 | Any operation that its caller may make takes disjoint rings to disjoint rings exactly as the sequence model says, and leaves all other lists alone. |
| `ListRuns.Run` | fig14/rdma-core/ccan/list.h:143-688 | The same for every run of operations from any collection of lists, the empty one included. |
| `LibraryGraph.KeptIsOnlyPath` | fig14/rdma-core/buildlib/sanitize_static_lib.py:206-210 | Being kept by the pruning means exactly that the edge is the only path between its ends. |
| `LibraryGraph.CutSameReach` | fig14/rdma-core/buildlib/sanitize_static_lib.py:206-214 | Removing the redundant edges of one vertex of an acyclic graph changes no reachability. |
| `LibraryGraph.AllBranched` | fig14/rdma-core/buildlib/sanitize_static_lib.py:212-214 | When all branches of a library have been pruned without failing, it is on no cycle and exactly its redundant edges are gone. |
| `LibraryGraph.CycleKept` | fig14/rdma-core/buildlib/sanitize_static_lib.py:212-214 | Pruning libraries that are on no cycle leaves every cycle in place, so that a later library still meets it. |
| `LibraryGraph.ReducedStep` | fig14/rdma-core/buildlib/sanitize_static_lib.py:212-214 | Pruning vertex after vertex, in any order, prunes each as it would be in the original graph. |
| `LibraryGraph.ReductionIsLeast` | fig14/rdma-core/buildlib/sanitize_static_lib.py:197-214 | Every graph with the same reachability has all the edges that are left. |
| `LibraryGraph.LibraryGraph.Prune` | fig14/rdma-core/buildlib/sanitize_static_lib.py:206-210 | With every recursion depth and set order: returns only when nothing below the current library is on a cycle, and then has taken from the pruned row exactly what is reachable from it; meeting the pruned library itself fails as long as its row, which the loop walks over, is not empty. |
| `LibraryGraph.LibraryGraph.Build` | fig14/rdma-core/buildlib/sanitize_static_lib.py:200-203 | The edges are exactly the pairs of different libraries of which the first defines some symbol that the second lacks, and needs is the inverse of needed. |
| `LibraryGraph.LibraryGraph.ComputeGraph` | fig14/rdma-core/buildlib/sanitize_static_lib.py:197-214 | Of the graph whose edges lead from a library that defines a symbol to each one that lacks it: returns only if it is acyclic, and for every acyclic one with fewer libraries than the recursion limit. Then, for every set iteration order, an edge is left if and only if it was there and no other path joins its ends; reachability is unchanged and needs is the inverse of needed. |
| `Fabric.ExtendPath` | fig14/rdma-core/infiniband-diags/ibtracert.c:203-210 | Fails exactly when the 64-byte path array is full; otherwise appends one hop, cut to a byte. |
| `Multicast.LookupMissesLastPort` | fig14/rdma-core/infiniband-diags/ibtracert.c:507-526 | The lookup agrees with the table on every port of the switch if and only if the last port is not a multiple of 16 or is not in the group. |
| `Multicast.LastPortMissed` | fig14/rdma-core/infiniband-diags/ibtracert.c:507-526 | A switch of 16 ports with a readable table that has port 16 in the group, which the lookup does not report. |
| `Multicast.RoutesAgree` | fig14/rdma-core/infiniband-diags/ibtracert.c:484-529 | The routes that the lookups report are those of the tables if and only if no table route leads over a missed port. |
| `Multicast.SwitchMcLookup` | fig14/rdma-core/infiniband-diags/ibtracert.c:484-529 | Succeeds exactly when SwitchInfo is readable, the group is below the table's size and every set of 16 ports below the number of ports is readable, and then reports exactly the ports of the sets it reads. |
| `Multicast.MaskBits` | fig14/rdma-core/infiniband-diags/ibtracert.c:517-519 | The mask that is the sum of the powers of two of some ports has exactly their bits. |
| `Multicast.InTableIs` | fig14/rdma-core/infiniband-diags/ibtracert.c:506-522 | For every assignment of ports to groups that the readable blocks show as masks of 16: a port counts as in the table of a group exactly when its block is readable and the port is assigned to the group. |
| `Multicast.RouteOfNode` | fig14/rdma-core/infiniband-diags/ibtracert.c:452-482 | The upnode chain of every discovered node is a forwarding route of the group, as long as its layer. |
| `Multicast.RoutesCovered` | fig14/rdma-core/infiniband-diags/ibtracert.c:572-675 | When all nodes closer than layer d are expanded, every route of at most d hops ends at a node already known, and not at the target. |
| `Multicast.UnreadableSkipped` | fig14/rdma-core/infiniband-diags/ibtracert.c:608-625 | Where a layer is covered, a port whose PortInfo cannot be read has been passed over only if a route arrives by it. |
| `Multicast.UpPortCovered` | fig14/rdma-core/infiniband-diags/ibtracert.c:608-609 | Skipping the port a node was reached by loses nothing, because links have two ends; also below a start at an end node. |
| `Multicast.ReadOverLink` | fig14/rdma-core/infiniband-diags/ibtracert.c:618-657 | Reading over the extended direct route describes exactly the far end of that link. |
| `Multicast.PathsRestored` | fig14/rdma-core/infiniband-diags/ibtracert.c:634-672 | Taking the hop back restores every node's direct route. |
| `McSearch.StepOverShaped` | fig14/rdma-core/infiniband-diags/ibtracert.c:203-210 | A node's layer never exceeds its hop count, so the cap on the hop count keeps every layer index inside the array, whatever the fabric answers. |
| `McSearch.TryPortKeeps` | fig14/rdma-core/infiniband-diags/ibtracert.c:607-673 | One pass of the port loop keeps the whole search invariant: unique GUIDs, buckets, layers, direct routes as long as the layer demands. |
| `McSearch.HitIsShortest` | fig14/rdma-core/infiniband-diags/ibtracert.c:572-675 | A hit while layer d is expanded is a route of d + 1 hops to the target, and no route is shorter. |
| `McSearch.NoneLeft` | fig14/rdma-core/infiniband-diags/ibtracert.c:572-675 | When the last layer adds nothing there is no route at all, although known nodes are dropped and end nodes are not expanded. |
| `McSearch.AnswersByTable` | fig14/rdma-core/infiniband-diags/ibtracert.c:534-678 | When no table route leads over a missed port, the route found is a shortest one by the tables, and no route means that the tables have none. |
| `McSearch.Search.InsertNode` | fig14/rdma-core/infiniband-diags/ibtracert.c:412-428 | Refuses a GUID if and only if some node has it, looking only in its bucket. |
| `McSearch.Search.LinkNode` | fig14/rdma-core/infiniband-diags/ibtracert.c:458-482 | Target, known and new nodes are told apart, and a new node enters its bucket and its layer. |
| `McSearch.Search.ExpandLayer` | fig14/rdma-core/infiniband-diags/ibtracert.c:574-674 | Expanding layer d adds nodes to layer d + 1 only and keeps the search invariant; when it finishes, everything down to layer d is covered. |
| `McSearch.Search.FindMcPath` | fig14/rdma-core/infiniband-diags/ibtracert.c:534-678 | From a switch or an end node: the returned node's upnode chain is a shortest forwarding route to the target port; no route means there is none; running out of hops means every route is too long for the path array; an unreadable port lies on a route of the group and no target is as close. With every other answer no shorter route leads to an unreadable port, but for one by which a route arrives. A switch traced to itself needs its own port in the group, an end node is refused. |
| `Unicast.TurnKeeps` | fig14/rdma-core/infiniband-diags/ibtracert.c:303-378 | Each turn leaves the current node read at the current direct route, and a hop added at a switch is that switch's entry for the LID. |
| `Unicast.SwitchTurn` | fig14/rdma-core/infiniband-diags/ibtracert.c:303-327 | One turn at a switch is one hop of the fabric's own forwarding: it ends, goes on or fails exactly as that does. |
| `Unicast.LookupIs` | fig14/rdma-core/infiniband-diags/ibtracert.c:172-196 | For every table of bytes that the readable blocks of 64 show, a readable LID within either limit gets its byte, read as signed. |
| `Unicast.LookupFails` | fig14/rdma-core/infiniband-diags/ibtracert.c:172-196 | The lookup fails without SwitchInfo, without the block of the LID, and for a LID past both limits. |
| `Unicast.ReadUsable` | fig14/rdma-core/infiniband-diags/ibtracert.c:123-132 | What reading a station tells is whether a packet can pass it: an end node's port is in state 4, a switch's port 0 is if it is an enhanced one and in any state if it is not, and the entry is one of its ports. |
| `Unicast.StaysStranded` | fig14/rdma-core/infiniband-diags/ibtracert.c:328-360 | Forwarded to a wrong end node, the walk only goes back and forth and never succeeds. |
| `Unicast.OpenTurn` | fig14/rdma-core/infiniband-diags/ibtracert.c:303-378 | After every turn the answer is still the one of the fabric's own forwarding from where the start is left, or it is no and stays no. |
| `Unicast.BackTurn` | fig14/rdma-core/infiniband-diags/ibtracert.c:328-360 | Going one hop back from the start's own port leaves the answer that of forwarding from where the route came from. |
| `Unicast.FindRoute` | fig14/rdma-core/infiniband-diags/ibtracert.c:262-385 | For every start: succeeds if and only if the destination was read and forwarding, from the start or from where the walk leaves it, meets the destination within the turns and the path array that remain. Success means the last direct route is where the destination port was read, and each hop followed the tables, or the local port's own link. |
| `Unicast.OneHopTooFar` | fig14/rdma-core/infiniband-diags/ibtracert.c:303-385 | In a row of 63 switches forwarding meets the last one after 62 hops, which fit the path array, and the walk does not report it. |
| `WordBits.HeadBits` | fig14/rdma-core/ccan/bitmap.c:16-17 | The head mask holds exactly the bits from n % 64 on; its complement is the tail mask. |
| `WordBits.WordBitBits` | fig14/rdma-core/ccan/bitmap.h:38-39 | BITMAP_WORDBIT holds exactly bit n % 64, counted from the most significant end. |
| `WordBits.BitsEqual` | fig14/rdma-core/ccan/bitmap.h:119-125 | Two words are equal exactly when all 64 bits are. |
| `WordBits.Clz` | fig14/rdma-core/ccan/bitmap.c:62-77 | For a non-zero word the loop ends at the first set bit, which is inside the word. |
| `Bitmap.TestBit` | fig14/rdma-core/ccan/bitmap.h:69-72 | Reads exactly bit n of the packed words. |
| `Bitmap.SetBit` | fig14/rdma-core/ccan/bitmap.h:54-57 | Sets bit n and no other. |
| `Bitmap.ClearBit` | fig14/rdma-core/ccan/bitmap.h:59-62 | Clears bit n and no other. |
| `Bitmap.ChangeBit` | fig14/rdma-core/ccan/bitmap.h:64-67 | Flips bit n and no other. |
| `Bitmap.ZeroRange` | fig14/rdma-core/ccan/bitmap.c:12-35 | For every n <= m and every alignment: the bits from n up to m are clear and no other bit changed. |
| `Bitmap.FillRange` | fig14/rdma-core/ccan/bitmap.c:37-60 | The same with the bits set. |
| `Bitmap.ScanIs` | fig14/rdma-core/ccan/bitmap.c:79-125 | The bit-by-bit scan is the only index with no set bit before it and a set bit at it. |
| `Bitmap.Ffs` | fig14/rdma-core/ccan/bitmap.c:79-125 | For every n <= m the word-wise search gives what the bit-by-bit scan gives. |
| `Bitmap.ListsSetBits` | fig14/rdma-core/ccan/bitmap.c:79-125 | Searching again from one past each result lists exactly the set bits, in increasing order. |
| `Bitmap.BinOp` | fig14/rdma-core/ccan/bitmap.h:93-106 | and, or, xor and andnot act on every bit of the first words, also when the destination is a source; other words are unchanged. |
| `Bitmap.Complement` | fig14/rdma-core/ccan/bitmap.h:110-117 | Inverts every bit of the first words, also in place. |
| `Bitmap.Equal` | fig14/rdma-core/ccan/bitmap.h:119-125 | True exactly when no bit below nbits differs, whatever the stray bits of the last word. |
| `Bitmap.Intersects` | fig14/rdma-core/ccan/bitmap.h:127-140 | False exactly when no bit below nbits is in both. |
| `Bitmap.Subset` | fig14/rdma-core/ccan/bitmap.h:142-155 | True exactly when no bit below nbits is in the first and not in the second. |
| `Bitmap.Full` | fig14/rdma-core/ccan/bitmap.h:157-170 | True exactly when all bits below nbits are set. |
| `Bitmap.Empty` | fig14/rdma-core/ccan/bitmap.h:172-184 | True exactly when none is. |
| `Bitmap.Realloc0` | fig14/rdma-core/ccan/bitmap.h:217-226 | The old bits that fit are kept and every new bit is 0, although new memory is arbitrary. |
| `Bitmap.Realloc1` | fig14/rdma-core/ccan/bitmap.h:228-237 | The same with every new bit 1. |
| `BuddyBlocks.AddBlock` | fig14/rdma-core/providers/mlx5/dr_buddy.c:219-236 | Adding a block whose sibling is not whole makes exactly that block free and changes no other block. |
| `BuddyBlocks.TakeBlock` | fig14/rdma-core/providers/mlx5/dr_buddy.c:196-200 | Taking a free block removes exactly that block from the free ones. |
| `BuddyBlocks.FreeBlocksCover` | fig14/rdma-core/providers/mlx5/dr_buddy.c:153-236 | Every free unit is in exactly one free block. |
| `BuddyBlocks.FreeBlocksDetermine` | fig14/rdma-core/providers/mlx5/dr_buddy.c:153-236 | The free blocks determine the free units. |
| `BuddyBlocks.BlockSize` | fig14/rdma-core/providers/mlx5/dr_buddy.c:84-89 | A block of order o has 2^o units. |
| `BuddyBlocks.BlockIs` | fig14/rdma-core/providers/mlx5/dr_buddy.c:177-236 | Block k of order o is the units from k * 2^o up to the next multiple, and its segment number is the first of them. |
| `Buddy.TwoLayers` | fig14/rdma-core/providers/mlx5/dr_buddy.c:43-54 | Searching the upper bitmap and then the lower one finds the first set bit of the lower one. |
| `Buddy.SplitBlock` | fig14/rdma-core/providers/mlx5/dr_buddy.c:205-212 | Halving a taken block and marking its right half free leaves the free blocks of the remaining units. |
| `Buddy.JoinBlock` | fig14/rdma-core/providers/mlx5/dr_buddy.c:225-231 | Joining a block being freed with its free sibling takes the block above them. |
| `Buddy.AllGivenBack` | fig14/rdma-core/providers/mlx5/dr_buddy.c:56-103 | When nothing is in use the free bitmaps are the initial ones, whatever was allocated and freed in whatever order. |
| `Buddy.Level.First` | fig14/rdma-core/providers/mlx5/dr_buddy.c:43-54 | With a positive count the search succeeds and gives the least free block, so the failing branch of the caller cannot be reached. |
| `Buddy.Level.UpdateUpper` | fig14/rdma-core/providers/mlx5/dr_buddy.c:157-167 | Clears the upper bit exactly when its word of the lower bitmap is empty. |
| `Buddy.Level.Take` | fig14/rdma-core/providers/mlx5/dr_buddy.c:197-200 | Removes one free block and keeps both bitmaps and the count in agreement. |
| `Buddy.Level.Give` | fig14/rdma-core/providers/mlx5/dr_buddy.c:232-235 | Adds one free block and keeps them in agreement. |
| `Buddy.BuddyMem.constructor` | fig14/rdma-core/providers/mlx5/dr_buddy.c:56-103 | All units are free, as one block of the largest order. |
| `Buddy.BuddyMem.Alloc` | fig14/rdma-core/providers/mlx5/dr_buddy.c:177-217 | Fails if and only if no aligned block of that order is entirely free. Otherwise the block was free, is aligned, overlaps no block in use, is the left end of the first free block of the first order that has one, and the free bitmaps are again the maximal free blocks. |
| `Buddy.BuddyMem.Free` | fig14/rdma-core/providers/mlx5/dr_buddy.c:219-236 | Exactly the units of that block become free and the free bitmaps are again the maximal free blocks; no loop step leaves the tables. |
| `BuddyRuns.Step` | fig14/rdma-core/providers/mlx5/dr_buddy.c:177-236 | A request is refused exactly when no block of its order is whole, and is otherwise granted a whole one, whose units are no longer free; a return frees exactly what that request held. |
| `BuddyRuns.Run` | fig14/rdma-core/providers/mlx5/dr_buddy.c:56-236 | For every mix of requests and returns in any order, seen act by act with the units then free: each refusal came when no block of that order was whole, each grant was a whole free block, each return freed what was still held; exactly the grants not given back are held, no two of them share a unit with each other or with the free ones, and once nothing is held the free bitmaps are the initial ones. |
| `CsvText.PrettyCsv` | fig7/parse.py:12-31 | For every table: fails exactly when it has no rows or one shorter than the first; otherwise the transposing, measuring and padding loops print every row under the columns of the first, each cell right-justified to one more than its column's longest. |
| `CsvText.PadIs` | fig7/parse.py:27-28 | Padding puts blanks in front of the text, as many as the width asks for. |
| `CsvText.WidthIs` | fig7/parse.py:22 | A column is wider than each of its cells, and by just one than some. |
| `CsvText.HashToCsv` | fig7/parse.py:33-48 | Prints the header and, in the iteration order of the dictionaries, one row for each test with the table's name, the test's, and its own cells. |
| `CsvText.Row` | fig7/parse.py:39-46 | The first fields are the given name and the test, and each further one the test's value of that column, or "0" if it has none. |
| `CsvText.ParseCsv` | fig7/filter.py:4-20 | The loops compute the parse of the whole text, and fail exactly when a line has too few fields. |
| `CsvText.ParsesWhen` | fig7/filter.py:4-20 | The last line is ignored; parsing succeeds exactly when each other line has a second field and each past the first a value for every header field. |
| `CsvText.RowsAre` | fig7/filter.py:11-19 | For every text: a name in the second column holds the entry of the last row that has it, and nothing else is held. |
| `CsvText.EntryIs` | fig7/filter.py:14-19 | An entry holds, for every header field that is not blank, the stripped value of the last column with that stripped name, and nothing else. |
| `CsvText.StripIs` | fig7/filter.py:15-16 | Stripping takes exactly the white space off both ends. |
| `CsvText.SplitText` | fig7/parse.py:24-31 | Splitting the printed text at line breaks gives the printed rows and an empty rest. |
| `CsvText.RoundTrip` | fig7/parse.py:12-48 | Parsing a printed table gives every test under its padded name with its own value of every column, "0" where it has none, and nothing else, for all plain names and cells and non-empty column names. |
| `CsvText.NeverItself` | fig7/filter.py:4-20 | A test is never read back under its own name, whatever the name and the width of its column. |
| `Percentiles.Crossing` | fig7/perf_util.py:502-508 | The bin where the running count first exceeds p percent holds the least key with that property. |
| `Percentiles.NonDecreasing` | fig7/perf_util.py:502-508 | Percentiles do not decrease. |
| `Percentiles.PercentileOf` | fig7/perf_util.py:496-509 | For every list of measurements that a histogram counts, a percentile of the histogram is one of them and the least number that more than p percent of them do not exceed. |
| `Percentiles.Sweep` | fig7/perf_util.py:496-509 | For every sorted histogram of counts: ends, with 99 entries if anything was measured and none otherwise, and entry p is the least key that strictly more than p percent of the measurements do not exceed. |
| `Ilog.LogBounds64` | fig14/rdma-core/ccan/ilog.h:49-59 | What is left after r - 1 shifts being 1 means 2^(r-1) <= v < 2^r. |
| `Ilog.BoundsLog64` | fig14/rdma-core/ccan/ilog.h:49-59 | The converse. |
| `Ilog.LogBounds32` | fig14/rdma-core/ccan/ilog.h:9-28 | Both directions for 32 bits. |
| `Ilog.OneLog32` | fig14/rdma-core/ccan/ilog.h:9-28 | A value has one 32-bit logarithm. |
| `Ilog.OneLog64` | fig14/rdma-core/ccan/ilog.h:49-59 | A value has one 64-bit logarithm. |
| `Ilog.Branchless32` | fig14/rdma-core/ccan/ilog.c:35-52 | The branchless form gives the logarithm of every 32-bit value. |
| `Ilog.Branchless64` | fig14/rdma-core/ccan/ilog.c:74-95 | The branchless form gives the logarithm of every 64-bit value. |
| `Ilog.Table32` | fig14/rdma-core/ccan/ilog.c:20-23 | The table undoes the position of the top five bits of the shifted constant. |
| `Ilog.Table64` | fig14/rdma-core/ccan/ilog.c:116-121 | The same for six bits of the 64-bit constant. |
| `Ilog.Smear64` | fig14/rdma-core/ccan/ilog.c:124-130 | Smearing the top bit down, halving and adding one leaves the top bit alone. |
| `Ilog.Ilog32` | fig14/rdma-core/ccan/ilog.c:54-66 | The de Bruijn form gives the logarithm of every 32-bit value, 0 for 0. |
| `Ilog.Ilog64` | fig14/rdma-core/ccan/ilog.c:115-135 | The same for every 64-bit value. |
| `Ilog.Ilog64Halves` | fig14/rdma-core/ccan/ilog.c:97-113 | The same when only 32-bit words are available. |
| `Ilog.Static5IsLog` | fig14/rdma-core/ccan/ilog.h:139-147 | STATIC_ILOG_32 gives the logarithm of every 32-bit constant. |
| `Ilog.Static6IsLog` | fig14/rdma-core/ccan/ilog.h:139-149 | STATIC_ILOG_64 gives the logarithm of every 64-bit constant. |
| `Ilog.SameLog` | fig14/rdma-core/ccan/ilog.h:139-149 | A 32-bit value has the same logarithm in 32 and in 64 bits. |
| `Ilog.Agrees32` | fig14/rdma-core/ccan/ilog.h:139-147 | Every form that gives a 32-bit logarithm gives what STATIC_ILOG_32 gives. |
| `Ilog.Agrees64` | fig14/rdma-core/ccan/ilog.h:139-149 | Every form that gives a 64-bit logarithm gives what STATIC_ILOG_64 gives. |
| `DrPathText.AtoiOfDecimal` | fig14/rdma-core/libibmad/portid.c:96-118 | Reading a printed number gives it back. |
| `DrPathText.AtoiIs` | fig14/rdma-core/libibmad/portid.c:96 | For white space, at most one sign, digits and anything after them: the signed value of the digits, each by its power of ten. |
| `DrPathText.DecimalIs` | fig14/rdma-core/libibmad/portid.c:110-123 | A number is printed as the digits of that value, without a zero in front. |
| `DrPathText.PiecesAre` | fig14/rdma-core/libibmad/portid.c:93-101 | The fields have no commas, and joined by commas they are the text again, but for a comma at its end. |
| `DrPathText.RoundTrip` | fig14/rdma-core/libibmad/portid.c:79-123 | Reading a whole printed hop list gives the hops back, for every list. |
| `DrPathText.CutList` | fig14/rdma-core/libibmad/portid.c:79-123 | A hop list that is cut anywhere, be it inside the last number, reads back as other hops. |
| `DrPathText.ReadBack` | fig14/rdma-core/libibmad/portid.c:79-123 | What a buffer shows after the prefix reads back as the hops in use if and only if there are some and the whole text fits, or there are none and the buffer ends with the prefix. |
| `DrPathText.EmptyPathGainsHop` | fig14/rdma-core/libibmad/portid.c:110-123 | An empty path, printed whole, reads back as the hop left over in its array. |
| `DrPathText.DrPath.Parse` | fig14/rdma-core/libibmad/portid.c:79-108 | For every text: the path holds the number at the start of every comma-separated field, cut to a byte, with no hop after a trailing comma; -1 for an empty text. A LID that is 0 becomes 0xffff, any other is kept to 16 bits. A store outside the array happens if and only if there are more than 64 fields. |
| `DrPathText.DrPath.Print` | fig14/rdma-core/libibmad/portid.c:110-123 | The buffer holds the source LID, the destination LID and the hops, each in its place, cut to its size; the first hop is printed even when the path is empty. |
| `DrPathText.DrPath.Reread` | fig14/rdma-core/libibmad/portid.c:79-123 | For every path and every buffer larger than the prefix, printing and parsing gives the count and the hops back if and only if the path has hops and the whole text fits, or it has none and the buffer ends with the prefix. |
| `Counters.AggregateIs` | fig14/rdma-core/infiniband-diags/perfquery.c:109-156 | The test on the wrapped sum never misses an overflow: the result is the exact sum or the cap, whichever is less. |
| `Counters.FoldIs` | fig14/rdma-core/infiniband-diags/perfquery.c:109-156 | Aggregating any sequence of ports from zero gives the exact sum or the cap. |
| `Counters.OrderFree` | fig14/rdma-core/infiniband-diags/perfquery.c:109-156 | The order of the ports does not matter. |
| `Counters.Counter.Add` | fig14/rdma-core/infiniband-diags/perfquery.c:116-156 | One update keeps the counter at or below its cap and adds exactly, up to it. |

## Left out

- Input and output: MAD, SMP, netlink, sockets and sysfs calls, option parsing, printing of traces and all
  `main` functions. In ibtracert only the walk over an abstract fabric is modelled.
- `container_of` and the offset arithmetic of the typed list macros: nodes stand for the structures around them.
- The debug build of ccan/list, in which every operation checks the list first, and `list_for_each_rev_safe`.
- LinkedLists.ForEachSafe: bodies that add entries, or delete ones not yet visited.
- LibraryGraph.LibraryGraph.ComputeGraph: the exception that ends it, a changed set or too deep a recursion, is one
  outcome, after which nothing is said of the half-pruned graph.
- The `objcopy`, `ar` and `nm` steps, map files and `incorporate_internal` of the sanitizer.
- McSearch.Search.FindMcPath: not for a start at an end node whose direct route ends in a byte other than 0, which is
  one of some hops; there the code shortens that route instead of following the end node's link. One run from empty
  tables: they are static, so a second run would see the first one's nodes. The nodes are kept in order of
  allocation with their direct routes beside them, not as heap objects.
- Unicast.FindRoute: the force flag is not modelled.
- Multicast.SwitchMcLookup: a multicast LID below 0xC000, for which the block number or the index in it is negative.
- Byte order of bitmaps: `bitmap_bswap` is the identity. Words have 64 bits.
- Buddy.BuddyMem.constructor: allocation succeeds; the unwinding after a failure is not modelled. Orders are
  unbounded, so the width of `1 << order` is not a limit.
- Buddy.BuddyMem.Free: the block is one in use, as the callers keep it; `dr_buddy_cleanup` and the hot and used
  lists kept beside the bitmaps are not modelled.
- CsvText.HashToCsv: the iteration order of dictionaries and sets is a parameter, and cells are the strings that
  `%s` prints.
- Percentiles.Sweep: thresholds are exact, not floating point; counts are not negative.
- Of perf_util.py, the regular expressions that read the measurement logs, the averages over runs and
  `reject_outliers`, which drops the extreme ones.
- DrPathText.DrPath.Parse: numbers do not overflow `int`; a NULL text is not modelled; what a store outside the
  array destroys is not either.
- The table of fields in `aggregate_perfcounters` and the extended counters: each field is one `Counter`.
