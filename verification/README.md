# wikisearch: the search core, modelled in Dafny

wikisearch looks for a chain of Wikipedia article links from a start article
to a goal article. Its core, `src/search.rs`, has two parts:

- **`get_links`** scans the HTML of one fetched article. It looks for the
  content region `<div id="mw-content-text"` and collects every
  `<a href="/wiki/…"` target after it, up to the closing quote. Targets in
  the eight non-article namespaces (File, Category, Special, Talk,
  Wikipedia, Template, Portal, Help) are dropped. The rest come back as
  `https://en.wikipedia.org/wiki/<title>`.
- **`search`** is a breadth-first search driven by one thread.
  - It keeps a visited map `all` (node ↦ the node it was found from), the
    current frontier `in_search`, the next frontier `in_search_next`, and a
    state (`Idle`/`Processing`/`Error`) plus an in-flight node per worker slot.
  - Each pass of its drain loop does four things in order:
    1. it reports progress when something changed;
    2. it aborts when the queues exceed their bound;
    3. it polls every busy slot for a reply;
    4. it hands frontier nodes to idle slots.
  - When nothing is left at the current level, it swaps the frontiers.
  - When a delivered neighbour list contains the goal, it rebuilds the path
    through the parent links and returns it.

The project has four files:

- `wrappers.dfy`: `Option`.
- `link_scan.dfy` (module `LinkScan`): the scanner.
  - `GetLinks` is its loop. It is proved equal to the specification
    function `PageLinks`.
  - Lemmas say what `PageLinks` yields: which links, in what order, and from
    where in the text.
- `search_spec.dfy` (module `SearchSpec`): the value-level definitions the
  driver is proved against.
  - Parent-tree and depth predicates.
  - `Absorb`: the effect of one delivered list.
  - `SlotAfterDispatch` and `SlotAfterReply`: per-slot results of the two
    passes.
  - `CountDelivered`, `Requeued`, `AbsorbReplies` and `ChangedBy`: counter,
    frontier, visited map with next frontier, and changed-flag after the
    receive pass.
  - Lemmas about these definitions.
- `search_driver.dfy` (module `SearchDriver`): class `Driver`.
  - It holds the driver's state as fields. The slot tables are arrays.
  - Each step of `search` is a method: deliver, disconnect, dispatch, the
    receive pass, progress, a drain-loop pass, and the level advance.
  - The invariant `Valid()` has three parts, and every step keeps it:
    - the visited map is a tree rooted at the start node, with a ghost depth
      per node;
    - the frontiers hold nodes of the current level and of the next level;
    - a slot is `Processing` exactly when it has an in-flight node, and that
      node is a visited node of the current level.
  - From `Valid()`, every returned path is proved to run from the start
    through recorded parent links, one node per level, to the in-flight node
    of the first slot whose delivered list contains the goal, and then to
    the goal. That last hop is the delivery edge, not a recorded link. A
    path is returned exactly when some busy slot delivers such a list.

The worker threads, the channels and the network are not modelled. Each
step instead takes as inputs:

- what each reply channel yields (`Reply`);
- whether each send succeeds;
- whether the progress receiver is still open.

## Model

| member | source | states |
|---|---|---|
| LinkScan.Find | src/search.rs:22 | a found position is at or after the start and the pattern occurs there (str::find) |
| LinkScan.FindFirst | src/search.rs:28 | Find returns the first occurrence; when it returns none, the pattern occurs nowhere after the start |
| LinkScan.GetLinks | src/search.rs:22-49 | the scanning loop returns exactly PageLinks(html): no marker gives the empty list; None stands for the panic on an unclosed anchor |
| LinkScan.ScanFromScanned | src/search.rs:28-43 | the anchors the scan collects are what a left-to-right scan meets: each is the first anchor after the previous target's closing quote, and none follows the last |
| LinkScan.ScannedInOrder | src/search.rs:28-43 | every collected anchor is a complete anchor after the scan start with a quote-free target closed by a quote; anchors are in document order and do not overlap |
| LinkScan.ScannedUnique | src/search.rs:28-43 | the text determines the scanned anchor list uniquely |
| LinkScan.PanicOnUnclosedAnchor | src/search.rs:30 | the scan fails only when an anchor after the start has no closing quote after it |
| LinkScan.KeptFilters | src/search.rs:32-41 | every kept link is the article base plus the target of an anchor outside the eight namespaces; every such anchor's link is kept; at most one link per anchor |
| LinkScan.KeptConcat | src/search.rs:40 | filtering distributes over concatenation, so links keep the anchors' order |
| LinkScan.NoMarkerNoLinks | src/search.rs:22-23 | a page without the content marker yields the empty list |
| LinkScan.PageLinksAreArticles | src/search.rs:32-40 | every returned link starts with the article base, and its title has no quote and is outside the eight namespaces |
| LinkScan.PageLinksAfterMarker | src/search.rs:22-43 | with the marker, the links come from the anchors scanned from the marker's first occurrence, in document order |
| SearchSpec.AbsorbNeverOverwrites | src/search.rs:155-157 | a delivered list never overwrites a visited entry; every new entry's parent is the slot's in-flight node; the keys gained are exactly the neighbours not yet visited |
| SearchSpec.AbsorbQueuesInserted | src/search.rs:155-158 | the next frontier only grows at its end; what is appended is exactly the newly visited nodes, each once |
| SearchSpec.TreeGrows | src/search.rs:155-157 | recording a new node under a visited node keeps the visited map a tree rooted at the start, with the new node one level deeper |
| SearchSpec.IndexOf | src/search.rs:138-139 | the position where the neighbour loop meets the goal is its first occurrence, or the list's end when the goal is absent |
| SearchSpec.IndexOfFirst | src/search.rs:138-139 | a position holding the goal with no goal before it is the one IndexOf gives |
| SearchSpec.CountIdleGrowsPastIdle | src/search.rs:180-183 | dispatch is FIFO by slot index: an idle slot gets an earlier frontier position than any later slot |
| SearchSpec.Reverse | src/search.rs:151 | the reversed sequence has the same length, element k taken from the mirrored position |
| SearchDriver.Start | src/search.rs:59-70 | a search from a node to itself returns that node alone; otherwise the driver starts with the visited map {from ↦ ""}, frontier [from], empty next frontier, all slots Idle without in-flight nodes, zero processed, level 0, the changed-flag set, the given thread count and queue bound, and the invariant |
| SearchDriver.Driver.constructor | src/search.rs:64-109 | initial state: visited map, frontiers, idle slots without in-flight nodes, zero processed, changed-flag set; the invariant holds |
| SearchDriver.Driver.TracePath | src/search.rs:140-152 | the rebuilt path starts at the start node, ends with the goal, has the in-flight node second to last, follows recorded parent links, and has depth + 2 nodes |
| SearchDriver.Driver.OnDeliver | src/search.rs:134-163 | a delivery counts one page, returns a path iff the goal is among the neighbours, and otherwise absorbs the list and frees the slot; the path is a goal path through the in-flight node |
| SearchDriver.Driver.AbsorbNeighbors | src/search.rs:138-160 | the neighbour loop stops at the goal's first position and leaves the map and next frontier equal to Absorb of the neighbours before it |
| SearchDriver.Driver.Record | src/search.rs:155-158 | a new node is inserted with its parent and appended to the next frontier, and the invariant is kept |
| SearchDriver.Driver.OnDisconnect | src/search.rs:165-173 | a closed channel sets the slot to Error, clears its in-flight node and pushes that node onto the front of the frontier; other slots are unchanged |
| SearchDriver.Driver.Dispatch | src/search.rs:180-195 | after the dispatch pass, the first min(idle slots, frontier length) frontier nodes have gone, in order, to the idle slots by index; the changed-flag is set afterwards iff it was set before or a node was handed out |
| SearchDriver.Driver.DispatchOne | src/search.rs:181-194 | one slot step extends the dispatch-pass relation to the next slot |
| SearchDriver.Driver.TakeFront | src/search.rs:182-190 | an idle slot takes the frontier's front and ends Processing with it in flight, even when the send fails |
| SearchDriver.Driver.Harvest | src/search.rs:129-178 | only Processing slots change. A path is returned iff some Processing slot delivers a list containing the goal; its second-to-last node is the in-flight node of the first such slot, and it is a goal path. Without a path: each slot ends in SlotAfterReply; processed grows by the number of deliveries; lost nodes go to the frontier's front; the visited map and next frontier are AbsorbReplies of the delivered lists; the flag is ChangedBy of the replies |
| SearchDriver.Driver.ReceiveOne | src/search.rs:130-177 | one slot step returns a path iff the slot was Processing and its delivered list contains the goal, with that slot's in-flight node second to last; otherwise it extends the receive-pass relation (slots, processed, frontier, visited map, next frontier, flag) to the next slot |
| SearchDriver.Driver.Poll | src/search.rs:130-177 | a non-Processing slot is skipped. A path is returned iff the slot is Processing and delivers a list containing the goal, with its in-flight node second to last. Otherwise a reply updates the slot, processed and frontier as above; the visited map and next frontier are Absorb of the whole list on a delivery and unchanged otherwise, and the flag is set by a delivery or a closed channel. Visited entries are never overwritten, and the next frontier only grows |
| SearchSpec.AbsorbRepliesGrows | src/search.rs:129-178 | over a whole receive pass, visited entries are never overwritten and the next frontier is only appended to |
| SearchSpec.ChangedByExists | src/search.rs:136-169 | after the receive pass the flag is set iff it was set before, or some Processing slot got a delivery or a closed channel |
| SearchDriver.Driver.ReportProgress | src/search.rs:114-122 | the sample (processed, queued) is offered for sending iff the flag was set, whether or not the send succeeds; a closed receiver cancels; otherwise the flag is cleared |
| SearchDriver.Driver.Exchange | src/search.rs:129-195 | the receive pass returns a path iff some Processing slot delivers the goal, through the first such slot's in-flight node. Otherwise the dispatch pass follows: the slots are SlotAfterDispatch of the post-reply slots and requeued frontier; processed, the visited map, the next frontier and the flag are as after the receive pass, with the flag also set by a hand-out |
| SearchDriver.Driver.Round | src/search.rs:113-196 | one drain pass offers the progress sample iff the flag was set. It returns the empty path iff the receiver closed while the flag was set, or the queue bound was hit. It returns a non-empty path iff it did not abort and some Processing slot delivered the goal; that path is a goal path through the first such slot's in-flight node. A pass that continues leaves the state Exchange gives, starting from a cleared flag. An Error slot stays Error |
| SearchDriver.Driver.AdvanceLevel | src/search.rs:198-199 | when the drain loop ends, the next frontier becomes the frontier and the level rises by one; the invariant is kept |
| SearchDriver.Driver.Step | src/search.rs:111-200 | a busy driver runs a drain pass, with Round's sample, abort, path and continue results; a non-empty path comes only from a busy pass in which some Processing slot delivered the goal. An idle driver advances a level and leaves the visited map, processed, the changed-flag and every slot as they were. processed never decreases and an Error slot never recovers |

## Left out

- Fetching (`get_html`, reqwest) is not modelled. `GetLinks` takes the page text as input.
- A fetch error panics the worker and so surfaces as a disconnected channel. The model covers that through `Reply.Disconnected`.
- The worker threads, channel creation and the blocking worker loop (src/search.rs:72-97) are not modelled. The driver takes each reply, send result and receiver state as an input.
- The `eprintln!` diagnostics are left out.
- The `dead_threads_sender` notification is left out. So is the panic of its `unwrap` when that receiver is gone.
- src/app.rs and src/bench.rs are not part of this model.
- LinkScan.GetLinks: positions are character indices, not byte offsets. Every pattern searched for is ASCII, so the slicing is the same.
- LinkScan.GetLinks: the panic on an anchor without a closing quote is modelled as `None`, not as a crash.
- Shortest-path optimality of the found path is not proved. The proofs cover the parent tree, the levels and the path shape.
- That the frontiers hold no duplicates is not stated as an invariant; the path and tree properties do not depend on it.
- The outer loop has no exit when the search space is exhausted. When both frontiers are empty and no slot is busy, `Step` keeps advancing the level, as the outer loop does.
- Behaviour of the code that the model keeps as written:
  - A failed send marks the slot Error, but the next assignment makes it Processing with the node in flight (`TakeFront`).
  - Both aborts return the empty path rather than distinct outcomes (`Round`).
  - A fetch failure retires the slot and puts its page back at the front of the frontier. The next idle slot fetches it again, with no retry budget.
  - A progress sample can repeat an unchanged pair, because the flag tracks activity, not a change of the numbers.
  - `ReportProgress` returns the sample it offers for sending even when the send fails and the search is cancelled.
