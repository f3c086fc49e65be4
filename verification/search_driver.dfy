/**
 * The single-threaded bookkeeping of search (src/search.rs): the visited
 * map, the two frontiers, the per-slot state and in-flight tables and the
 * progress counters, updated one step at a time. Worker replies, send
 * results and whether the progress receiver is still open are inputs of
 * each step; the worker threads and channels themselves are not modelled.
 */
module SearchDriver {
  import opened Wrappers
  import opened SearchSpec

  /** What one pass of the drain loop leaves: keep looping, or return from search. */
  datatype Outcome = Continue | Return(path: seq<Node>)

  /**
   * The outside world seen by one pass: whether the progress receiver is
   * open, what each slot's reply channel gives, and whether each send succeeds.
   */
  datatype Events = Events(receiverOpen: bool, replies: seq<Reply>, sendOk: seq<bool>)

  class Driver {
    const from: Node
    const to: Node
    const numOfThreads: nat
    /** Bound on the two frontiers' combined length; 0 means no bound. */
    const maxNumOfLinks: nat
    const states: array<ThreadState>
    /** The node each slot is fetching, present exactly while it is Processing. */
    const plinks: array<Option<Node>>

    /** Visited map: each discovered node and the node it was discovered from. */
    var all: map<Node, Node>
    var inSearch: seq<Node>
    var inSearchNext: seq<Node>
    var processed: nat
    var numOfLinksChanged: bool
    var level: nat
    /** BFS depth of every visited node: the length of its parent chain. */
    ghost var depth: map<Node, nat>

    /** Every visited node other than `from` has a visited parent one level up. */
    ghost predicate ParentTree()
      reads this
    {
      IsParentTree(from, to, all, depth)
    }

    /** The frontier holds visited nodes of the current level, the next frontier those one level deeper. */
    ghost predicate Frontiers()
      reads this
      requires ParentTree()
    {
      AtDepth(inSearch, all, depth, level) && AtDepth(inSearchNext, all, depth, level + 1)
    }

    /** A slot is Processing exactly when it has an in-flight node, and in-flight nodes are visited nodes of the current level. */
    ghost predicate Slots()
      reads this, states, plinks
      requires ParentTree()
    {
      && states.Length == numOfThreads && plinks.Length == numOfThreads
      && (forall i :: 0 <= i < numOfThreads ==> (states[i] == Processing <==> plinks[i].Some?))
      && (forall i :: 0 <= i < numOfThreads && plinks[i].Some? ==>
            plinks[i].value in all && depth[plinks[i].value] == level)
    }

    ghost predicate Valid()
      reads this, states, plinks
    {
      ParentTree() && Frontiers() && Slots()
    }

    /**
     * A found path: from `from` through recorded parent links, one node per
     * level, then the goal. The last hop, into `to`, is not a recorded link:
     * it is the edge from a delivering slot's in-flight node.
     */
    ghost predicate IsGoalPath(path: seq<Node>)
      reads this
    {
      && |path| == level + 2
      && path[0] == from && path[|path| - 1] == to
      && forall k :: 0 < k < |path| - 1 ==> path[k] in all && all[path[k]] == path[k - 1]
    }

    /** The drain loop's condition: frontier non-empty or some slot Processing. */
    predicate Busy()
      reads this, states
    {
      inSearch != [] || exists j :: 0 <= j < states.Length && states[j] == Processing
    }

    predicate QueueFull()
      reads this
    {
      maxNumOfLinks > 0 && |inSearch| + |inSearchNext| >= maxNumOfLinks
    }

    /** The state search sets up before its loop. */
    constructor (from: Node, to: Node, numOfThreads: nat, maxNumOfLinks: nat)
      requires from != to
      ensures Valid() && fresh(states) && fresh(plinks)
      ensures this.from == from && this.to == to
      ensures this.numOfThreads == numOfThreads && this.maxNumOfLinks == maxNumOfLinks
      ensures all == map[from := ""] && inSearch == [from] && inSearchNext == []
      ensures processed == 0 && numOfLinksChanged && level == 0
      ensures forall i :: 0 <= i < numOfThreads ==> states[i] == Idle && plinks[i] == None
    {
      this.from := from;
      this.to := to;
      this.numOfThreads := numOfThreads;
      this.maxNumOfLinks := maxNumOfLinks;
      all := map[from := ""];
      depth := map[from := 0];
      inSearch := [from];
      inSearchNext := [];
      states := new ThreadState[numOfThreads](_ => Idle);
      plinks := new Option<Node>[numOfThreads](_ => None);
      processed := 0;
      level := 0;
      numOfLinksChanged := true;
    }

    /**
     * The path to `goal` found in the neighbours of `source`: walk the parent
     * chain from `source` back to `from`, then reverse.
     */
    method TracePath(goal: Node, source: Node) returns (path: seq<Node>)
      requires ParentTree() && source in all
      ensures |path| == depth[source] + 2
      ensures path[0] == from && path[|path| - 1] == goal && path[|path| - 2] == source
      ensures forall k :: 0 < k < |path| - 1 ==> path[k] in all && all[path[k]] == path[k - 1]
    {
      var res := [goal, source];
      var li := source;
      while li != from
        invariant li in all && depth[li] <= depth[source]
        invariant |res| == depth[source] - depth[li] + 2
        invariant res[0] == goal && res[1] == source && res[|res| - 1] == li
        invariant ParentChain(res, all)
        decreases depth[li]
      {
        ParentOneUp(from, to, all, depth, li);
        ParentChainGrows(res, all);
        li := all[li];
        res := res + [li];
      }
      path := Reverse(res);
    }

    /**
     * Slot `i` delivered the neighbour list `vs`. If `to` is among them the
     * search returns the path through the slot's in-flight node; otherwise
     * every new neighbour is recorded and queued and the slot becomes Idle.
     */
    method OnDeliver(i: nat, vs: seq<Node>) returns (path: Option<seq<Node>>)
      requires Valid() && i < numOfThreads && states[i] == Processing
      modifies this, states, plinks
      ensures Valid()
      ensures processed == old(processed) + 1 && numOfLinksChanged
      ensures inSearch == old(inSearch) && level == old(level)
      ensures (all, inSearchNext) == Absorb(old(all), old(inSearchNext), vs[..IndexOf(vs, to)], old(plinks[i]).value)
      ensures path.Some? <==> to in vs
      ensures path.Some? ==> IsGoalPath(path.value) && path.value[|path.value| - 2] == old(plinks[i]).value
      ensures path.Some? ==> unchanged(states, plinks)
      ensures path.None? ==> states[i] == Idle && plinks[i] == None
      ensures path.None? ==> forall j :: 0 <= j < numOfThreads && j != i ==>
        states[j] == old(states[j]) && plinks[j] == old(plinks[j])
    {
      var parent := plinks[i].value;
      processed := processed + 1;
      numOfLinksChanged := true;
      var k := AbsorbNeighbors(vs, parent);
      if k < |vs| {
        // vs[k] is the goal: return the path through the slot's in-flight node
        var p := TracePath(vs[k], parent);
        path := Some(p);
        return;
      }
      states[i] := Idle;
      plinks[i] := None;
      path := None;
    }

    /**
     * The loop over a delivered list (src/search.rs, lines 138-160): stop at
     * the goal, otherwise record and queue each neighbour not yet visited.
     * Returns where it stopped: the goal's first position, or |vs|.
     */
    method AbsorbNeighbors(vs: seq<Node>, parent: Node) returns (k: nat)
      requires Valid() && parent in all && depth[parent] == level
      modifies this`all, this`depth, this`inSearchNext, this`numOfLinksChanged
      ensures Valid() && parent in all && depth[parent] == level
      ensures k == IndexOf(vs, to)
      ensures (all, inSearchNext) == Absorb(old(all), old(inSearchNext), vs[..k], parent)
      ensures old(numOfLinksChanged) ==> numOfLinksChanged
    {
      k := 0;
      while k < |vs|
        invariant 0 <= k <= |vs|
        invariant to !in vs[..k]
        invariant (all, inSearchNext) == Absorb(old(all), old(inSearchNext), vs[..k], parent)
        invariant Valid() && parent in all && depth[parent] == level
        invariant old(numOfLinksChanged) ==> numOfLinksChanged
      {
        var c := vs[k];
        if c == to {
          IndexOfFirst(vs, to, k);
          return;
        }
        if c !in all {
          Record(c, parent);
          numOfLinksChanged := true;
        }
        assert vs[..k + 1][..k] == vs[..k];
        k := k + 1;
      }
      assert vs[..k] == vs;
    }

    /** Record a newly discovered node with its parent and queue it for the next level. */
    method Record(c: Node, parent: Node)
      requires Valid() && c !in all && c != to && parent in all && depth[parent] == level
      modifies this`all, this`depth, this`inSearchNext
      ensures Valid()
      ensures all == old(all)[c := parent] && inSearchNext == old(inSearchNext) + [c]
      ensures depth[parent] == level
    {
      TreeGrows(from, to, all, depth, c, parent);
      AtDepthGrows(inSearch, all, depth, level, c, parent, level + 1);
      AtDepthGrows(inSearchNext, all, depth, level + 1, c, parent, level + 1);
      all := all[c := parent];
      depth := depth[c := depth[parent] + 1];
      inSearchNext := inSearchNext + [c];
    }

    /** Slot `i`'s reply channel closed: retire it and put its node back at the front of the frontier. */
    method OnDisconnect(i: nat)
      requires Valid() && i < numOfThreads && states[i] == Processing
      modifies this, states, plinks
      ensures Valid()
      ensures states[i] == Error && plinks[i] == None
      ensures inSearch == [old(plinks[i]).value] + old(inSearch) && numOfLinksChanged
      ensures all == old(all) && inSearchNext == old(inSearchNext)
      ensures processed == old(processed) && level == old(level)
      ensures forall j :: 0 <= j < numOfThreads && j != i ==> states[j] == old(states[j]) && plinks[j] == old(plinks[j])
    {
      states[i] := Error;
      inSearch := [plinks[i].value] + inSearch;
      numOfLinksChanged := true;
      plinks[i] := None;
    }

    /**
     * One pass over the slots in index order: each Idle slot takes the front
     * of the frontier while it is non-empty. The slot ends Processing with
     * that node in flight whether or not the send succeeds.
     */
    method Dispatch(sendOk: seq<bool>)
      requires Valid() && |sendOk| == numOfThreads
      modifies this`inSearch, this`numOfLinksChanged, states, plinks
      ensures Valid()
      ensures var taken := Min(CountIdle(old(states[..])), |old(inSearch)|);
        && inSearch == old(inSearch)[taken..]
        && numOfLinksChanged == (old(numOfLinksChanged) || taken > 0)
      ensures forall j :: 0 <= j < numOfThreads ==>
        (states[j], plinks[j]) == SlotAfterDispatch(old(states[..]), old(plinks[..]), old(inSearch), j)
    {
      ghost var st0, pl0, q0 := states[..], plinks[..], inSearch;
      var i := 0;
      while i < numOfThreads
        invariant 0 <= i <= numOfThreads
        invariant Valid() && Dispatched(i, st0, pl0, q0, old(numOfLinksChanged))
      {
        DispatchOne(i, sendOk[i], st0, pl0, q0, old(numOfLinksChanged));
        i := i + 1;
      }
      assert st0[..numOfThreads] == st0;
    }

    /**
     * The dispatch pass has visited the first `n` slots of the snapshot `st0`,
     * `pl0`, starting from the frontier `q0` and the changed-flag `changed0`.
     */
    ghost predicate Dispatched(n: nat, st0: seq<ThreadState>, pl0: seq<Option<Node>>, q0: seq<Node>, changed0: bool)
      reads this, states, plinks
    {
      && n <= numOfThreads == |st0| == |pl0| == states.Length == plinks.Length
      && inSearch == q0[Min(CountIdle(st0[..n]), |q0|)..]
      && numOfLinksChanged == (changed0 || Min(CountIdle(st0[..n]), |q0|) > 0)
      && forall j :: 0 <= j < numOfThreads ==>
           (states[j], plinks[j]) == if j < n then SlotAfterDispatch(st0, pl0, q0, j) else (st0[j], pl0[j])
    }

    /** One step of the dispatch pass: slot `i` takes the front of the frontier if it is Idle and the frontier is non-empty. */
    method DispatchOne(i: nat, sendOk: bool, ghost st0: seq<ThreadState>, ghost pl0: seq<Option<Node>>, ghost q0: seq<Node>, ghost changed0: bool)
      requires Valid() && i < numOfThreads && Dispatched(i, st0, pl0, q0, changed0)
      modifies this`inSearch, this`numOfLinksChanged, states, plinks
      ensures Valid() && Dispatched(i + 1, st0, pl0, q0, changed0)
    {
      CountIdleStep(st0, i);
      if states[i] == Idle {
        if inSearch != [] {
          TakeFront(i, sendOk);
        }
      }
    }

    /**
     * Idle slot `i` takes the front of the frontier. A failed send marks it
     * Error, but the next write makes it Processing all the same.
     */
    method TakeFront(i: nat, sendOk: bool)
      requires Valid() && i < numOfThreads && states[i] == Idle && inSearch != []
      modifies this`inSearch, this`numOfLinksChanged, states, plinks
      ensures Valid()
      ensures inSearch == old(inSearch)[1..] && numOfLinksChanged
      ensures states[i] == Processing && plinks[i] == Some(old(inSearch)[0])
      ensures forall j :: 0 <= j < numOfThreads && j != i ==> states[j] == old(states[j]) && plinks[j] == old(plinks[j])
    {
      var link := inSearch[0];
      inSearch := inSearch[1..];
      numOfLinksChanged := true;
      if !sendOk {
        states[i] := Error;
      }
      states[i] := Processing;
      plinks[i] := Some(link);
    }

    /**
     * The receive pass: every Processing slot is polled once, in index order.
     * Idle and Error slots are not touched.
     */
    method Harvest(replies: seq<Reply>) returns (path: Option<seq<Node>>)
      requires Valid() && |replies| == numOfThreads
      modifies this, states, plinks
      ensures Valid()
      ensures path.None? ==> forall j :: 0 <= j < numOfThreads ==>
        (states[j], plinks[j]) == SlotAfterReply(old(states[j]), old(plinks[j]), replies[j])
      ensures path.None? ==> processed == CountDelivered(old(states[..]), replies, numOfThreads, old(processed))
      ensures path.None? ==> inSearch == Requeued(old(states[..]), old(plinks[..]), replies, numOfThreads, old(inSearch))
      ensures path.None? ==> (all, inSearchNext) == AbsorbReplies(old(states[..]), old(plinks[..]), replies, numOfThreads, old(all), old(inSearchNext))
      ensures path.None? ==> numOfLinksChanged == ChangedBy(old(states[..]), replies, numOfThreads, old(numOfLinksChanged))
      ensures level == old(level) && old(processed) <= processed
      ensures forall j :: 0 <= j < numOfThreads && old(states[j]) != Processing ==> states[j] == old(states[j])
      ensures path.Some? <==> GoalReplied(old(states[..]), replies, to)
      ensures path.Some? ==> IsGoalPath(path.value) && FoundVia(path.value, old(states[..]), old(plinks[..]), replies, to)
    {
      ghost var st0, pl0 := states[..], plinks[..];
      path := None;
      var i := 0;
      while i < numOfThreads
        invariant 0 <= i <= numOfThreads
        invariant Valid() && path == None
        invariant Harvested(replies, i, st0, pl0, old(processed), old(inSearch), old(all), old(inSearchNext), old(numOfLinksChanged))
        invariant level == old(level) && old(processed) <= processed
      {
        path := ReceiveOne(replies, i, st0, pl0, old(processed), old(inSearch), old(all), old(inSearchNext), old(numOfLinksChanged));
        if path.Some? {
          return;
        }
        i := i + 1;
      }
      assert !GoalReplied(st0, replies, to);
    }

    /**
     * The receive pass has polled the first `n` slots of the snapshot `st0`, `pl0`
     * taken when the pass began (with `processed0` pages, frontier `queue0`,
     * visited map `all0`, next frontier `next0` and changed-flag `changed0`);
     * none of their replies delivered the goal.
     */
    ghost predicate Harvested(replies: seq<Reply>, n: nat, st0: seq<ThreadState>, pl0: seq<Option<Node>>, processed0: nat, queue0: seq<Node>,
                              all0: map<Node, Node>, next0: seq<Node>, changed0: bool)
      reads this, states, plinks
    {
      && n <= numOfThreads == |replies| == |st0| == |pl0| == states.Length == plinks.Length
      && (forall j :: 0 <= j < numOfThreads ==>
           (states[j], plinks[j]) == if j < n then SlotAfterReply(st0[j], pl0[j], replies[j]) else (st0[j], pl0[j]))
      && processed == CountDelivered(st0, replies, n, processed0)
      && inSearch == Requeued(st0, pl0, replies, n, queue0)
      && (all, inSearchNext) == AbsorbReplies(st0, pl0, replies, n, all0, next0)
      && numOfLinksChanged == ChangedBy(st0, replies, n, changed0)
      && forall j :: 0 <= j < n ==> !GoalReply(st0[j], replies[j], to)
    }

    /** One step of the receive pass: poll slot `i` and extend `Harvested` to `i + 1`. */
    method ReceiveOne(replies: seq<Reply>, i: nat, ghost st0: seq<ThreadState>, ghost pl0: seq<Option<Node>>, ghost processed0: nat, ghost queue0: seq<Node>,
                      ghost all0: map<Node, Node>, ghost next0: seq<Node>, ghost changed0: bool)
      returns (path: Option<seq<Node>>)
      requires Valid() && i < numOfThreads && Harvested(replies, i, st0, pl0, processed0, queue0, all0, next0, changed0)
      modifies this, states, plinks
      ensures Valid() && level == old(level) && old(processed) <= processed
      ensures forall j :: 0 <= j < numOfThreads && old(states[j]) != Processing ==> states[j] == old(states[j])
      ensures path.Some? <==> GoalReply(st0[i], replies[i], to)
      ensures path.Some? ==> IsGoalPath(path.value) && pl0[i].Some? && path.value[|path.value| - 2] == pl0[i].value
      ensures path.Some? ==> GoalReplied(st0, replies, to) && FoundVia(path.value, st0, pl0, replies, to)
      ensures path.None? ==> Harvested(replies, i + 1, st0, pl0, processed0, queue0, all0, next0, changed0)
    {
      assert CountDelivered(st0, replies, i + 1, processed0) == processed + Received(st0[i], replies[i]);
      assert Requeued(st0, pl0, replies, i + 1, queue0) == Lost(st0[i], pl0[i], replies[i]) + inSearch;
      assert AbsorbReplies(st0, pl0, replies, i + 1, all0, next0) == AbsorbReply(st0[i], pl0[i], replies[i], all, inSearchNext);
      assert ChangedBy(st0, replies, i + 1, changed0) == (numOfLinksChanged || Touched(st0[i], replies[i]));
      path := Poll(i, replies[i]);
    }

    /**
     * The receive step for slot `i` (src/search.rs, lines 130-177): a slot
     * that is not Processing is skipped; otherwise its reply is handled.
     */
    method Poll(i: nat, reply: Reply) returns (path: Option<seq<Node>>)
      requires Valid() && i < numOfThreads
      modifies this, states, plinks
      ensures Valid()
      ensures level == old(level)
      ensures forall k :: k in old(all) ==> k in all && all[k] == old(all)[k]
      ensures old(inSearchNext) <= inSearchNext
      ensures path.Some? <==> GoalReply(old(states[i]), reply, to)
      ensures path.Some? ==> IsGoalPath(path.value) && old(processed) < processed
      ensures path.Some? ==> path.value[|path.value| - 2] == old(plinks[i]).value
      ensures path.Some? ==> unchanged(states, plinks)
      ensures old(states[i]) != Processing ==> path.None? && states[i] == old(states[i])
      ensures path.None? ==> processed == old(processed) + Received(old(states[i]), reply)
      ensures path.None? ==> inSearch == Lost(old(states[i]), old(plinks[i]), reply) + old(inSearch)
      ensures path.None? ==> (states[i], plinks[i]) == SlotAfterReply(old(states[i]), old(plinks[i]), reply)
      ensures path.None? ==> (all, inSearchNext) == AbsorbReply(old(states[i]), old(plinks[i]), reply, old(all), old(inSearchNext))
      ensures path.None? ==> numOfLinksChanged == (old(numOfLinksChanged) || Touched(old(states[i]), reply))
      ensures forall j :: 0 <= j < numOfThreads && j != i ==> states[j] == old(states[j]) && plinks[j] == old(plinks[j])
    {
      path := None;
      if states[i] == Processing {
        match reply
        case Delivered(vs) =>
          ghost var all0, next0, parent := all, inSearchNext, plinks[i].value;
          path := OnDeliver(i, vs);
          if path.None? {
            assert vs[..IndexOf(vs, to)] == vs;
          }
          AbsorbNeverOverwrites(all0, next0, vs[..IndexOf(vs, to)], parent);
          AbsorbQueuesInserted(all0, next0, vs[..IndexOf(vs, to)], parent);
        case Disconnected =>
          OnDisconnect(i);
        case NoReply =>
      }
    }

    /**
     * Offer the progress sample (processed, queued) for sending if the
     * changed-flag is set; `offered` is that message whether or not the send
     * succeeds. A closed receiver makes the send fail and cancels the search.
     */
    method ReportProgress(receiverOpen: bool) returns (offered: Option<(nat, nat)>, cancelled: bool)
      modifies this`numOfLinksChanged
      ensures offered == (if old(numOfLinksChanged) then Some((processed, |inSearch| + |inSearchNext|)) else None)
      ensures cancelled <==> old(numOfLinksChanged) && !receiverOpen
      ensures numOfLinksChanged == cancelled
    {
      offered, cancelled := None, false;
      if numOfLinksChanged {
        var queued: nat := |inSearch| + |inSearchNext|;
        offered := Some((processed, queued));
        if !receiverOpen {
          cancelled := true;
          return;
        }
        numOfLinksChanged := false;
      }
    }

    /**
     * The state after a drain pass that ends in Continue, from the state
     * `st0`, `pl0`, `q0`, `all0`, `next0`, `processed0` at the start of its
     * receive step and the changed-flag `changed0` then: the receive pass
     * applies the replies, then the dispatch pass hands out the frontier.
     */
    ghost predicate AfterPass(replies: seq<Reply>, st0: seq<ThreadState>, pl0: seq<Option<Node>>, q0: seq<Node>,
                              all0: map<Node, Node>, next0: seq<Node>, processed0: nat, changed0: bool)
      reads this, states, plinks
      requires |st0| == |pl0| == |replies| == numOfThreads
    {
      var st1 := ReplyStates(st0, pl0, replies);
      var pl1 := ReplyPlinks(st0, pl0, replies);
      var q1 := Requeued(st0, pl0, replies, numOfThreads, q0);
      var taken := Min(CountIdle(st1), |q1|);
      && states.Length == numOfThreads && plinks.Length == numOfThreads
      && processed == CountDelivered(st0, replies, numOfThreads, processed0)
      && (all, inSearchNext) == AbsorbReplies(st0, pl0, replies, numOfThreads, all0, next0)
      && inSearch == q1[taken..]
      && numOfLinksChanged == (ChangedBy(st0, replies, numOfThreads, changed0) || taken > 0)
      && forall j :: 0 <= j < numOfThreads ==> (states[j], plinks[j]) == SlotAfterDispatch(st1, pl1, q1, j)
    }

    /**
     * One pass of the drain loop: report progress, check the queue bound,
     * receive from the busy slots, then dispatch to the idle ones. Both
     * aborts return the empty path.
     */
    method Round(ev: Events) returns (offered: Option<(nat, nat)>, outcome: Outcome)
      requires Valid() && |ev.replies| == numOfThreads && |ev.sendOk| == numOfThreads
      modifies this, states, plinks
      ensures Valid()
      ensures offered == (if old(numOfLinksChanged)
        then Some((old(processed), |old(inSearch)| + |old(inSearchNext)|)) else None)
      ensures outcome == Return([]) <==> (old(numOfLinksChanged) && !ev.receiverOpen) || old(QueueFull())
      ensures outcome.Return? && outcome.path != [] <==>
        !((old(numOfLinksChanged) && !ev.receiverOpen) || old(QueueFull())) && GoalReplied(old(states[..]), ev.replies, to)
      ensures outcome.Return? && outcome.path != [] ==>
        IsGoalPath(outcome.path) && FoundVia(outcome.path, old(states[..]), old(plinks[..]), ev.replies, to)
      ensures level == old(level) && old(processed) <= processed
      ensures forall j :: 0 <= j < numOfThreads && old(states[j]) == Error ==> states[j] == Error
      ensures outcome == Continue ==>
        AfterPass(ev.replies, old(states[..]), old(plinks[..]), old(inSearch), old(all), old(inSearchNext), old(processed), false)
    {
      var cancelled;
      offered, cancelled := ReportProgress(ev.receiverOpen);
      if cancelled {
        return offered, Return([]);
      }
      if QueueFull() {
        return offered, Return([]);
      }
      var path := Exchange(ev.replies, ev.sendOk);
      if path.Some? {
        return offered, Return(path.value);
      }
      outcome := Continue;
    }

    /** The receive pass followed, when it finds no path, by the dispatch pass. */
    method Exchange(replies: seq<Reply>, sendOk: seq<bool>) returns (path: Option<seq<Node>>)
      requires Valid() && |replies| == numOfThreads && |sendOk| == numOfThreads
      modifies this, states, plinks
      ensures Valid()
      ensures path.Some? <==> GoalReplied(old(states[..]), replies, to)
      ensures path.Some? ==> IsGoalPath(path.value) && FoundVia(path.value, old(states[..]), old(plinks[..]), replies, to)
      ensures level == old(level) && old(processed) <= processed
      ensures forall j :: 0 <= j < numOfThreads && old(states[j]) == Error ==> states[j] == Error
      ensures path.None? ==>
        AfterPass(replies, old(states[..]), old(plinks[..]), old(inSearch), old(all), old(inSearchNext), old(processed), old(numOfLinksChanged))
    {
      path := Harvest(replies);
      if path.Some? {
        return;
      }
      assert states[..] == ReplyStates(old(states[..]), old(plinks[..]), replies);
      assert plinks[..] == ReplyPlinks(old(states[..]), old(plinks[..]), replies);
      Dispatch(sendOk);
    }

    /** The drain loop has ended: swap the frontiers and go one level deeper. */
    method AdvanceLevel()
      requires Valid() && !Busy()
      modifies this`inSearch, this`inSearchNext, this`level
      ensures Valid()
      ensures inSearch == old(inSearchNext) && inSearchNext == [] && level == old(level) + 1
      ensures old(inSearchNext) == [] ==> !Busy()
    {
      inSearch, inSearchNext := inSearchNext, inSearch;
      level := level + 1;
    }

    /** One turn of the outer loop: a drain pass while busy, otherwise a level advance. */
    method Step(ev: Events) returns (offered: Option<(nat, nat)>, outcome: Outcome)
      requires Valid() && |ev.replies| == numOfThreads && |ev.sendOk| == numOfThreads
      modifies this, states, plinks
      ensures Valid()
      ensures old(Busy()) ==> level == old(level)
      ensures old(Busy()) ==> && offered == (if old(numOfLinksChanged)
                                  then Some((old(processed), |old(inSearch)| + |old(inSearchNext)|)) else None)
                              && (outcome == Return([]) <==> (old(numOfLinksChanged) && !ev.receiverOpen) || old(QueueFull()))
      ensures old(Busy()) && outcome == Continue ==>
        AfterPass(ev.replies, old(states[..]), old(plinks[..]), old(inSearch), old(all), old(inSearchNext), old(processed), false)
      ensures !old(Busy()) ==> && outcome == Continue && offered == None
                               && level == old(level) + 1 && inSearch == old(inSearchNext) && inSearchNext == []
                               && all == old(all) && processed == old(processed)
                               && numOfLinksChanged == old(numOfLinksChanged)
                               && (forall j :: 0 <= j < numOfThreads ==> states[j] == old(states[j]) && plinks[j] == old(plinks[j]))
      ensures outcome.Return? && outcome.path != [] <==>
        old(Busy()) && !((old(numOfLinksChanged) && !ev.receiverOpen) || old(QueueFull())) && GoalReplied(old(states[..]), ev.replies, to)
      ensures outcome.Return? && outcome.path != [] ==>
        IsGoalPath(outcome.path) && FoundVia(outcome.path, old(states[..]), old(plinks[..]), ev.replies, to)
      ensures old(processed) <= processed
      ensures forall j :: 0 <= j < numOfThreads && old(states[j]) == Error ==> states[j] == Error
    {
      if Busy() {
        offered, outcome := Round(ev);
      } else {
        AdvanceLevel();
        offered, outcome := None, Continue;
      }
    }
  }

  /**
   * The start of search: a search from a node to itself returns that node
   * alone and sets nothing up; otherwise the driver state is created.
   */
  method Start(from: Node, to: Node, numOfThreads: nat, maxNumOfLinks: nat)
    returns (trivial: Option<seq<Node>>, driver: Driver?)
    ensures from == to ==> trivial == Some([from]) && driver == null
    ensures from != to ==> && trivial == None && driver != null && fresh(driver)
                           && fresh(driver.states) && fresh(driver.plinks) && driver.Valid()
                           && driver.from == from && driver.to == to
                           && driver.all == map[from := ""] && driver.inSearch == [from]
                           && driver.inSearchNext == [] && driver.processed == 0
                           && driver.numOfThreads == numOfThreads && driver.maxNumOfLinks == maxNumOfLinks
                           && driver.level == 0 && driver.numOfLinksChanged
                           && forall i :: 0 <= i < numOfThreads ==> driver.states[i] == Idle && driver.plinks[i] == None
  {
    if from == to {
      return Some([from]), null;
    }
    driver := new Driver(from, to, numOfThreads, maxNumOfLinks);
    trivial := None;
  }
}
