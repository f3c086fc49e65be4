/**
 * Pure definitions behind the BFS driver of search (src/search.rs): the
 * worker-slot states, how one delivered neighbour list updates the visited
 * map and the next frontier, how dispatch hands frontier nodes to idle
 * slots, and the sequence helpers the path reconstruction uses.
 */
module SearchSpec {
  import opened Wrappers

  /** A page address; equality is exact string equality. */
  type Node = string

  /** The state of one worker slot (ThreadState in the source). */
  datatype ThreadState = Idle | Processing | Error

  ghost predicate NoDup<T>(s: seq<T>)
  {
    forall a, b :: 0 <= a < b < |s| ==> s[a] != s[b]
  }

  /**
   * `all` is a tree of parent links rooted at `root`, which maps to the empty
   * string; `depth` gives each node's distance from the root; `goal` is absent.
   */
  ghost predicate IsParentTree(root: Node, goal: Node, all: map<Node, Node>, depth: map<Node, nat>)
  {
    && root != goal
    && root in all && all[root] == ""
    && goal !in all
    && depth.Keys == all.Keys && depth[root] == 0
    && forall k :: k in all && k != root ==> all[k] in all && depth[k] == depth[all[k]] + 1
  }

  /** The parent of a non-root node is in the tree, one level up. */
  lemma ParentOneUp(root: Node, goal: Node, all: map<Node, Node>, depth: map<Node, nat>, k: Node)
    requires IsParentTree(root, goal, all, depth) && k in all && k != root
    ensures all[k] in all && k in depth && all[k] in depth && depth[k] == depth[all[k]] + 1
  {
  }

  /** Each node of `chain` strictly inside it is visited and has the next node as its parent. */
  ghost predicate ParentChain(chain: seq<Node>, all: map<Node, Node>)
  {
    forall k :: 1 <= k < |chain| - 1 ==> chain[k] in all && all[chain[k]] == chain[k + 1]
  }

  /** A chain grows by the parent of its last node. */
  lemma ParentChainGrows(chain: seq<Node>, all: map<Node, Node>)
    requires ParentChain(chain, all) && |chain| >= 2 && chain[|chain| - 1] in all
    ensures ParentChain(chain + [all[chain[|chain| - 1]]], all)
  {
  }

  /** Every node of `queue` is in the tree at depth `d`. */
  ghost predicate AtDepth(queue: seq<Node>, all: map<Node, Node>, depth: map<Node, nat>, d: nat)
  {
    forall k :: 0 <= k < |queue| ==> queue[k] in all && queue[k] in depth && depth[queue[k]] == d
  }

  /** Adding a new node under a node of the tree keeps it a tree, the new node one level deeper. */
  lemma TreeGrows(root: Node, goal: Node, all: map<Node, Node>, depth: map<Node, nat>, c: Node, parent: Node)
    requires IsParentTree(root, goal, all, depth) && c !in all && c != goal && parent in all
    ensures IsParentTree(root, goal, all[c := parent], depth[c := depth[parent] + 1])
  {
    var all', depth' := all[c := parent], depth[c := depth[parent] + 1];
    forall k | k in all' && k != root
      ensures all'[k] in all' && depth'[k] == depth'[all'[k]] + 1
    {
      if k != c {
        assert all'[k] == all[k] && all[k] != c;
      }
    }
  }

  /** A queue at depth `d` stays at depth `d` when a new node enters the tree, and may take that node if it is at `d`. */
  lemma AtDepthGrows(queue: seq<Node>, all: map<Node, Node>, depth: map<Node, nat>, d: nat, c: Node, parent: Node, dc: nat)
    requires AtDepth(queue, all, depth, d) && c !in all
    ensures AtDepth(queue, all[c := parent], depth[c := dc], d)
    ensures dc == d ==> AtDepth(queue + [c], all[c := parent], depth[c := dc], d)
  {
  }

  /**
   * The visited map and next frontier after the neighbours `vs`, taken left
   * to right, are seen from `parent`: a neighbour that is not yet a key is
   * recorded with `parent` and appended to the next frontier.
   */
  function Absorb(all: map<Node, Node>, next: seq<Node>, vs: seq<Node>, parent: Node): (map<Node, Node>, seq<Node>)
    decreases |vs|
  {
    if vs == [] then (all, next)
    else
      var (all', next') := Absorb(all, next, vs[..|vs| - 1], parent);
      var c := vs[|vs| - 1];
      if c in all' then (all', next') else (all'[c := parent], next' + [c])
  }

  /**
   * Insert-once: entries already present are never overwritten, every new
   * entry has `parent` as its parent, and the keys gained are exactly the
   * neighbours not yet present.
   */
  lemma {:induction false} AbsorbNeverOverwrites(all: map<Node, Node>, next: seq<Node>, vs: seq<Node>, parent: Node)
    ensures var (all', _) := Absorb(all, next, vs, parent);
      && (forall k :: k in all ==> k in all' && all'[k] == all[k])
      && (forall k :: k in all' && k !in all ==> all'[k] == parent)
      && all'.Keys == all.Keys + (set c | c in vs)
    decreases |vs|
  {
    if vs != [] {
      var init := vs[..|vs| - 1];
      AbsorbNeverOverwrites(all, next, init, parent);
      assert vs == init + [vs[|vs| - 1]];
      assert (set c | c in vs) == (set c | c in init) + {vs[|vs| - 1]};
    }
  }

  /**
   * Queue discipline: the next frontier only grows at its end, and what is
   * appended is exactly the set of newly inserted keys, each once.
   */
  lemma {:induction false} AbsorbQueuesInserted(all: map<Node, Node>, next: seq<Node>, vs: seq<Node>, parent: Node)
    ensures var (all', next') := Absorb(all, next, vs, parent);
      && |next| <= |next'| && next'[..|next|] == next
      && (forall j :: |next| <= j < |next'| ==> next'[j] in all' && next'[j] !in all)
      && (forall k :: k in all' && k !in all ==> k in next'[|next|..])
      && NoDup(next'[|next|..])
    decreases |vs|
  {
    if vs != [] {
      var init := vs[..|vs| - 1];
      AbsorbQueuesInserted(all, next, init, parent);
      AbsorbNeverOverwrites(all, next, init, parent);
      var (a0, q0) := Absorb(all, next, init, parent);
      var c := vs[|vs| - 1];
      if c !in a0 {
        var q1 := q0 + [c];
        assert q1[|next|..] == q0[|next|..] + [c];
        assert c !in q0[|next|..];
      }
    }
  }

  /** Position of the first `x` in `vs`, or |vs| when it is absent. */
  function IndexOf(vs: seq<Node>, x: Node): (k: nat)
    ensures k <= |vs| && x !in vs[..k]
    ensures k < |vs| <==> x in vs
    ensures k < |vs| ==> vs[k] == x
  {
    if vs == [] then 0
    else if vs[0] == x then 0
    else 1 + IndexOf(vs[1..], x)
  }

  /** The first occurrence is the one IndexOf finds. */
  lemma IndexOfFirst(vs: seq<Node>, x: Node, k: nat)
    requires k < |vs| && vs[k] == x && x !in vs[..k]
    ensures IndexOf(vs, x) == k
  {
  }

  function Reverse<T>(s: seq<T>): (r: seq<T>)
    ensures |r| == |s|
    ensures forall k :: 0 <= k < |s| ==> r[k] == s[|s| - 1 - k]
  {
    if s == [] then [] else Reverse(s[1..]) + [s[0]]
  }

  /** Number of Idle slots among `states`. */
  function CountIdle(states: seq<ThreadState>): (c: nat)
    ensures c <= |states|
  {
    if states == [] then 0
    else CountIdle(states[..|states| - 1]) + (if states[|states| - 1] == Idle then 1 else 0)
  }

  function Min(a: nat, b: nat): nat { if a <= b then a else b }

  /**
   * A slot's state and in-flight node after one dispatch pass over `states`
   * with frontier `queue`: the Idle slots, in index order, take the frontier's
   * nodes from the front while any remain; every other slot is untouched.
   */
  function SlotAfterDispatch(states: seq<ThreadState>, plinks: seq<Option<Node>>, queue: seq<Node>, j: nat)
    : (ThreadState, Option<Node>)
    requires j < |states| == |plinks|
  {
    var c := CountIdle(states[..j]);
    if states[j] == Idle && c < |queue| then (Processing, Some(queue[c])) else (states[j], plinks[j])
  }

  /**
   * FIFO hand-out: an Idle slot with a lower index than another slot is given
   * an earlier frontier position.
   */
  lemma {:induction false} CountIdleGrowsPastIdle(states: seq<ThreadState>, j: nat, l: nat)
    requires j < l <= |states| && states[j] == Idle
    ensures CountIdle(states[..j]) < CountIdle(states[..l])
    decreases l
  {
    var p := states[..l];
    assert p[..l - 1] == states[..l - 1];
    if j < l - 1 {
      CountIdleGrowsPastIdle(states, j, l - 1);
    } else {
      assert p[..l - 1] == states[..j];
    }
  }

  /** CountIdle over a prefix one element longer. */
  lemma CountIdleStep(states: seq<ThreadState>, i: nat)
    requires i < |states|
    ensures CountIdle(states[..i + 1]) == CountIdle(states[..i]) + (if states[i] == Idle then 1 else 0)
  {
    assert states[..i + 1][..i] == states[..i];
  }

  /** What a non-blocking receive on a busy slot's reply channel gives (try_recv). */
  datatype Reply = Delivered(neighbors: seq<Node>) | NoReply | Disconnected

  /**
   * A slot's state and in-flight node after the receive pass: only a
   * Processing slot is polled; a delivery makes it Idle, a closed channel
   * makes it Error, and no reply leaves it as it was.
   */
  function SlotAfterReply(state: ThreadState, plink: Option<Node>, reply: Reply): (ThreadState, Option<Node>)
  {
    if state != Processing then (state, plink)
    else match reply
      case Delivered(_) => (Idle, None)
      case NoReply => (state, plink)
      case Disconnected => (Error, None)
  }

  /** Whether a slot in state `state` counts a page as processed on receiving `reply` (0 or 1). */
  function Received(state: ThreadState, reply: Reply): nat
  {
    if state == Processing && reply.Delivered? then 1 else 0
  }

  /** The counter `processed` after the neighbour lists of the first `n` slots are received. */
  function CountDelivered(states: seq<ThreadState>, replies: seq<Reply>, n: nat, processed: nat): nat
    requires n <= |states| && n <= |replies|
  {
    if n == 0 then processed
    else CountDelivered(states, replies, n - 1, processed) + Received(states[n - 1], replies[n - 1])
  }

  /** The in-flight node a slot gives back to the frontier when its channel has closed. */
  function Lost(state: ThreadState, plink: Option<Node>, reply: Reply): seq<Node>
  {
    if state == Processing && reply.Disconnected? && plink.Some? then [plink.value] else []
  }

  /**
   * The frontier `queue` after the in-flight nodes of the first `n` slots whose
   * channel closed are pushed onto its front: the last slot's node first.
   */
  function Requeued(states: seq<ThreadState>, plinks: seq<Option<Node>>, replies: seq<Reply>, n: nat, queue: seq<Node>): seq<Node>
    requires n <= |states| && n <= |plinks| && n <= |replies|
  {
    if n == 0 then queue
    else Lost(states[n - 1], plinks[n - 1], replies[n - 1]) + Requeued(states, plinks, replies, n - 1, queue)
  }

  /**
   * The visited map and next frontier after one slot's reply: a delivery to a
   * Processing slot absorbs its whole neighbour list under the in-flight node.
   */
  function AbsorbReply(state: ThreadState, plink: Option<Node>, reply: Reply, all: map<Node, Node>, next: seq<Node>)
    : (map<Node, Node>, seq<Node>)
  {
    if state == Processing && reply.Delivered? && plink.Some? then Absorb(all, next, reply.neighbors, plink.value)
    else (all, next)
  }

  /** The visited map and next frontier after the replies of the first `n` slots, taken in index order. */
  function AbsorbReplies(states: seq<ThreadState>, plinks: seq<Option<Node>>, replies: seq<Reply>, n: nat,
                         all: map<Node, Node>, next: seq<Node>): (map<Node, Node>, seq<Node>)
    requires n <= |states| && n <= |plinks| && n <= |replies|
  {
    if n == 0 then (all, next)
    else
      var (a, q) := AbsorbReplies(states, plinks, replies, n - 1, all, next);
      AbsorbReply(states[n - 1], plinks[n - 1], replies[n - 1], a, q)
  }

  /**
   * The receive pass never overwrites a visited entry and only appends to
   * the next frontier, whatever the replies are.
   */
  lemma {:induction false} AbsorbRepliesGrows(states: seq<ThreadState>, plinks: seq<Option<Node>>, replies: seq<Reply>, n: nat,
                                              all: map<Node, Node>, next: seq<Node>)
    requires n <= |states| && n <= |plinks| && n <= |replies|
    ensures var (all', next') := AbsorbReplies(states, plinks, replies, n, all, next);
      && (forall k :: k in all ==> k in all' && all'[k] == all[k])
      && next <= next'
    decreases n
  {
    if n > 0 {
      AbsorbRepliesGrows(states, plinks, replies, n - 1, all, next);
      var (a, q) := AbsorbReplies(states, plinks, replies, n - 1, all, next);
      if states[n - 1] == Processing && replies[n - 1].Delivered? && plinks[n - 1].Some? {
        AbsorbNeverOverwrites(a, q, replies[n - 1].neighbors, plinks[n - 1].value);
        AbsorbQueuesInserted(a, q, replies[n - 1].neighbors, plinks[n - 1].value);
      }
    }
  }

  /** Whether a reply to a slot in state `state` sets the changed-flag: a delivery or a closed channel on a Processing slot. */
  function Touched(state: ThreadState, reply: Reply): bool
  {
    state == Processing && !reply.NoReply?
  }

  /** The changed-flag after the replies of the first `n` slots, starting from `changed`. */
  function ChangedBy(states: seq<ThreadState>, replies: seq<Reply>, n: nat, changed: bool): bool
    requires n <= |states| && n <= |replies|
  {
    if n == 0 then changed
    else ChangedBy(states, replies, n - 1, changed) || Touched(states[n - 1], replies[n - 1])
  }

  /** The flag is set after the receive pass exactly when it was set before or some Processing slot got a delivery or a closed channel. */
  lemma {:induction false} ChangedByExists(states: seq<ThreadState>, replies: seq<Reply>, n: nat, changed: bool)
    requires n <= |states| && n <= |replies|
    ensures ChangedBy(states, replies, n, changed) <==>
      changed || exists j :: 0 <= j < n && states[j] == Processing && !replies[j].NoReply?
    decreases n
  {
    if n > 0 {
      ChangedByExists(states, replies, n - 1, changed);
      if Touched(states[n - 1], replies[n - 1]) {
        assert states[n - 1] == Processing && !replies[n - 1].NoReply?;
      }
    }
  }

  /** The slot states after the receive pass, as a sequence. */
  function ReplyStates(states: seq<ThreadState>, plinks: seq<Option<Node>>, replies: seq<Reply>): (r: seq<ThreadState>)
    requires |states| == |plinks| == |replies|
    ensures |r| == |states|
  {
    seq(|states|, j requires 0 <= j < |states| => SlotAfterReply(states[j], plinks[j], replies[j]).0)
  }

  /** The in-flight nodes after the receive pass, as a sequence. */
  function ReplyPlinks(states: seq<ThreadState>, plinks: seq<Option<Node>>, replies: seq<Reply>): (r: seq<Option<Node>>)
    requires |states| == |plinks| == |replies|
    ensures |r| == |states|
  {
    seq(|states|, j requires 0 <= j < |states| => SlotAfterReply(states[j], plinks[j], replies[j]).1)
  }

  /** Whether `reply` ends the search: a Processing slot delivers a neighbour list that contains the goal. */
  predicate GoalReply(state: ThreadState, reply: Reply, to: Node)
  {
    state == Processing && reply.Delivered? && to in reply.neighbors
  }

  /** Whether some slot's reply ends the search. */
  predicate GoalReplied(states: seq<ThreadState>, replies: seq<Reply>, to: Node)
  {
    exists j :: 0 <= j < |states| && j < |replies| && GoalReply(states[j], replies[j], to)
  }

  /**
   * `path` was found through the first slot whose reply ends the search: its
   * second-to-last node is that slot's in-flight node.
   */
  predicate FoundVia(path: seq<Node>, states: seq<ThreadState>, plinks: seq<Option<Node>>, replies: seq<Reply>, to: Node)
  {
    exists j :: && 0 <= j < |states| && j < |plinks| && j < |replies|
                && GoalReply(states[j], replies[j], to)
                && (forall k :: 0 <= k < j ==> !GoalReply(states[k], replies[k], to))
                && plinks[j].Some? && |path| >= 2 && path[|path| - 2] == plinks[j].value
  }
}
