/** Synchronized checkpoints: which block of the growing block tree the node is pinned to, and what
    that lets into the tree. */
module Checkpoints {
  import opened Collections

  const CHECKPOINT_MAX_SPAN: int := 60 * 60

  type Hash = nat

  /** A block index entry under its hash. */
  datatype Node = Node(height: nat, prev: Option<Hash>, time: nat)

  type Tree = map<Hash, Node>

  /** Heights count from a root, and every other block's parent is in the tree, one lower. */
  ghost predicate WellFormed(tree: Tree) {
    forall h | h in tree :: Rooted(tree, h)
  }

  predicate Rooted(tree: Tree, h: Hash)
    requires h in tree
  {
    match tree[h].prev
    case None => tree[h].height == 0
    case Some(p) => p in tree && tree[h].height == tree[p].height + 1
  }

  /** `a` is `b` or one of its ancestors. */
  ghost predicate Descends(tree: Tree, b: Hash, a: Hash)
    requires WellFormed(tree) && b in tree
    decreases tree[b].height
  {
    b == a || (Rooted(tree, b) && tree[b].prev.Some? && Descends(tree, tree[b].prev.value, a))
  }

  ghost predicate StrictlyDescends(tree: Tree, b: Hash, a: Hash)
    requires WellFormed(tree) && b in tree
  {
    b != a && Descends(tree, b, a)
  }

  /** The ancestor of `b` at a height, where there is one. */
  function AncestorAt(tree: Tree, b: Hash, height: nat): (r: Hash)
    requires WellFormed(tree) && b in tree
    ensures r in tree
    ensures tree[b].height >= height ==> tree[r].height == height
    decreases tree[b].height
  {
    assert Rooted(tree, b);
    if tree[b].height <= height then b else AncestorAt(tree, tree[b].prev.value, height)
  }

  lemma {:induction false} AncestorIff(tree: Tree, b: Hash, a: Hash)
    requires WellFormed(tree) && a in tree && b in tree
    ensures Descends(tree, b, a) <==> tree[a].height <= tree[b].height && AncestorAt(tree, b, tree[a].height) == a
    decreases tree[b].height
  {
    assert Rooted(tree, b);
    if tree[b].prev.Some? { AncestorIff(tree, tree[b].prev.value, a); }
  }

  lemma {:induction false} DescendsTransitive(tree: Tree, c: Hash, b: Hash, a: Hash)
    requires WellFormed(tree) && c in tree && b in tree && Descends(tree, c, b) && Descends(tree, b, a)
    ensures Descends(tree, c, a)
    decreases tree[c].height
  {
    if c != b {
      assert Rooted(tree, c);
      DescendsTransitive(tree, tree[c].prev.value, b, a);
    }
  }

  /** The tree gains a block: a child of a known block, or a root. */
  predicate Grows(tree: Tree, h: Hash, node: Node) {
    h !in tree
    && match node.prev
       case None => node.height == 0
       case Some(p) => p in tree && node.height == tree[p].height + 1
  }

  lemma {:induction false} GrowthKeeps(tree: Tree, h: Hash, node: Node, b: Hash, a: Hash)
    requires WellFormed(tree) && Grows(tree, h, node) && b in tree
    ensures WellFormed(tree[h := node])
    ensures Descends(tree[h := node], b, a) <==> Descends(tree, b, a)
    decreases tree[b].height
  {
    GrowthWellFormed(tree, h, node);
    assert Rooted(tree, b) && Rooted(tree[h := node], b);
    if tree[b].prev.Some? { GrowthKeeps(tree, h, node, tree[b].prev.value, a); }
  }

  lemma GrowthWellFormed(tree: Tree, h: Hash, node: Node)
    requires WellFormed(tree) && Grows(tree, h, node)
    ensures WellFormed(tree[h := node])
  {
    var tree' := tree[h := node];
    forall g | g in tree' ensures Rooted(tree', g) {
      if g != h { assert Rooted(tree, g); }
    }
  }

  /** Walks parent by parent down to a height; a missing parent on the way is an error. */
  method TraceBack(tree: Tree, from: Hash, height: nat) returns (r: Option<Hash>)
    requires WellFormed(tree) && from in tree
    ensures r == Some(AncestorAt(tree, from, height))
  {
    var h := from;
    while tree[h].height > height
      invariant h in tree && AncestorAt(tree, h, height) == AncestorAt(tree, from, height)
      decreases tree[h].height
    {
      assert Rooted(tree, h);
      match tree[h].prev {
        case None => return None;
        case Some(p) => h := p;
      }
    }
    r := Some(h);
  }

  // ---- The manager ----

  /** What outside the model decides: the signature, whether the block is on the main chain, and
      whether reading it, switching to it and writing the checkpoint succeed. */
  datatype Outcomes = Outcomes(
    signed: bool, inMainChain: bool, read: bool, setBest: bool, written: bool, committed: bool)

  predicate Stored(out: Outcomes) { out.written && out.committed }

  /** The zero hash stands for none pending and none invalid. */
  const NO_HASH: Hash := 0

  datatype State = State(sync: Hash, pending: Hash, invalid: Hash, message: Option<Hash>, messagePending: Option<Hash>)

  /** A known block that conflicts with the current checkpoint: neither on its line of descent. */
  ghost predicate Conflicts(tree: Tree, sync: Hash, h: Hash)
    requires WellFormed(tree) && sync in tree && h in tree
  {
    !Descends(tree, h, sync) && !Descends(tree, sync, h)
  }

  /** The state after a known block is checked against the current checkpoint. */
  ghost function Judged(tree: Tree, s: State, h: Hash): State
    requires WellFormed(tree) && s.sync in tree && h in tree
  {
    if Conflicts(tree, s.sync, h) then s.(invalid := h) else s
  }

  /** The state and the answer when a checkpoint on a known strict descendant is being taken. */
  function Taken(s: State, h: Hash, out: Outcomes): (State, bool) {
    if !out.inMainChain && !out.read then (s, false)
    else if !out.inMainChain && !out.setBest then (s.(invalid := h), false)
    else if !Stored(out) then (s, false)
    else (s.(sync := h, pending := NO_HASH, messagePending := None), true)
  }

  /** What receiving a checkpoint message does. */
  ghost function Received(tree: Tree, s: State, h: Hash, out: Outcomes): (State, bool)
    requires WellFormed(tree) && s.sync in tree
  {
    if !out.signed then (s, false)
    else if h !in tree then (s.(pending := h, messagePending := Some(h)), false)
    else if !StrictlyDescends(tree, h, s.sync) then (Judged(tree, s, h), false)
    else
      var (s', ok) := Taken(s, h, out);
      (if ok then s'.(message := Some(h)) else s', ok)
  }

  /** What looking at the pending checkpoint again does. */
  ghost function Accepted(tree: Tree, s: State, out: Outcomes): (State, bool)
    requires WellFormed(tree) && s.sync in tree
  {
    if s.pending == NO_HASH || s.pending !in tree then (s, false)
    else if !StrictlyDescends(tree, s.pending, s.sync) then
      (Judged(tree, s, s.pending).(pending := NO_HASH, messagePending := None), false)
    else
      var (s', ok) := Taken(s, s.pending, out);
      (if ok then s'.(message := s.messagePending) else s', ok)
  }

  /** Every checkpoint strictly descends from all before it. */
  ghost predicate OneLine(tree: Tree, history: seq<Hash>) {
    && WellFormed(tree)
    && (forall i :: 0 <= i < |history| ==> history[i] in tree)
    && forall i, j :: 0 <= i < j < |history| ==> StrictlyDescends(tree, history[j], history[i])
  }

  lemma LineGrows(tree: Tree, history: seq<Hash>, h: Hash)
    requires OneLine(tree, history) && history != [] && h in tree && StrictlyDescends(tree, h, history[|history| - 1])
    ensures OneLine(tree, history + [h])
  {
    var last := history[|history| - 1];
    AncestorIff(tree, h, last);
    forall i | 0 <= i < |history| ensures StrictlyDescends(tree, h, history[i]) {
      if i < |history| - 1 {
        DescendsTransitive(tree, h, last, history[i]);
        AncestorIff(tree, last, history[i]);
        NotBoth(tree, h, last, history[i]);
      }
    }
  }

  lemma NotBoth(tree: Tree, c: Hash, b: Hash, a: Hash)
    requires WellFormed(tree) && a in tree && b in tree && c in tree
    requires StrictlyDescends(tree, c, b) && StrictlyDescends(tree, b, a)
    ensures c != a
  {
    AncestorIff(tree, c, b);
    AncestorIff(tree, b, a);
  }

  lemma LineInLargerTree(tree: Tree, history: seq<Hash>, h: Hash, node: Node)
    requires OneLine(tree, history) && Grows(tree, h, node)
    ensures OneLine(tree[h := node], history)
  {
    GrowthWellFormed(tree, h, node);
    forall i, j | 0 <= i < j < |history| ensures StrictlyDescends(tree[h := node], history[j], history[i]) {
      GrowthKeeps(tree, h, node, history[j], history[i]);
    }
  }

  datatype Op =
    | Receive(hash: Hash, out: Outcomes)
    | Accept(out: Outcomes)
    | Extend(hash: Hash, node: Node)

  class Manager {
    var mapBlockIndex: Tree
    var hashSyncCheckpoint: Hash
    var hashPendingCheckpoint: Hash
    var hashInvalidCheckpoint: Hash
    var checkpointMessage: Option<Hash>
    var checkpointMessagePending: Option<Hash>
    /** Every checkpoint there has been. */
    ghost var history: seq<Hash>

    constructor (tree: Tree, sync: Hash)
      requires WellFormed(tree) && sync in tree
      ensures Valid() && mapBlockIndex == tree && history == [sync]
      ensures Now() == State(sync, NO_HASH, NO_HASH, None, None)
    {
      mapBlockIndex, hashSyncCheckpoint := tree, sync;
      hashPendingCheckpoint, hashInvalidCheckpoint := NO_HASH, NO_HASH;
      checkpointMessage, checkpointMessagePending := None, None;
      history := [sync];
    }

    function Now(): State
      reads this
    {
      State(hashSyncCheckpoint, hashPendingCheckpoint, hashInvalidCheckpoint,
            checkpointMessage, checkpointMessagePending)
    }

    ghost predicate Valid()
      reads this
    {
      OneLine(mapBlockIndex, history) && history != [] && history[|history| - 1] == hashSyncCheckpoint
    }

    /** Only a strict descendant of the current checkpoint is allowed; only a conflicting block is
        remembered as invalid. */
    method ValidateSyncCheckpoint(h: Hash) returns (ok: bool)
      requires Valid()
      modifies this`hashInvalidCheckpoint
      ensures ok <==> h in mapBlockIndex && StrictlyDescends(mapBlockIndex, h, hashSyncCheckpoint)
      ensures Now() == if h in mapBlockIndex then Judged(mapBlockIndex, old(Now()), h) else old(Now())
    {
      if hashSyncCheckpoint !in mapBlockIndex || h !in mapBlockIndex { return false; }
      var sync := mapBlockIndex[hashSyncCheckpoint];
      var recv := mapBlockIndex[h];
      AncestorIff(mapBlockIndex, h, hashSyncCheckpoint);
      AncestorIff(mapBlockIndex, hashSyncCheckpoint, h);
      if recv.height <= sync.height {
        var at := TraceBack(mapBlockIndex, hashSyncCheckpoint, recv.height);
        if at.None? { return false; }
        if at.value != h { hashInvalidCheckpoint := h; }
        return false;
      }
      var at := TraceBack(mapBlockIndex, h, sync.height);
      if at.None? { return false; }
      if at.value != hashSyncCheckpoint {
        hashInvalidCheckpoint := h;
        return false;
      }
      ok := true;
    }

    method WriteSyncCheckpoint(h: Hash, out: Outcomes) returns (ok: bool)
      requires Valid() && h in mapBlockIndex && StrictlyDescends(mapBlockIndex, h, hashSyncCheckpoint)
      modifies this`hashSyncCheckpoint, this`history
      ensures Valid() && ok == (out.written && out.committed)
      ensures Now() == if ok then old(Now()).(sync := h) else old(Now())
      ensures history == if ok then old(history) + [h] else old(history)
    {
      if !out.written { return false; }
      if !out.committed { return false; }
      LineGrows(mapBlockIndex, history, h);
      hashSyncCheckpoint := h;
      history := history + [h];
      ok := true;
    }

    method ProcessSyncCheckpoint(h: Hash, out: Outcomes) returns (ok: bool)
      requires Valid()
      modifies this
      ensures Valid() && mapBlockIndex == old(mapBlockIndex)
      ensures (Now(), ok) == Received(mapBlockIndex, old(Now()), h, out)
      ensures history == if ok then old(history) + [h] else old(history)
    {
      if !out.signed { return false; }
      if h !in mapBlockIndex {
        hashPendingCheckpoint, checkpointMessagePending := h, Some(h);
        return false;
      }
      var valid := ValidateSyncCheckpoint(h);
      if !valid { return false; }
      JudgedNothing(mapBlockIndex, old(Now()), h);
      if !out.inMainChain {
        if !out.read { return false; }
        if !out.setBest { hashInvalidCheckpoint := h; return false; }
      }
      ok := WriteSyncCheckpoint(h, out);
      if ok {
        checkpointMessage := Some(h);
        hashPendingCheckpoint, checkpointMessagePending := NO_HASH, None;
      }
    }

    method AcceptPendingSyncCheckpoint(out: Outcomes) returns (ok: bool)
      requires Valid()
      modifies this
      ensures Valid() && mapBlockIndex == old(mapBlockIndex)
      ensures (Now(), ok) == Accepted(mapBlockIndex, old(Now()), out)
      ensures history == if ok then old(history) + [old(hashPendingCheckpoint)] else old(history)
    {
      ok := false;
      if hashPendingCheckpoint != NO_HASH && hashPendingCheckpoint in mapBlockIndex {
        var h := hashPendingCheckpoint;
        var valid := ValidateSyncCheckpoint(h);
        if !valid {
          hashPendingCheckpoint, checkpointMessagePending := NO_HASH, None;
          return false;
        }
        JudgedNothing(mapBlockIndex, old(Now()), h);
        if !out.inMainChain {
          if !out.read { return false; }
          if !out.setBest { hashInvalidCheckpoint := h; return false; }
        }
        ok := WriteSyncCheckpoint(h, out);
        if ok {
          hashPendingCheckpoint := NO_HASH;
          checkpointMessage := checkpointMessagePending;
          checkpointMessagePending := None;
        }
      }
    }

    /** A block joins the index. */
    method AddToBlockIndex(h: Hash, node: Node)
      requires Valid() && Grows(mapBlockIndex, h, node)
      modifies this`mapBlockIndex
      ensures Valid() && mapBlockIndex == old(mapBlockIndex)[h := node] && history == old(history)
    {
      LineInLargerTree(mapBlockIndex, history, h, node);
      mapBlockIndex := mapBlockIndex[h := node];
    }

    /** Whether a block with the given parent is compatible with the checkpoint. */
    method CheckSync(h: Hash, prev: Hash) returns (ok: bool)
      requires Valid() && prev in mapBlockIndex
      ensures ok <==>
        var height := mapBlockIndex[prev].height + 1;
        var syncHeight := mapBlockIndex[hashSyncCheckpoint].height;
        if height > syncHeight then Descends(mapBlockIndex, prev, hashSyncCheckpoint)
        else if height == syncHeight then h == hashSyncCheckpoint
        else h in mapBlockIndex
    {
      var height := mapBlockIndex[prev].height + 1;
      var sync := mapBlockIndex[hashSyncCheckpoint];
      if height > sync.height {
        AncestorIff(mapBlockIndex, prev, hashSyncCheckpoint);
        var at := TraceBack(mapBlockIndex, prev, sync.height);
        if at.None? { return false; }
        if mapBlockIndex[at.value].height < sync.height || at.value != hashSyncCheckpoint { return false; }
      }
      if height == sync.height && h != hashSyncCheckpoint { return false; }
      if height < sync.height && h !in mapBlockIndex { return false; }
      ok := true;
    }

    /** Any run of received checkpoints, retries and new blocks: the checkpoints of the run extend the
        earlier ones along one line of descent. */
    method Run(ops: seq<Op>)
      requires Valid()
      modifies this
      ensures Valid() && old(history) <= history
      ensures OneLine(mapBlockIndex, history) && history[|history| - 1] == hashSyncCheckpoint
    {
      for i := 0 to |ops|
        invariant Valid() && old(history) <= history
      {
        match ops[i]
        case Receive(h, out) => var _ := ProcessSyncCheckpoint(h, out);
        case Accept(out) => var _ := AcceptPendingSyncCheckpoint(out);
        case Extend(h, node) => if Grows(mapBlockIndex, h, node) { AddToBlockIndex(h, node); }
      }
    }
  }

  lemma JudgedNothing(tree: Tree, s: State, h: Hash)
    requires WellFormed(tree) && s.sync in tree && h in tree && StrictlyDescends(tree, h, s.sync)
    ensures Judged(tree, s, h) == s
  {
  }

  // ---- What the check lets in ----

  /** The check `CheckSync` makes, before the block is in the tree. */
  ghost predicate Passes(tree: Tree, sync: Hash, h: Hash, prev: Hash)
    requires WellFormed(tree) && sync in tree && prev in tree
  {
    if tree[prev].height + 1 > tree[sync].height then Descends(tree, prev, sync)
    else if tree[prev].height + 1 == tree[sync].height then h == sync
    else h in tree
  }

  /** A new block passes exactly when, once in the tree, it strictly descends from the checkpoint: no
      fork from below the checkpoint grows any more. */
  lemma NewBlocksDescend(tree: Tree, sync: Hash, h: Hash, node: Node)
    requires WellFormed(tree) && sync in tree && Grows(tree, h, node) && node.prev.Some?
    ensures WellFormed(tree[h := node])
    ensures Passes(tree, sync, h, node.prev.value) <==> StrictlyDescends(tree[h := node], h, sync)
  {
    var p := node.prev.value;
    GrowthKeeps(tree, h, node, p, sync);
    AncestorIff(tree, p, sync);
    assert Rooted(tree[h := node], h);
  }

  /** A block admitted under a later checkpoint would have been admitted under every earlier one. */
  lemma PassesEarlier(tree: Tree, history: seq<Hash>, i: nat, j: nat, h: Hash, node: Node)
    requires OneLine(tree, history) && i < j < |history| && Grows(tree, h, node) && node.prev.Some?
    requires Passes(tree, history[j], h, node.prev.value)
    ensures Passes(tree, history[i], h, node.prev.value)
  {
    NewBlocksDescend(tree, history[i], h, node);
    NewBlocksDescend(tree, history[j], h, node);
    LineInLargerTree(tree, history, h, node);
    var tree' := tree[h := node];
    DescendsTransitive(tree', h, history[j], history[i]);
    NotBoth(tree', h, history[j], history[i]);
  }

  /** The block a checkpoint master picks: the nearest ancestor of the best block, or itself, that is
      both an hour and eight blocks behind it, and otherwise the root. */
  method AutoSelectSyncCheckpoint(tree: Tree, best: Hash) returns (h: Hash)
    requires WellFormed(tree) && best in tree
    ensures h in tree && Descends(tree, best, h)
    ensures tree[h].prev.None? || (tree[h].time + 3600 <= tree[best].time && tree[h].height + 8 <= tree[best].height)
    ensures forall g | g in tree :: StrictlyDescends(tree, g, h) && Descends(tree, best, g) ==>
      tree[g].time + 3600 > tree[best].time || tree[g].height + 8 > tree[best].height
  {
    h := best;
    forall g | g in tree ensures !(StrictlyDescends(tree, g, best) && Descends(tree, best, g)) {
      AncestorIff(tree, g, best);
      AncestorIff(tree, best, g);
    }
    while tree[h].prev.Some? && !Buried(tree, best, h)
      invariant h in tree && Descends(tree, best, h)
      invariant forall g | g in tree :: StrictlyDescends(tree, g, h) && Descends(tree, best, g) ==>
        !Buried(tree, best, g)
      decreases tree[h].height
    {
      assert Rooted(tree, h);
      var p := tree[h].prev.value;
      DescendsTransitive(tree, best, h, p);
      forall g | g in tree && StrictlyDescends(tree, g, p) && Descends(tree, best, g) ensures !Buried(tree, best, g) {
        BetweenParent(tree, best, h, g);
      }
      h := p;
    }
  }

  predicate Buried(tree: Tree, best: Hash, h: Hash)
    requires best in tree && h in tree
  {
    tree[h].time + CHECKPOINT_MAX_SPAN <= tree[best].time && tree[h].height + 8 <= tree[best].height
  }

  /** An ancestor of `best` above the parent of another is that one or above it. */
  lemma BetweenParent(tree: Tree, best: Hash, h: Hash, g: Hash)
    requires WellFormed(tree) && best in tree && h in tree && g in tree && tree[h].prev.Some?
    requires Descends(tree, best, h) && Descends(tree, best, g)
    requires Rooted(tree, h) && StrictlyDescends(tree, g, tree[h].prev.value)
    ensures g == h || StrictlyDescends(tree, g, h)
  {
    AncestorIff(tree, best, h);
    AncestorIff(tree, best, g);
    AncestorIff(tree, g, tree[h].prev.value);
    AncestorIff(tree, g, h);
    AncestorOfAncestor(tree, best, tree[g].height, tree[h].height);
  }

  lemma {:induction false} AncestorOfAncestor(tree: Tree, b: Hash, high: nat, low: nat)
    requires WellFormed(tree) && b in tree && low <= high <= tree[b].height
    ensures AncestorAt(tree, AncestorAt(tree, b, high), low) == AncestorAt(tree, b, low)
    decreases tree[b].height
  {
    assert Rooted(tree, b);
    if tree[b].height > high { AncestorOfAncestor(tree, tree[b].prev.value, high, low); }
  }
}
