/** Synchronized checkpoints (src/checkpoints.cpp): a checkpoint that, but for resets, only ever
    moves to a strict descendant, over a growing block tree. */
module Checkpoints {
  import opened Options

  /** Block hashes; zero stands for none. */
  type Hash = nat

  datatype Block = Block(prev: Option<Hash>, height: nat)

  type Tree = map<Hash, Block>

  // ---------------------------------------------------------------- block trees

  /** Every block is one higher than its predecessor. */
  predicate Linked(t: Tree) {
    forall h :: h in t && t[h].prev.Some? ==>
      t[h].prev.value in t && t[h].height == t[t[h].prev.value].height + 1
  }

  /** Only blocks at height 0 lack a predecessor. */
  predicate Rooted(t: Tree) {
    forall h :: h in t && t[h].prev.None? ==> t[h].height == 0
  }

  /** `a` is `b` or a block before it. */
  predicate IsAncestor(t: Tree, a: Hash, b: Hash)
    requires Linked(t) && b in t
    decreases t[b].height
  {
    a == b || (t[b].prev.Some? && IsAncestor(t, a, t[b].prev.value))
  }

  /** The ancestor of `b` found by walking down to a height; none when the walk falls off. */
  function WalkTo(t: Tree, b: Hash, height: nat): (r: Option<Hash>)
    requires Linked(t) && b in t
    ensures r.Some? ==> r.value in t && IsAncestor(t, r.value, b)
    ensures r.Some? && height <= t[b].height ==> t[r.value].height == height
    decreases t[b].height
  {
    if t[b].height <= height then Some(b)
    else if t[b].prev.None? then None
    else WalkTo(t, t[b].prev.value, height)
  }

  lemma {:induction false} AncestorHeight(t: Tree, a: Hash, b: Hash)
    requires Linked(t) && b in t && IsAncestor(t, a, b)
    ensures a in t && t[a].height <= t[b].height && (a != b ==> t[a].height < t[b].height)
    decreases t[b].height
  {
    if a != b {
      AncestorHeight(t, a, t[b].prev.value);
    }
  }

  lemma {:induction false} AncestorTransitive(t: Tree, a: Hash, b: Hash, c: Hash)
    requires Linked(t) && b in t && c in t && IsAncestor(t, a, b) && IsAncestor(t, b, c)
    ensures IsAncestor(t, a, c)
    decreases t[c].height
  {
    if b != c {
      AncestorTransitive(t, a, b, t[c].prev.value);
    }
  }

  /** The walk finds every ancestor. */
  lemma {:induction false} WalkFinds(t: Tree, a: Hash, b: Hash)
    requires Linked(t) && b in t && IsAncestor(t, a, b)
    ensures a in t && WalkTo(t, b, t[a].height) == Some(a)
    decreases t[b].height
  {
    AncestorHeight(t, a, b);
    if a != b {
      WalkFinds(t, a, t[b].prev.value);
    }
  }

  lemma {:induction false} WalkNeverFalls(t: Tree, b: Hash, height: nat)
    requires Linked(t) && Rooted(t) && b in t
    ensures WalkTo(t, b, height).Some?
    decreases t[b].height
  {
    if t[b].height > height {
      WalkNeverFalls(t, t[b].prev.value, height);
    }
  }

  predicate Extends(t: Tree, more: Tree) {
    forall h :: h in t ==> h in more && more[h] == t[h]
  }

  lemma {:induction false} AncestorInLarger(t: Tree, more: Tree, a: Hash, b: Hash)
    requires Linked(t) && Linked(more) && Extends(t, more) && b in t
    ensures b in more && (IsAncestor(more, a, b) <==> IsAncestor(t, a, b))
    decreases t[b].height
  {
    if a != b && t[b].prev.Some? {
      AncestorInLarger(t, more, a, t[b].prev.value);
    }
  }

  // ---------------------------------------------------------------- what the steps mean

  /** The tree and the globals of the checkpoint code. A message is its hash. */
  datatype State = State(
    tree: Tree,
    sync: Hash,
    pending: Hash,
    invalid: Hash,
    message: Hash,
    messagePending: Hash)

  predicate Known(s: State, h: Hash) {
    Linked(s.tree) && s.sync in s.tree && h in s.tree
  }

  /** Only a strict descendant of the current checkpoint is valid. */
  predicate Validates(s: State, h: Hash)
    requires Linked(s.tree)
  {
    Known(s, h) && h != s.sync && IsAncestor(s.tree, s.sync, h)
  }

  predicate Unrelated(s: State, h: Hash)
    requires Known(s, h)
  {
    !IsAncestor(s.tree, s.sync, h) && !IsAncestor(s.tree, h, s.sync)
  }

  /** The walk from the higher block reaches the height of the lower one. */
  predicate Meets(s: State, h: Hash)
    requires Known(s, h)
  {
    var t := s.tree;
    if t[h].height <= t[s.sync].height then WalkTo(t, s.sync, t[h].height).Some?
    else WalkTo(t, h, t[s.sync].height).Some?
  }

  function AfterValidate(s: State, h: Hash): State
    requires Linked(s.tree)
  {
    if Known(s, h) && Unrelated(s, h) && Meets(s, h) then s.(invalid := h) else s
  }

  /** Outcomes of the chain and the database. */
  datatype Outside = Outside(inMainChain: bool, read: bool, setBest: bool, written: bool)

  /** Making `h` the checkpoint once it is valid. */
  predicate Succeeds(o: Outside) {
    (o.inMainChain || (o.read && o.setBest)) && o.written
  }

  function AfterFailure(s: State, h: Hash, o: Outside): State {
    if !o.inMainChain && o.read && !o.setBest then s.(invalid := h) else s
  }

  function ProcessStep(s: State, h: Hash, signed: bool, o: Outside): State
    requires Linked(s.tree)
  {
    if !signed then s
    else if h !in s.tree then s.(pending := h, messagePending := h)
    else if !Validates(s, h) then AfterValidate(s, h)
    else if Succeeds(o) then s.(sync := h, message := h, pending := 0, messagePending := 0)
    else AfterFailure(s, h, o)
  }

  function AcceptStep(s: State, o: Outside): State
    requires Linked(s.tree)
  {
    var h := s.pending;
    if h == 0 || h !in s.tree then s
    else if !Validates(s, h) then AfterValidate(s, h).(pending := 0, messagePending := 0)
    else if Succeeds(o) then s.(sync := h, message := s.messagePending, pending := 0, messagePending := 0)
    else AfterFailure(s, h, o)
  }

  /** The hardened checkpoints in the order of their heights. */
  type Hardened = c: seq<Hash> | c != [] witness [0]

  /** The main chain before a reset and after its `SetBestChain`, and the other outcomes. */
  datatype Chains = Chains(before: set<Hash>, after: set<Hash>, read: bool, setBest: bool, written: bool)

  /** The newest of some hashes that is known and in the main chain. */
  function Newest(c: seq<Hash>, t: Tree, main: set<Hash>): (r: Option<Hash>)
    ensures r.Some? ==> r.value in c && r.value in t && r.value in main
    ensures r.None? ==> forall h <- c :: h !in t || h !in main
  {
    if c == [] then None
    else var h := c[|c| - 1];
      if h in t && h in main then Some(h) else Newest(c[..|c| - 1], t, main)
  }

  function Last(c: Hardened): Hash {
    c[|c| - 1]
  }

  /** A reset first tries to bring the newest hardened block into the main chain. */
  predicate Reorganizes(s: State, c: Hardened, m: Chains) {
    Last(c) in s.tree && Last(c) !in m.before
  }

  /** Where a reset puts the checkpoint; nowhere when it fails before that. */
  function ResetTarget(s: State, c: Hardened, m: Chains): Option<Hash> {
    if !m.written || (Reorganizes(s, c, m) && !(m.read && m.setBest)) then None
    else Newest(c, s.tree, if Reorganizes(s, c, m) then m.after else m.before)
  }

  function ResetStep(s: State, c: Hardened, m: Chains): State {
    var waits := if Last(c) in s.tree then s else s.(pending := Last(c), messagePending := 0);
    match ResetTarget(s, c, m)
    case None => waits
    case Some(h) => waits.(sync := h)
  }

  /** A new block whose predecessor is known. */
  function GrowStep(s: State, h: Hash, prev: Hash): State {
    if h in s.tree || prev !in s.tree then s
    else s.(tree := s.tree[h := Block(Some(prev), s.tree[prev].height + 1)])
  }

  /** What `CheckSync` accepts: above the checkpoint only its descendants, at its height only
      itself, below it only known blocks. */
  predicate Passes(s: State, h: Hash, prev: Hash)
    requires Linked(s.tree) && s.sync in s.tree && prev in s.tree
  {
    var height := s.tree[prev].height + 1;
    var syncHeight := s.tree[s.sync].height;
    if height > syncHeight then IsAncestor(s.tree, s.sync, prev)
    else if height == syncHeight then h == s.sync
    else h in s.tree
  }

  /** In a rooted tree a block is flagged exactly when neither block is an ancestor of the
      other. */
  lemma FlaggedExactly(s: State, h: Hash)
    requires Known(s, h) && Rooted(s.tree) && s.invalid != h
    ensures AfterValidate(s, h).invalid == h <==> Unrelated(s, h)
    ensures !Validates(s, h) && !Unrelated(s, h) <==> IsAncestor(s.tree, h, s.sync)
  {
    WalkNeverFalls(s.tree, s.sync, s.tree[h].height);
    WalkNeverFalls(s.tree, h, s.tree[s.sync].height);
    if IsAncestor(s.tree, h, s.sync) && IsAncestor(s.tree, s.sync, h) {
      AncestorHeight(s.tree, h, s.sync);
      AncestorHeight(s.tree, s.sync, h);
    }
  }

  // ---------------------------------------------------------------- runs

  datatype Op =
    | Grow(hash: Hash, prev: Hash)
    | Process(checkpoint: Hash, signed: bool, outside: Outside)
    | AcceptPending(outside: Outside)
    | Reset(hardened: Hardened, chains: Chains)

  predicate Inv(s: State) {
    Linked(s.tree) && Rooted(s.tree) && s.sync in s.tree
  }

  /** The messages held are none or those of the hashes they go with. */
  predicate MessagesAgree(s: State) {
    (s.messagePending == 0 || s.messagePending == s.pending) && (s.message == 0 || s.message == s.sync)
  }

  /** The pending hash came in a message. */
  predicate Announced(s: State) {
    s.messagePending == s.pending
  }

  function Step(s: State, op: Op): State
    requires Linked(s.tree)
  {
    match op
    case Grow(h, prev) => GrowStep(s, h, prev)
    case Process(h, signed, o) => ProcessStep(s, h, signed, o)
    case AcceptPending(o) => AcceptStep(s, o)
    case Reset(c, m) => ResetStep(s, c, m)
  }

  /** A step other than a reset leaves the messages in agreement. A reset breaks it exactly when
      it moves the checkpoint while a message is held, and leaves an unannounced hash pending
      exactly when the newest hardened block is unknown. */
  lemma StepKeepsMessages(s: State, op: Op)
    requires Inv(s) && MessagesAgree(s)
    ensures MessagesAgree(Step(s, op)) <==> (op.Reset? ==> s.message == 0 || Step(s, op).sync == s.sync)
    ensures Announced(s) ==>
              (Announced(Step(s, op)) <==>
               (op.Reset? ==> Last(op.hardened) in s.tree || Last(op.hardened) == 0))
  {
    hide IsAncestor, WalkTo;
  }

  /** Where one step can lead. */
  ghost predicate Advances(s: State, s': State) {
    && Inv(s) && Inv(s') && Extends(s.tree, s'.tree) && IsAncestor(s'.tree, s.sync, s'.sync)
  }

  lemma StepAdvances(s: State, op: Op)
    requires Inv(s) && !op.Reset?
    ensures Advances(s, Step(s, op))
  {
    hide IsAncestor, WalkTo;
    SelfAncestor(s.tree, s.sync);
    if op.Grow? {
      GrowAdvances(s, op.hash, op.prev);
    }
  }

  /** A reset keeps the invariant and the tree, whatever was pending; it leaves the checkpoint
      or moves it to a hardened block, and never moves it to one that is not in the main chain. */
  lemma ResetKeepsInv(s: State, c: Hardened, m: Chains)
    requires Inv(s)
    ensures var s' := ResetStep(s, c, m);
      && Inv(s') && s'.tree == s.tree
      && (s'.sync != s.sync ==> s'.sync in c && s'.sync in m.before + m.after)
  {
  }

  /** When hardened blocks stand in the order of their heights, a reset chooses the highest one
      that is known and in the main chain. */
  lemma {:induction false} NewestIsHighest(c: seq<Hash>, t: Tree, main: set<Hash>, i: nat)
    requires forall j, k :: 0 <= j < k < |c| && c[j] in t && c[k] in t ==> t[c[j]].height < t[c[k]].height
    requires i < |c| && c[i] in t && c[i] in main
    ensures Newest(c, t, main).Some? && t[c[i]].height <= t[Newest(c, t, main).value].height
  {
    var n := |c| - 1;
    if i < n && !(c[n] in t && c[n] in main) {
      NewestIsHighest(c[..n], t, main, i);
    }
  }

  /** Every step keeps the invariant and all blocks. */
  lemma StepKeepsInv(s: State, op: Op)
    requires Inv(s)
    ensures Inv(Step(s, op)) && Extends(s.tree, Step(s, op).tree)
  {
    hide IsAncestor;
    if op.Reset? {
      ResetKeepsInv(s, op.hardened, op.chains);
    } else {
      StepAdvances(s, op);
    }
  }

  lemma GrowAdvances(s: State, h: Hash, prev: Hash)
    requires Inv(s)
    ensures Advances(s, GrowStep(s, h, prev))
  {
    hide IsAncestor;
    SelfAncestor(s.tree, s.sync);
    if h !in s.tree && prev in s.tree {
      var s' := GrowStep(s, h, prev);
      assert Linked(s'.tree);
      AncestorInLarger(s.tree, s'.tree, s.sync, s.sync);
    }
  }

  lemma SelfAncestor(t: Tree, a: Hash)
    requires Linked(t) && a in t
    ensures IsAncestor(t, a, a)
  {
  }

  lemma AdvancesTransitive(s: State, s': State, s'': State)
    requires Advances(s, s') && Advances(s', s'')
    ensures Advances(s, s'')
  {
    hide IsAncestor;
    AncestorInLarger(s'.tree, s''.tree, s.sync, s'.sync);
    AncestorTransitive(s''.tree, s.sync, s'.sync, s''.sync);
  }

  function Run(s: State, ops: seq<Op>): State
    requires Linked(s.tree)
  {
    if ops == [] then s
    else var before := Run(s, ops[..|ops| - 1]);
      if Linked(before.tree) then Step(before, ops[|ops| - 1]) else before
  }

  ghost predicate NoReset(ops: seq<Op>, i: nat) {
    forall k :: i <= k < |ops| ==> !ops[k].Reset?
  }

  lemma {:induction false} RunAdvances(s: State, ops: seq<Op>, i: nat)
    requires Inv(s) && i <= |ops| && NoReset(ops, i)
    ensures Advances(Run(s, ops[..i]), Run(s, ops))
    decreases |ops|
  {
    hide Advances, Step, IsAncestor;
    if i == |ops| {
      assert ops[..i] == ops;
      RunInv(s, ops);
      StaysAt(Run(s, ops));
    } else {
      var n := |ops| - 1;
      assert ops[..n][..i] == ops[..i];
      RunAdvances(s, ops[..n], i);
      RunInv(s, ops[..n]);
      StepAdvances(Run(s, ops[..n]), ops[n]);
      AdvancesTransitive(Run(s, ops[..i]), Run(s, ops[..n]), Run(s, ops));
    }
  }

  lemma StaysAt(s: State)
    requires Inv(s)
    ensures Advances(s, s)
  {
  }

  /** Resets included, every run keeps the invariant. */
  lemma {:induction false} RunInv(s: State, ops: seq<Op>)
    requires Inv(s)
    ensures Inv(Run(s, ops))
  {
    hide Step;
    if ops != [] {
      RunInv(s, ops[..|ops| - 1]);
      StepKeepsInv(Run(s, ops[..|ops| - 1]), ops[|ops| - 1]);
    }
  }

  lemma {:induction false} RunExtends(s: State, ops: seq<Op>, j: nat)
    requires Inv(s) && j <= |ops|
    ensures Inv(Run(s, ops[..j])) && Inv(Run(s, ops)) && Extends(Run(s, ops[..j]).tree, Run(s, ops).tree)
    decreases |ops|
  {
    hide Step, Rooted;
    RunInv(s, ops);
    RunInv(s, ops[..j]);
    if j == |ops| {
      assert ops[..j] == ops;
    } else {
      var n := |ops| - 1;
      assert ops[..n][..j] == ops[..j];
      RunExtends(s, ops[..n], j);
      StepKeepsInv(Run(s, ops[..n]), ops[n]);
    }
  }

  /** Any two checkpoints of a run with no reset between them lie on one branch, the later one
      strictly higher unless it is the same block. */
  lemma CheckpointsOnOneBranch(s: State, ops: seq<Op>, i: nat, j: nat)
    requires Inv(s) && i <= j <= |ops|
    requires forall k :: i <= k < j ==> !ops[k].Reset?
    ensures var t, a, b := Run(s, ops).tree, Run(s, ops[..i]).sync, Run(s, ops[..j]).sync;
      && Linked(t) && a in t && b in t && IsAncestor(t, a, b)
      && (a != b ==> t[a].height < t[b].height)
  {
    hide IsAncestor, Run, Step;
    assert ops[..j][..i] == ops[..i];
    RunAdvances(s, ops[..j], i);
    RunExtends(s, ops, j);
    var a, b := Run(s, ops[..i]), Run(s, ops[..j]);
    var t := Run(s, ops).tree;
    AncestorInLarger(b.tree, t, a.sync, b.sync);
    AncestorHeight(t, a.sync, b.sync);
  }

  // ---------------------------------------------------------------- what becomes of a checkpoint

  /** The chain and the database let a valid checkpoint through. */
  predicate Clears(o: Outside) {
    o.written && (o.inMainChain || (o.read && o.setBest))
  }

  predicate Descends(s: State, h: Hash)
    requires Inv(s) && h in s.tree
  {
    h != s.sync && IsAncestor(s.tree, s.sync, h)
  }

  /** The block of a valid checkpoint cannot be made the best one. */
  predicate Spoils(o: Outside) {
    !o.inMainChain && o.read && !o.setBest
  }

  /** A signed checkpoint on a known block: it is adopted exactly when it strictly descends from the
      one held and chain and database let it through; it is flagged exactly when it is on another
      branch or cannot be made the best block. */
  lemma KnownDecided(s: State, h: Hash, signed: bool, o: Outside)
    requires Inv(s) && h in s.tree
    ensures Step(s, Process(h, signed, o)) ==
      if !signed then s
      else if Descends(s, h) && Clears(o) then s.(sync := h, message := h, pending := 0, messagePending := 0)
      else if (Descends(s, h) && Spoils(o)) || Unrelated(s, h) then s.(invalid := h) else s
  {
    hide IsAncestor, WalkTo;
    WalkNeverFalls(s.tree, s.sync, s.tree[h].height);
    WalkNeverFalls(s.tree, h, s.tree[s.sync].height);
    if IsAncestor(s.tree, h, s.sync) && IsAncestor(s.tree, s.sync, h) {
      AncestorHeight(s.tree, h, s.sync);
      AncestorHeight(s.tree, s.sync, h);
    }
  }

  /** The pending checkpoint, once its block is known: adopted or flagged as before, and no longer
      pending unless chain or database failed. */
  lemma PendingDecided(s: State, o: Outside)
    requires Inv(s)
    ensures var h := s.pending;
      Step(s, AcceptPending(o)) ==
        if h == 0 || h !in s.tree then s
        else if Descends(s, h) && Clears(o) then
          s.(sync := h, message := s.messagePending, pending := 0, messagePending := 0)
        else if Descends(s, h) then (if Spoils(o) then s.(invalid := h) else s)
        else if Unrelated(s, h) then s.(invalid := h, pending := 0, messagePending := 0)
        else s.(pending := 0, messagePending := 0)
  {
    hide IsAncestor, WalkTo;
    var h := s.pending;
    if h in s.tree {
      WalkNeverFalls(s.tree, s.sync, s.tree[h].height);
      WalkNeverFalls(s.tree, h, s.tree[s.sync].height);
    }
  }

  /** `h` waits for its block, or has been adopted. */
  predicate WaitsOrHolds(s: State, h: Hash, sync: Hash) {
    || (s.pending == h && s.messagePending == h && s.sync == sync)
    || (s.sync == h && s.message == h && s.pending == 0 && s.messagePending == 0)
  }

  lemma {:induction false} KeepsWaiting(s: State, ops: seq<Op>, i: nat, j: nat, h: Hash)
    requires Inv(s) && i < j <= |ops|
    requires h != 0 && ops[i].Process? && ops[i].checkpoint == h && ops[i].signed && h !in Run(s, ops[..i]).tree
    requires forall k :: i < k < j ==> !ops[k].Process? && !ops[k].Reset?
    requires var now := Run(s, ops[..j]);
      Linked(now.tree) && (h in now.tree ==> IsAncestor(now.tree, Run(s, ops[..i]).sync, h))
    ensures WaitsOrHolds(Run(s, ops[..j]), h, Run(s, ops[..i]).sync)
  {
    hide Step, IsAncestor;
    var m := j - 1;
    assert ops[..j][..m] == ops[..m];
    RunInv(s, ops[..m]);
    RunInv(s, ops[..i]);
    var was, sync := Run(s, ops[..m]), Run(s, ops[..i]).sync;
    if i == m {
      UnknownWaits(was, h, ops[i].outside);
    } else {
      StepKeepsInv(was, ops[m]);
      if h in was.tree {
        AncestorInLarger(was.tree, Run(s, ops[..j]).tree, sync, h);
      }
      KeepsWaiting(s, ops, i, m, h);
      SyncKnown(s, ops, i, m);
      StillWaits(was, ops[m], h, sync);
    }
  }

  lemma UnknownWaits(s: State, h: Hash, o: Outside)
    requires Inv(s) && h !in s.tree
    ensures WaitsOrHolds(Step(s, Process(h, true, o)), h, s.sync)
  {
  }

  lemma SyncKnown(s: State, ops: seq<Op>, i: nat, m: nat)
    requires Inv(s) && i <= m <= |ops|
    ensures Run(s, ops[..i]).sync in Run(s, ops[..m]).tree
  {
    hide Step;
    assert ops[..m][..i] == ops[..i];
    RunExtends(s, ops[..m], i);
  }

  lemma StillWaits(s: State, op: Op, h: Hash, sync: Hash)
    requires Inv(s) && WaitsOrHolds(s, h, sync) && h != 0 && h != sync && !op.Process? && !op.Reset?
    requires h in s.tree ==> IsAncestor(s.tree, sync, h)
    ensures WaitsOrHolds(Step(s, op), h, sync)
  {
    hide IsAncestor;
    match op
    case Grow(_, _) =>
    case AcceptPending(o) => PendingDecided(s, o);
  }

  /** No checkpoint is lost for want of its block: a signed checkpoint on an unknown block, with no
      other one and no reset after it, is adopted together with its message by an attempt after its
      block has come in as a descendant, if chain and database let it through. */
  lemma UnknownAdopted(s: State, ops: seq<Op>, i: nat, j: nat, h: Hash)
    requires Inv(s) && i < j < |ops|
    requires h != 0 && ops[i].Process? && ops[i].checkpoint == h && ops[i].signed && h !in Run(s, ops[..i]).tree
    requires forall k :: i < k < j ==> !ops[k].Process? && !ops[k].Reset?
    requires var now := Run(s, ops[..j]);
      Linked(now.tree) && h in now.tree && IsAncestor(now.tree, Run(s, ops[..i]).sync, h)
    requires ops[j].AcceptPending? && Clears(ops[j].outside)
    ensures var t := Run(s, ops[..j + 1]);
      t.sync == h && t.message == h && t.pending == 0 && t.messagePending == 0
  {
    hide IsAncestor, Step;
    KeepsWaiting(s, ops, i, j, h);
    RunInv(s, ops[..j]);
    RunInv(s, ops[..i]);
    assert ops[..j + 1][..j] == ops[..j];
    PendingDecided(Run(s, ops[..j]), ops[j].outside);
  }

  /** A block that comes in on a known one descends from it and from all its ancestors. */
  lemma GrowDescends(s: State, h: Hash, prev: Hash, a: Hash)
    requires Inv(s) && h !in s.tree && prev in s.tree && IsAncestor(s.tree, a, prev)
    ensures var t := Step(s, Grow(h, prev)).tree;
      Linked(t) && h in t && IsAncestor(t, a, h) && t[h].height == s.tree[prev].height + 1
  {
    GrowAdvances(s, h, prev);
    var t := GrowStep(s, h, prev).tree;
    AncestorInLarger(s.tree, t, a, prev);
  }

  /** A reset, exactly: the newest hardened block becomes pending, without a message, exactly when
      it is unknown; the checkpoint goes to the highest hardened block of the main chain, if there
      is one and chain and database let it. */
  lemma ResetDecided(s: State, c: Hardened, m: Chains)
    requires Inv(s)
    requires forall j, k :: 0 <= j < k < |c| && c[j] in s.tree && c[k] in s.tree ==>
      s.tree[c[j]].height < s.tree[c[k]].height
    ensures var t, last := Step(s, Reset(c, m)), c[|c| - 1];
      var moves := last in s.tree && last !in m.before;
      var main := if moves then m.after else m.before;
      && t == s.(sync := t.sync, pending := t.pending, messagePending := t.messagePending)
      && (if last in s.tree then t.pending == s.pending && t.messagePending == s.messagePending
          else t.pending == last && t.messagePending == 0)
      && if m.written && (moves ==> m.read && m.setBest) && exists h <- c :: h in s.tree && h in main
         then t.sync in c && t.sync in s.tree && t.sync in main
              && forall h <- c :: h in s.tree && h in main ==> s.tree[h].height <= s.tree[t.sync].height
         else t.sync == s.sync
  {
    hide Linked;
    var last := c[|c| - 1];
    var main := if last in s.tree && last !in m.before then m.after else m.before;
    forall h | h in c && h in s.tree && h in main
      ensures Newest(c, s.tree, main).Some? && s.tree[h].height <= s.tree[Newest(c, s.tree, main).value].height
    {
      var i :| 0 <= i < |c| && c[i] == h;
      NewestIsHighest(c, s.tree, main, i);
    }
  }

  // ---------------------------------------------------------------- what is admitted

  /** Moving the checkpoint forward admits no block above it that was refused before. */
  lemma AdvanceAdmitsNothing(s: State, s': State, h: Hash, prev: Hash)
    requires Advances(s, s') && prev in s.tree && s.tree[prev].height + 1 > s'.tree[s'.sync].height
    requires Passes(s', h, prev)
    ensures Passes(s, h, prev)
  {
    hide IsAncestor;
    AncestorTransitive(s'.tree, s.sync, s'.sync, prev);
    AncestorInLarger(s.tree, s'.tree, s.sync, prev);
    AncestorHeight(s'.tree, s.sync, s'.sync);
  }

  /** Exactly which blocks a forward move admits over one tree: the known blocks from the old
      checkpoint's height to below the new one's that do not descend from the old checkpoint. */
  lemma NewlyAdmitted(s: State, s': State, h: Hash, prev: Hash)
    requires Advances(s, s') && s.tree == s'.tree && prev in s.tree
    requires h in s.tree ==> s.tree[h].prev == Some(prev)
    ensures var t, height := s.tree, s.tree[prev].height + 1;
      Passes(s', h, prev) && !Passes(s, h, prev)
      <==> h in t && t[s.sync].height <= height < t[s'.sync].height && !IsAncestor(t, s.sync, h)
  {
    hide Passes;
    var t := s.tree;
    AncestorHeight(t, s.sync, s'.sync);
    PassesByHeight(s, h, prev);
    PassesByHeight(s', h, prev);
    if t[prev].height + 1 > t[s'.sync].height && Passes(s', h, prev) {
      AdvanceAdmitsNothing(s, s', h, prev);
    }
    if h in t && IsAncestor(t, s'.sync, h) {
      AncestorTransitive(t, s.sync, s'.sync, h);
    }
  }

  /** `CheckSync` on a block and its own predecessor. */
  lemma PassesByHeight(s: State, h: Hash, prev: Hash)
    requires Linked(s.tree) && s.sync in s.tree && prev in s.tree
    requires h in s.tree ==> s.tree[h].prev == Some(prev)
    ensures h in s.tree ==> (Passes(s, h, prev)
      <==> s.tree[prev].height + 1 < s.tree[s.sync].height || IsAncestor(s.tree, s.sync, h))
    ensures h !in s.tree && Passes(s, h, prev) ==> s.tree[prev].height + 1 > s.tree[s.sync].height
  {
    if h in s.tree && IsAncestor(s.tree, s.sync, h) {
      AncestorHeight(s.tree, s.sync, h);
    }
    if IsAncestor(s.tree, s.sync, prev) {
      AncestorHeight(s.tree, s.sync, prev);
    }
  }

  /** Between resets no block above the checkpoint is admitted that was refused earlier. */
  lemma RunAdmitsNothing(s: State, ops: seq<Op>, i: nat, h: Hash, prev: Hash)
    requires Inv(s) && i <= |ops| && NoReset(ops, i) && prev in Run(s, ops[..i]).tree
    ensures Advances(Run(s, ops[..i]), Run(s, ops))
    ensures var was, now := Run(s, ops[..i]), Run(s, ops);
      was.tree[prev].height + 1 > now.tree[now.sync].height && Passes(now, h, prev) ==> Passes(was, h, prev)
  {
    hide IsAncestor, Run, Step;
    RunAdvances(s, ops, i);
    var was, now := Run(s, ops[..i]), Run(s, ops);
    if was.tree[prev].height + 1 > now.tree[now.sync].height && Passes(now, h, prev) {
      AdvanceAdmitsNothing(was, now, h, prev);
    }
  }

  /** Below the checkpoint it is otherwise: a known block of another branch is refused while it
      is above the checkpoint and passes once the checkpoint has moved above it. */
  lemma LowerBlockAdmitted() returns (s: State, s': State, h: Hash, prev: Hash)
    ensures Advances(s, s') && prev in s.tree && h in s.tree && s.tree[h].prev == Some(prev)
    ensures !Passes(s, h, prev) && Passes(s', h, prev)
  {
    // 1 - 2 - 3 - 4 and 1 - 6 - 7
    var tree := map[
      1 := Block(None, 0), 2 := Block(Some(1), 1), 3 := Block(Some(2), 2), 4 := Block(Some(3), 3),
      6 := Block(Some(1), 1), 7 := Block(Some(6), 2)];
    s, s' := State(tree, 2, 0, 0, 0, 0), State(tree, 4, 0, 0, 0, 0);
    h, prev := 7, 6;
    assert Linked(tree) && Rooted(tree);
    assert IsAncestor(tree, 2, 3);
    assert IsAncestor(tree, 2, 4);
    assert !IsAncestor(tree, 2, 1);
  }

  // ---------------------------------------------------------------- the programs

  class SyncCheckpoints {
    var tree: Tree
    var sync: Hash
    var pending: Hash
    var invalid: Hash
    var message: Hash
    var messagePending: Hash

    ghost function Current(): State
      reads this
    {
      State(tree, sync, pending, invalid, message, messagePending)
    }

    constructor (genesis: Hash)
      requires genesis != 0
      ensures Inv(Current()) && MessagesAgree(Current()) && Announced(Current())
      ensures sync == genesis && tree == map[genesis := Block(None, 0)]
    {
      tree := map[genesis := Block(None, 0)];
      sync, pending, invalid, message, messagePending := genesis, 0, 0, 0, 0;
    }

    /** The loops that follow `pprev` down to a height. */
    method Walk(from: Hash, height: nat) returns (r: Option<Hash>)
      requires Linked(tree) && from in tree
      ensures r == WalkTo(tree, from, height)
    {
      var b := from;
      while tree[b].height > height
        invariant b in tree && WalkTo(tree, from, height) == WalkTo(tree, b, height)
        decreases tree[b].height
      {
        match tree[b].prev
        case None => return None;
        case Some(p) => b := p;
      }
      return Some(b);
    }

    /** `ValidateSyncCheckpoint`. */
    method ValidateSyncCheckpoint(h: Hash) returns (ok: bool)
      requires Linked(tree)
      modifies this
      ensures Linked(old(tree)) && ok == Validates(old(Current()), h)
      ensures Current() == AfterValidate(old(Current()), h)
    {
      hide IsAncestor, WalkTo;
      if sync !in tree || h !in tree {
        return false;
      }
      WalkDecides(tree, sync, h);
      if tree[h].height <= tree[sync].height {
        var found := Walk(sync, tree[h].height);
        if found.None? {
          return false;
        }
        if found.value != h {
          invalid := h;
          return false;
        }
        return false;
      }
      var found := Walk(h, tree[sync].height);
      if found.None? {
        return false;
      }
      if found.value != sync {
        invalid := h;
        return false;
      }
      return true;
    }

    /** `ProcessSyncCheckpoint`, with the verdict on the signature and the outcomes of the
        chain and the database as parameters. */
    method ProcessSyncCheckpoint(h: Hash, signed: bool, o: Outside) returns (ok: bool)
      requires Linked(tree)
      modifies this
      ensures Current() == ProcessStep(old(Current()), h, signed, o)
      ensures ok <==> signed && Validates(old(Current()), h) && Succeeds(o)
    {
      hide IsAncestor, WalkTo, AfterValidate, Linked;
      if !signed {
        return false;
      }
      if h !in tree {
        pending, messagePending := h, h;
        return false;
      }
      ValidLeavesAlone(Current(), h);
      var valid := ValidateSyncCheckpoint(h);
      if !valid {
        return false;
      }
      if !o.inMainChain {
        if !o.read {
          return false;
        }
        if !o.setBest {
          invalid := h;
          return false;
        }
      }
      if !o.written {
        return false;
      }
      sync := h;
      message := h;
      pending, messagePending := 0, 0;
      return true;
    }

    /** `AcceptPendingSyncCheckpoint`. */
    method AcceptPendingSyncCheckpoint(o: Outside) returns (ok: bool)
      requires Linked(tree)
      modifies this
      ensures Current() == AcceptStep(old(Current()), o)
      ensures ok <==> old(pending) != 0 && Validates(old(Current()), old(pending)) && Succeeds(o)
    {
      hide IsAncestor, WalkTo, AfterValidate, Linked;
      if pending != 0 && pending in tree {
        ValidLeavesAlone(Current(), pending);
        var valid := ValidateSyncCheckpoint(pending);
        if !valid {
          pending, messagePending := 0, 0;
          return false;
        }
        if !o.inMainChain {
          if !o.read {
            return false;
          }
          if !o.setBest {
            invalid := pending;
            return false;
          }
        }
        if !o.written {
          return false;
        }
        sync := pending;
        pending := 0;
        message := messagePending;
        messagePending := 0;
        return true;
      }
      return false;
    }

    /** `ResetSyncCheckpoint`, with the main chain and the outcomes of the database as
        parameters: true exactly when the checkpoint was set. */
    method ResetSyncCheckpoint(c: Hardened, m: Chains) returns (ok: bool)
      modifies this
      ensures Current() == ResetStep(old(Current()), c, m)
      ensures ok <==> ResetTarget(old(Current()), c, m).Some?
    {
      hide Linked;
      var last := c[|c| - 1];
      var main := m.before;
      if last in tree && last !in main {
        if !m.read || !m.setBest {
          return false;
        }
        main := m.after;
      } else if last !in tree {
        pending, messagePending := last, 0;
      }
      var i := |c|;
      assert c[..i] == c;
      while i > 0
        invariant 0 <= i <= |c| && Newest(c, tree, main) == Newest(c[..i], tree, main)
      {
        i := i - 1;
        assert c[..i + 1][..i] == c[..i];
        if c[i] in tree && c[i] in main {
          if !m.written {
            return false;
          }
          sync := c[i];
          return true;
        }
      }
      return false;
    }

    /** `CheckSync`; there are no checkpoints on the test network. */
    method CheckSync(testNet: bool, h: Hash, prev: Hash) returns (ok: bool)
      requires Linked(tree) && sync in tree && prev in tree
      ensures ok <==> testNet || Passes(Current(), h, prev)
    {
      hide IsAncestor, WalkTo;
      if testNet {
        return true;
      }
      var height := tree[prev].height + 1;
      if height > tree[sync].height {
        WalkDecides(tree, sync, prev);
        var found := Walk(prev, tree[sync].height);
        if found.None? {
          return false;
        }
        if tree[found.value].height < tree[sync].height || found.value != sync {
          return false;
        }
      }
      if height == tree[sync].height && h != sync {
        return false;
      }
      if height < tree[sync].height && h !in tree {
        return false;
      }
      return true;
    }
  }

  /** The walk from the higher of two blocks decides how they are related. */
  lemma WalkDecides(t: Tree, a: Hash, b: Hash)
    requires Linked(t) && a in t && b in t
    ensures WalkTo(t, b, t[a].height) == Some(a) && t[a].height <= t[b].height <==> IsAncestor(t, a, b)
    ensures WalkTo(t, a, t[b].height) == Some(b) && t[b].height <= t[a].height <==> IsAncestor(t, b, a)
    ensures t[a].height == t[b].height && IsAncestor(t, a, b) <==> a == b
    ensures t[a].height == t[b].height && IsAncestor(t, b, a) <==> a == b
  {
    hide IsAncestor, WalkTo;
    SelfAncestor(t, a);
    if IsAncestor(t, a, b) {
      WalkFinds(t, a, b);
      AncestorHeight(t, a, b);
    }
    if IsAncestor(t, b, a) {
      WalkFinds(t, b, a);
      AncestorHeight(t, b, a);
    }
  }

  lemma ValidLeavesAlone(s: State, h: Hash)
    requires Linked(s.tree)
    ensures Validates(s, h) ==> AfterValidate(s, h) == s
  {
  }
}
