/** Runs of arbitrary DDF operations. */
module Runs {
  import opened Basics
  import opened Forest
  import opened Ops
  import Members
  import Trees

  /** OpCopy carries the heap it leads to, OpAddMember the nodes it may allocate. */
  datatype Op =
    | OpNew(n: Body, name: Option<string>)
    | OpRename(n: Body, name: Option<string>)
    | OpAdd(p: Body, c: Body)
    | OpAddBeside(p: Body, c: Body, anchor: Body, after: bool)
    | OpAddMember(n: Body, path: string, supply: seq<Body>)
    | OpCopy(n: Body, copy: Body, result: Heap)
    | OpRemove(n: Body)
    | OpEmpty(n: Body)
    | OpDestroy(n: Body)
    | OpSet(n: Body, v: Value)
    | OpWalk(n: Body, w: Walk)

  /** What DDF::copy leaves behind: a detached tree of new nodes that is the one under n. */
  ghost predicate Copied(f: Heap, n: Body, copy: Body, g: Heap)
    requires Wf(f) && n in f
  {
    Wf(g) && Trees.FreshTree(f, g, copy) && Trees.TreeOf(g, copy) == Trees.TreeOf(f, n)
  }

  /** The conditions the operations place on their callers: live handles and the domain conditions. */
  ghost predicate Enabled(f: Heap, op: Op)
    requires Wf(f)
  {
    match op
    case OpNew(n, name) => n !in f && NameOk(name)
    case OpRename(n, name) => n in f && RenameOk(f, n, name)
    case OpAdd(p, c) => p in f && c in f && AddOk(f, p, c)
    case OpAddBeside(p, c, anchor, _) => p in f && c in f && anchor in f && AnchoredOk(f, p, c, anchor)
    case OpAddMember(n, path, supply) => n in f && Members.Addable(path) && Members.Supply(f, supply)
    case OpCopy(n, copy, g) => n in f && Copied(f, n, copy, g)
    case OpRemove(n) => n in f
    case OpEmpty(n) => n in f
    case OpDestroy(n) => n in f
    case OpSet(n, v) => n in f && TextOk(v)
    case OpWalk(n, _) => n in f
  }

  ghost function Apply(f: Heap, op: Op): Heap
    requires Wf(f) && Enabled(f, op)
  {
    match op
    case OpNew(n, name) => Create(f, n, name)
    case OpRename(n, name) => Rename(f, n, name)
    case OpAdd(p, c) => Add(f, p, c)
    case OpAddBeside(p, c, anchor, after) => AddBeside(f, p, c, anchor, after)
    case OpAddMember(n, path, supply) => Members.AddPath(f, n, path, supply).heap
    case OpCopy(_, _, g) => g
    case OpRemove(n) => Detach(f, n)
    case OpEmpty(n) => Hollow(f, n)
    case OpDestroy(n) => Destroy(f, n)
    case OpSet(n, v) => SetValue(f, n, v)
    case OpWalk(n, w) => assert Proper(f, n); SetCursor(f, n, Advance(f[n], w).0)
  }

  lemma ApplyWf(f: Heap, op: Op)
    requires Wf(f) && Enabled(f, op)
    ensures Wf(Apply(f, op))
  {
    match op
    case OpNew(n, name) => CreateWf(f, n, name);
    case OpRename(n, name) => RenameWf(f, n, name);
    case OpAdd(p, c) => AddWf(f, p, c);
    case OpAddBeside(p, c, anchor, after) => AddBesideWf(f, p, c, anchor, after);
    case OpAddMember(_, _, _) =>
    case OpCopy(_, _, _) =>
    case OpRemove(n) => DetachWf(f, n);
    case OpEmpty(n) => HollowWf(f, n);
    case OpDestroy(n) => DestroyWf(f, n);
    case OpSet(n, v) => SetValueWf(f, n, v);
    case OpWalk(n, w) => assert Proper(f, n); SetCursorWf(f, n, Advance(f[n], w).0);
  }

  /** f' is reached from f by the operations ops, each called on live handles within its domain. */
  ghost predicate Run(f: Heap, ops: seq<Op>, f': Heap)
    decreases |ops|
  {
    if ops == [] then f' == f
    else Wf(f) && Enabled(f, ops[0]) && Run(Apply(f, ops[0]), ops[1..], f')
  }

  /** Every sequence of operations keeps the tree invariant. */
  lemma {:induction false} RunWf(f: Heap, ops: seq<Op>, f': Heap)
    requires Wf(f) && Run(f, ops, f')
    ensures Wf(f')
    decreases |ops|
  {
    if ops == [] {
    } else {
      ApplyWf(f, ops[0]);
      RunWf(Apply(f, ops[0]), ops[1..], f');
    }
  }
}
