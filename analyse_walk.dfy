/** walk(first, total, filter): the analyser visits the call tree
    depth-first with an explicit stack, calling the filter's pre before a
    node's descendants and its post after all of them, for the kinds of
    call (PRE, POST or BOTH) the filter asks for. A PRE filter may rewrite
    the node's children before the walk reads them, so the walk goes down
    the children pre leaves behind. The filter is modelled by the sequence
    of calls it receives. */
module TreeWalk {
  import opened Options

  /** A call-tree node; ids stand for node pointers. */
  datatype Tree = Node(id: nat, children: seq<Tree>)

  /** One call made on the filter, with the parent (None for the root). */
  datatype Call = PreCall(parent: Option<nat>, node: nat) | PostCall(parent: Option<nat>, node: nat)

  /** StackItem: a node still to enter, or a node whose post is due. */
  datatype Item = Enter(parent: Option<nat>, tree: Tree) | Leave(parent: Option<nat>, node: nat)

  /** The filter as the walk sees it: the kinds of call its type() asks
      for, and the CHILDREN its pre leaves in a node (collapsing rebuilds
      them, the massif builder sorts and truncates them). */
  datatype Filter = Filter(wantPre: bool, wantPost: bool, rewrite: Tree -> seq<Tree>)

  function Size(t: Tree): (n: nat)
    ensures n >= 1
    decreases t, |t.children| + 1
  {
    1 + SizeOfChildren(t, |t.children|)
  }

  function SizeOfChildren(t: Tree, k: nat): nat
    requires k <= |t.children|
    decreases t, k
  {
    if k == 0 then 0 else SizeOfChildren(t, k - 1) + Size(t.children[k - 1])
  }

  /** Each of the first k children is no larger than all k together. */
  lemma {:induction false} ChildrenSmaller(t: Tree, k: nat)
    requires k <= |t.children|
    ensures forall i :: 0 <= i < k ==> Size(t.children[i]) <= SizeOfChildren(t, k)
    decreases k
  {
    if k > 0 {
      ChildrenSmaller(t, k - 1);
    }
  }

  /** pre builds a node's new children from its own subtree, so every new
      child is smaller than the node. */
  ghost predicate Shrinks(f: Filter)
  {
    forall t, k :: 0 <= k < |f.rewrite(t)| ==> Size(f.rewrite(t)[k]) < Size(t)
  }

  /** The children the walk pushes for a node: those pre leaves for a PRE
      filter, the node's own otherwise. */
  function Kids(t: Tree, f: Filter): seq<Tree>
  {
    if f.wantPre then f.rewrite(t) else t.children
  }

  /** Whichever children are pushed, each is smaller than its node. */
  lemma KidsSmaller(t: Tree, f: Filter)
    requires Shrinks(f)
    ensures forall k :: 0 <= k < |Kids(t, f)| ==> Size(Kids(t, f)[k]) < Size(t)
  {
    ChildrenSmaller(t, |t.children|);
  }

  /** The tree the walk goes down: every node with the children pushed
      for it. */
  function Walked(t: Tree, f: Filter): (w: Tree)
    requires Shrinks(f)
    ensures w.id == t.id && |w.children| == |Kids(t, f)|
    decreases Size(t)
  {
    KidsSmaller(t, f);
    var kids := Kids(t, f);
    Node(t.id, seq(|kids|, k requires 0 <= k < |kids| => Walked(kids[k], f)))
  }

  /** The calls the walk makes for t: pre, then the children's subtrees
      from the last child to the first (the stack pops them in that order),
      then post. */
  function Events(parent: Option<nat>, t: Tree, wantPre: bool, wantPost: bool): seq<Call>
    decreases t, |t.children| + 1
  {
    (if wantPre then [PreCall(parent, t.id)] else []) +
    ChildEvents(t, |t.children|, wantPre, wantPost) +
    (if wantPost then [PostCall(parent, t.id)] else [])
  }

  /** The calls for the first k children, child k - 1 first. */
  function ChildEvents(t: Tree, k: nat, wantPre: bool, wantPost: bool): seq<Call>
    requires k <= |t.children|
    decreases t, k
  {
    if k == 0 then []
    else Events(Some(t.id), t.children[k - 1], wantPre, wantPost) + ChildEvents(t, k - 1, wantPre, wantPost)
  }

  function ItemEvents(it: Item, f: Filter): seq<Call>
    requires Shrinks(f)
  {
    match it
    case Enter(p, t) => Events(p, Walked(t, f), f.wantPre, f.wantPost)
    case Leave(p, n) => [PostCall(p, n)]
  }

  /** The calls still to come from a stack whose top is its last item. */
  function Pending(stack: seq<Item>, f: Filter): seq<Call>
    requires Shrinks(f)
  {
    if stack == [] then []
    else ItemEvents(stack[|stack| - 1], f) + Pending(stack[..|stack| - 1], f)
  }

  function ItemWeight(it: Item, f: Filter): nat
    requires Shrinks(f)
  {
    match it
    case Enter(_, t) => 2 * Size(Walked(t, f))
    case Leave(_, _) => 1
  }

  function Weight(stack: seq<Item>, f: Filter): nat
    requires Shrinks(f)
  {
    if stack == [] then 0 else Weight(stack[..|stack| - 1], f) + ItemWeight(stack[|stack| - 1], f)
  }

  lemma PushItem(stack: seq<Item>, it: Item, f: Filter)
    requires Shrinks(f)
    ensures Pending(stack + [it], f) == ItemEvents(it, f) + Pending(stack, f)
    ensures Weight(stack + [it], f) == Weight(stack, f) + ItemWeight(it, f)
  {
    assert (stack + [it])[..|stack|] == stack;
  }

  /** The calls still to come from the first k of kids pushed under the
      node id, kid k - 1 first. */
  function KidsEvents(id: nat, kids: seq<Tree>, k: nat, f: Filter): seq<Call>
    requires Shrinks(f) && k <= |kids|
  {
    if k == 0 then [] else ItemEvents(Enter(Some(id), kids[k - 1]), f) + KidsEvents(id, kids, k - 1, f)
  }

  function KidsWeight(id: nat, kids: seq<Tree>, k: nat, f: Filter): nat
    requires Shrinks(f) && k <= |kids|
  {
    if k == 0 then 0 else KidsWeight(id, kids, k - 1, f) + ItemWeight(Enter(Some(id), kids[k - 1]), f)
  }

  /** The stack holds the first k of kids pushed above stack. */
  predicate PushedSoFar(result: seq<Item>, stack: seq<Item>, id: nat, kids: seq<Tree>, k: nat, f: Filter)
    requires Shrinks(f) && k <= |kids|
  {
    PendingSoFar(result, stack, id, kids, k, f) && WeightSoFar(result, stack, id, kids, k, f)
  }

  predicate PendingSoFar(result: seq<Item>, stack: seq<Item>, id: nat, kids: seq<Tree>, k: nat, f: Filter)
    requires Shrinks(f) && k <= |kids|
  {
    Pending(result, f) == KidsEvents(id, kids, k, f) + Pending(stack, f)
  }

  predicate WeightSoFar(result: seq<Item>, stack: seq<Item>, id: nat, kids: seq<Tree>, k: nat, f: Filter)
    requires Shrinks(f) && k <= |kids|
  {
    Weight(result, f) == Weight(stack, f) + KidsWeight(id, kids, k, f)
  }

  /** Pushing kid k brings its calls up first. */
  lemma PushKidEvents(result: seq<Item>, stack: seq<Item>, id: nat, kids: seq<Tree>, k: nat, f: Filter)
    requires Shrinks(f) && k < |kids|
    requires PendingSoFar(result, stack, id, kids, k, f)
    ensures PendingSoFar(result + [Enter(Some(id), kids[k])], stack, id, kids, k + 1, f)
  {
    var it := Enter(Some(id), kids[k]);
    PushItem(result, it, f);
    var before, now := KidsEvents(id, kids, k, f), ItemEvents(it, f);
    assert KidsEvents(id, kids, k + 1, f) == now + before;
    assert Pending(result + [it], f) == now + (before + Pending(stack, f));
  }

  /** Pushing kid k adds its weight. */
  lemma PushKidWeight(result: seq<Item>, stack: seq<Item>, id: nat, kids: seq<Tree>, k: nat, f: Filter)
    requires Shrinks(f) && k < |kids|
    requires WeightSoFar(result, stack, id, kids, k, f)
    ensures WeightSoFar(result + [Enter(Some(id), kids[k])], stack, id, kids, k + 1, f)
  {
    var it := Enter(Some(id), kids[k]);
    PushItem(result, it, f);
    assert KidsWeight(id, kids, k + 1, f) == KidsWeight(id, kids, k, f) + ItemWeight(it, f);
  }

  /** The children pre left, pushed in order: child i enters with the node
      as its parent. */
  method PushChildren(stack: seq<Item>, id: nat, kids: seq<Tree>, f: Filter)
    returns (result: seq<Item>)
    requires Shrinks(f)
    ensures Pending(result, f) == KidsEvents(id, kids, |kids|, f) + Pending(stack, f)
    ensures Weight(result, f) == Weight(stack, f) + KidsWeight(id, kids, |kids|, f)
  {
    result := stack;
    for ci := 0 to |kids|
      invariant PushedSoFar(result, stack, id, kids, ci, f)
    {
      PushKidEvents(result, stack, id, kids, ci, f);
      PushKidWeight(result, stack, id, kids, ci, f);
      result := result + [Enter(Some(id), kids[ci])];
    }
  }

  /** w is a node whose children are the given kids, walked. */
  predicate WalksKids(w: Tree, id: nat, kids: seq<Tree>, f: Filter)
    requires Shrinks(f)
  {
    w.id == id && |w.children| == |kids| &&
    forall i :: 0 <= i < |kids| ==> w.children[i] == Walked(kids[i], f)
  }

  /** The walked node's children are the walked children pre left. */
  lemma WalkedKids(t: Tree, f: Filter)
    requires Shrinks(f)
    ensures WalksKids(Walked(t, f), t.id, Kids(t, f), f)
  {
  }

  /** Pushing the children pre left brings up the calls of the walked
      node's children. */
  lemma {:induction false} KidsMatchWalked(w: Tree, id: nat, kids: seq<Tree>, f: Filter, k: nat)
    requires Shrinks(f) && WalksKids(w, id, kids, f) && k <= |kids|
    ensures KidsEvents(id, kids, k, f) == ChildEvents(w, k, f.wantPre, f.wantPost)
  {
    if k > 0 {
      KidsMatchWalked(w, id, kids, f, k - 1);
      assert w.children[k - 1] == Walked(kids[k - 1], f);
    }
  }

  /** ... and their weight. */
  lemma {:induction false} KidsWeighWalked(w: Tree, id: nat, kids: seq<Tree>, f: Filter, k: nat)
    requires Shrinks(f) && WalksKids(w, id, kids, f) && k <= |kids|
    ensures KidsWeight(id, kids, k, f) == 2 * SizeOfChildren(w, k)
  {
    if k > 0 {
      KidsWeighWalked(w, id, kids, f, k - 1);
      assert w.children[k - 1] == Walked(kids[k - 1], f);
    }
  }

  lemma Regroup(calls: seq<Call>, preCalls: seq<Call>, kids: seq<Call>, postCalls: seq<Call>,
                 pending: seq<Call>, after: seq<Call>, events: seq<Call>)
    requires after == kids + (postCalls + pending) && events == preCalls + kids + postCalls
    ensures (calls + preCalls) + after == calls + (events + pending)
  {
  }

  /** Entering a node: its pre call, which may rewrite its children, then
      its post item (for a POST filter) and the children pre left pushed
      above the rest of the stack. */
  method EnterNode(rest: seq<Item>, calls: seq<Call>, parent: Option<nat>, pre: Tree, f: Filter)
    returns (stack': seq<Item>, calls': seq<Call>)
    requires Shrinks(f)
    ensures calls' + Pending(stack', f) ==
            calls + (Events(parent, Walked(pre, f), f.wantPre, f.wantPost) + Pending(rest, f))
    ensures Weight(stack', f) < Weight(rest, f) + 2 * Size(Walked(pre, f))
  {
    var w := Walked(pre, f);
    var pending := Pending(rest, f);
    var preCalls: seq<Call> := if f.wantPre then [PreCall(parent, pre.id)] else [];
    var postCalls: seq<Call> := if f.wantPost then [PostCall(parent, pre.id)] else [];
    var kids := ChildEvents(w, |w.children|, f.wantPre, f.wantPost);
    var children := pre.children;
    if f.wantPre {
      children := f.rewrite(pre);
    }
    calls' := calls + preCalls;
    stack' := rest;
    if f.wantPost {
      PushItem(stack', Leave(parent, pre.id), f);
      stack' := stack' + [Leave(parent, pre.id)];
    }
    assert Pending(stack', f) == postCalls + pending;
    stack' := PushChildren(stack', pre.id, children, f);
    WalkedKids(pre, f);
    KidsMatchWalked(w, pre.id, children, f, |children|);
    KidsWeighWalked(w, pre.id, children, f, |children|);
    Regroup(calls, preCalls, kids, postCalls, pending, Pending(stack', f), Events(parent, w, f.wantPre, f.wantPost));
  }

  /** One round of the walk's loop: pop the top item and make its call,
      or push what entering its node requires. */
  method WalkStep(stack: seq<Item>, calls: seq<Call>, f: Filter)
    returns (stack': seq<Item>, calls': seq<Call>)
    requires Shrinks(f) && stack != []
    ensures calls' + Pending(stack', f) == calls + Pending(stack, f)
    ensures Weight(stack', f) < Weight(stack, f)
  {
    var item := stack[|stack| - 1];
    var rest := stack[..|stack| - 1];
    assert stack == rest + [item];
    PushItem(rest, item, f);
    match item {
      case Enter(parent, pre) =>
        stack', calls' := EnterNode(rest, calls, parent, pre, f);
      case Leave(parent, post) =>
        calls' := calls + [PostCall(parent, post)];
        stack' := rest;
    }
  }

  /** walk: returns the calls made on the filter, which are those of the
      tree as the filter's pre leaves it. */
  method Walk(first: Tree, f: Filter) returns (calls: seq<Call>)
    requires Shrinks(f)
    ensures calls == Events(None, Walked(first, f), f.wantPre, f.wantPost)
  {
    var stack := [Enter(None, first)];
    calls := [];
    assert Pending(stack, f) == Events(None, Walked(first, f), f.wantPre, f.wantPost) by {
      assert stack[..0] == [];
    }
    while stack != []
      invariant calls + Pending(stack, f) == Events(None, Walked(first, f), f.wantPre, f.wantPost)
      decreases Weight(stack, f)
    {
      stack, calls := WalkStep(stack, calls, f);
    }
  }

  /** A filter without pre, or whose pre leaves the children alone, walks
      the tree itself. */
  lemma {:induction false} WalkedUnchanged(t: Tree, f: Filter)
    requires Shrinks(f)
    requires !f.wantPre || forall u :: f.rewrite(u) == u.children
    ensures Walked(t, f) == t
    decreases t
  {
    var w := Walked(t, f);
    forall k | 0 <= k < |t.children| ensures w.children[k] == t.children[k] {
      WalkedUnchanged(t.children[k], f);
    }
  }

  /** Every node is visited once per requested kind of call. */
  lemma {:induction false} EventCount(parent: Option<nat>, t: Tree, wantPre: bool, wantPost: bool)
    ensures |Events(parent, t, wantPre, wantPost)| ==
            ((if wantPre then 1 else 0) + (if wantPost then 1 else 0)) * Size(t)
    decreases t, |t.children| + 1
  {
    ChildEventCount(t, |t.children|, wantPre, wantPost);
  }

  lemma {:induction false} ChildEventCount(t: Tree, k: nat, wantPre: bool, wantPost: bool)
    requires k <= |t.children|
    ensures |ChildEvents(t, k, wantPre, wantPost)| ==
            ((if wantPre then 1 else 0) + (if wantPost then 1 else 0)) * SizeOfChildren(t, k)
    decreases t, k
  {
    if k > 0 {
      ChildEventCount(t, k - 1, wantPre, wantPost);
      EventCount(Some(t.id), t.children[k - 1], wantPre, wantPost);
    }
  }

  /** A node's calls: pre comes first, post comes last, and the calls in
      between are exactly those of its descendants. */
  lemma PreFirstPostLast(parent: Option<nat>, t: Tree)
    ensures var e := Events(parent, t, true, true);
      |e| >= 2 && e[0] == PreCall(parent, t.id) && e[|e| - 1] == PostCall(parent, t.id) &&
      e[1..|e| - 1] == ChildEvents(t, |t.children|, true, true)
  {
  }

  /** inner occurs in outer at lo, after its first call and before its
      last. */
  predicate Inside(outer: seq<Call>, inner: seq<Call>, lo: int)
  {
    1 <= lo && lo + |inner| <= |outer| - 1 && outer[lo..lo + |inner|] == inner
  }

  /** A child's calls lie between its parent's pre and post. */
  lemma {:induction false} ChildInside(parent: Option<nat>, t: Tree, i: nat)
    requires i < |t.children|
    ensures exists lo :: Inside(Events(parent, t, true, true), Events(Some(t.id), t.children[i], true, true), lo)
  {
    var c := ChildEvents(t, |t.children|, true, true);
    var lo := ChildOffset(t, |t.children|, i);
    PreFirstPostLast(parent, t);
    var e := Events(parent, t, true, true);
    var ce := Events(Some(t.id), t.children[i], true, true);
    assert c[lo..lo + |ce|] == ce;
    assert e[1 + lo..1 + lo + |ce|] == c[lo..lo + |ce|];
    assert Inside(e, ce, 1 + lo);
  }

  /** Where child i's calls start among the calls of the first k children. */
  lemma {:induction false} ChildOffset(t: Tree, k: nat, i: nat) returns (lo: nat)
    requires i < k <= |t.children|
    ensures var c := ChildEvents(t, k, true, true);
      var ce := Events(Some(t.id), t.children[i], true, true);
      lo + |ce| <= |c| && c[lo..lo + |ce|] == ce
    decreases k
  {
    var ce := Events(Some(t.id), t.children[i], true, true);
    var head := Events(Some(t.id), t.children[k - 1], true, true);
    var tail := ChildEvents(t, k - 1, true, true);
    if i == k - 1 {
      lo := 0;
      assert (head + tail)[..|ce|] == ce;
    } else {
      var l := ChildOffset(t, k - 1, i);
      lo := |head| + l;
      assert (head + tail)[lo..lo + |ce|] == tail[l..l + |ce|];
    }
  }

  /** A root with children 2 and 3 under a BOTH filter. */
  lemma WalkOrderExample()
    ensures Events(None, Node(1, [Node(2, []), Node(3, [])]), true, true) ==
      [PreCall(None, 1), PreCall(Some(1), 3), PostCall(Some(1), 3),
       PreCall(Some(1), 2), PostCall(Some(1), 2), PostCall(None, 1)]
  {
  }
}
