/** The trace buffer's call tree: every node keeps its children in a
    sibling list sorted by call address, and dopush descends from the root
    along a call stack, reusing the frames it found for the previous stack
    through a call cache. Node pointers are indices into a sequence of
    nodes, node 0 being the root, and allocating a node appends it. */
module TraceTree {

  /** Deepest supported stack depth. */
  const MAX_DEPTH: nat := 800

  /** A call-tree node: its call address and its children, in sibling
      order. */
  datatype StackNode = StackNode(address: nat, children: seq<nat>)

  /** A call-cache slot: an address and the frame found for it. */
  datatype CacheEntry = CacheEntry(address: nat, frame: nat)

  /** The kids are nodes, in strictly increasing address order. */
  predicate KidsSorted(nodes: seq<StackNode>, kids: seq<nat>)
  {
    (forall j :: 0 <= j < |kids| ==> kids[j] < |nodes|) &&
    (forall i, j :: 0 <= i < j < |kids| ==> nodes[kids[i]].address < nodes[kids[j]].address)
  }

  predicate TreeOk(nodes: seq<StackNode>)
  {
    |nodes| >= 1 && forall n :: 0 <= n < |nodes| ==> KidsSorted(nodes, nodes[n].children)
  }

  /** b grows a: old nodes keep their address and their children. */
  predicate Extends(a: seq<StackNode>, b: seq<StackNode>)
  {
    |a| <= |b| &&
    (forall n :: 0 <= n < |a| ==> b[n].address == a[n].address) &&
    (forall n, c :: 0 <= n < |a| && c in a[n].children ==> c in b[n].children)
  }

  lemma ExtendsTrans(a: seq<StackNode>, b: seq<StackNode>, c: seq<StackNode>)
    requires Extends(a, b) && Extends(b, c)
    ensures Extends(a, c)
  {
  }

  /** Where an address belongs among sorted kids: the first kid whose
      address is not below it. */
  function Place(nodes: seq<StackNode>, kids: seq<nat>, address: nat): (p: nat)
    requires forall j :: 0 <= j < |kids| ==> kids[j] < |nodes|
    ensures p <= |kids|
    ensures forall j :: 0 <= j < p ==> nodes[kids[j]].address < address
    ensures p < |kids| ==> nodes[kids[p]].address >= address
  {
    if kids == [] || nodes[kids[0]].address >= address then 0
    else 1 + Place(nodes, kids[1..], address)
  }

  /** A kid's own address places it at its own position. */
  lemma PlaceOfKid(nodes: seq<StackNode>, kids: seq<nat>, j: nat)
    requires KidsSorted(nodes, kids) && j < |kids|
    ensures Place(nodes, kids, nodes[kids[j]].address) == j
  {
    var p := Place(nodes, kids, nodes[kids[j]].address);
    assert p <= j;
  }

  /** The kids with a new node at position p. */
  function Inserted(kids: seq<nat>, p: nat, node: nat): (s: seq<nat>)
    requires p <= |kids|
    ensures |s| == |kids| + 1
    ensures forall i :: 0 <= i < |s| ==> s[i] == if i < p then kids[i] else if i == p then node else kids[i - 1]
  {
    kids[..p] + [node] + kids[p..]
  }

  lemma InsertKeepsSorted(nodes: seq<StackNode>, kids: seq<nat>, address: nat, p: nat)
    requires KidsSorted(nodes, kids) && p == Place(nodes, kids, address)
    requires p < |kids| ==> nodes[kids[p]].address != address
    ensures KidsSorted(nodes + [StackNode(address, [])], Inserted(kids, p, |nodes|))
  {
    InsertAtPlace(nodes, kids, address, p);
  }

  /** The new node's address fits between the kids before p and those
      from p on. */
  lemma InsertAtPlace(nodes: seq<StackNode>, kids: seq<nat>, address: nat, p: nat)
    requires KidsSorted(nodes, kids) && p <= |kids|
    requires forall j :: 0 <= j < p ==> nodes[kids[j]].address < address
    requires p < |kids| ==> nodes[kids[p]].address > address
    ensures KidsSorted(nodes + [StackNode(address, [])], Inserted(kids, p, |nodes|))
  {
    var grown := nodes + [StackNode(address, [])];
    var s := Inserted(kids, p, |nodes|);
    assert forall x :: 0 <= x < |nodes| ==> grown[x].address == nodes[x].address;
    assert grown[|nodes|].address == address;
    forall i, j | 0 <= i < j < |s|
      ensures grown[s[i]].address < grown[s[j]].address
    {
      if j < p {
        assert s[i] == kids[i] && s[j] == kids[j];
      } else if j == p {
        assert s[i] == kids[i];
      } else if i == p {
        assert s[j] == kids[j - 1];
        if j - 1 > p {
          assert nodes[kids[p]].address < nodes[kids[j - 1]].address;
        }
      } else if i < p {
        assert s[i] == kids[i] && s[j] == kids[j - 1];
      } else {
        assert s[i] == kids[i - 1] && s[j] == kids[j - 1];
      }
    }
  }


  lemma GrowKeepsTree(nodes: seq<StackNode>, address: nat)
    requires TreeOk(nodes)
    ensures forall n :: 0 <= n < |nodes| ==> KidsSorted(nodes + [StackNode(address, [])], nodes[n].children)
  {
    var grown := nodes + [StackNode(address, [])];
    forall n | 0 <= n < |nodes|
      ensures KidsSorted(grown, nodes[n].children)
    {
      assert KidsSorted(nodes, nodes[n].children);
    }
  }

  /** The tree with a new node for address inserted at position p of
      parent's children. */
  function AddChild(nodes: seq<StackNode>, parent: nat, address: nat, p: nat): seq<StackNode>
    requires parent < |nodes| && p <= |nodes[parent].children|
  {
    (nodes + [StackNode(address, [])])[parent := StackNode(nodes[parent].address, Inserted(nodes[parent].children, p, |nodes|))]
  }

  lemma AddChildExtends(nodes: seq<StackNode>, parent: nat, address: nat, p: nat)
    requires parent < |nodes| && p <= |nodes[parent].children|
    ensures var result := AddChild(nodes, parent, address, p);
      Extends(nodes, result) && result[|nodes|].address == address && |nodes| in result[parent].children
  {
    var kids := nodes[parent].children;
    var s := Inserted(kids, p, |nodes|);
    var result := AddChild(nodes, parent, address, p);
    forall c | c in kids
      ensures c in s
    {
      var j :| 0 <= j < |kids| && kids[j] == c;
      if j < p {
        assert s[j] == c;
      } else {
        assert s[j + 1] == c;
      }
    }
    assert s[p] == |nodes|;
  }

  lemma AddChildSorted(nodes: seq<StackNode>, parent: nat, address: nat, p: nat)
    requires TreeOk(nodes) && parent < |nodes|
    requires KidsSorted(nodes, nodes[parent].children) && p == Place(nodes, nodes[parent].children, address)
    requires p < |nodes[parent].children| ==> nodes[nodes[parent].children[p]].address != address
    ensures TreeOk(AddChild(nodes, parent, address, p))
  {
    var kids := nodes[parent].children;
    var grown := nodes + [StackNode(address, [])];
    InsertKeepsSorted(nodes, kids, address, p);
    GrowKeepsTree(nodes, address);
    var result := AddChild(nodes, parent, address, p);
    assert forall m :: 0 <= m < |grown| ==> result[m].address == grown[m].address;
    forall n | 0 <= n < |result|
      ensures KidsSorted(result, result[n].children)
    {
      if n != parent && n < |nodes| {
        assert KidsSorted(grown, nodes[n].children);
      }
    }
  }

  /** childStackNode: the child of parent with this address, or a new one
      inserted where the address order puts it. */
  function Descend(nodes: seq<StackNode>, parent: nat, address: nat): (r: (seq<StackNode>, nat))
    requires TreeOk(nodes) && parent < |nodes|
    ensures TreeOk(r.0) && Extends(nodes, r.0)
    ensures r.1 < |r.0| && r.0[r.1].address == address && r.1 in r.0[parent].children
  {
    var kids := nodes[parent].children;
    assert KidsSorted(nodes, kids);
    var p := Place(nodes, kids, address);
    if p < |kids| && nodes[kids[p]].address == address then (nodes, kids[p])
    else
      AddChildSorted(nodes, parent, address, p);
      AddChildExtends(nodes, parent, address, p);
      (AddChild(nodes, parent, address, p), |nodes|)
  }

  /** A child with the address exists exactly when descending adds no
      node. */
  lemma DescendFinds(nodes: seq<StackNode>, parent: nat, address: nat)
    requires TreeOk(nodes) && parent < |nodes|
    ensures (exists c :: c in nodes[parent].children && nodes[c].address == address) <==>
            Descend(nodes, parent, address).0 == nodes
  {
    var kids := nodes[parent].children;
    assert KidsSorted(nodes, kids);
    if exists c :: c in kids && nodes[c].address == address {
      var c :| c in kids && nodes[c].address == address;
      var j :| 0 <= j < |kids| && kids[j] == c;
      PlaceOfKid(nodes, kids, j);
    } else {
      assert |Descend(nodes, parent, address).0| == |nodes| + 1;
    }
  }

  /** A child found once is found again in any grown tree, adding
      nothing. */
  lemma FoundPersists(nodes: seq<StackNode>, grown: seq<StackNode>, parent: nat, k: nat)
    requires TreeOk(grown) && Extends(nodes, grown) && parent < |nodes| && k < |nodes|
    requires k in nodes[parent].children
    ensures Descend(grown, parent, nodes[k].address) == (grown, k)
  {
    var kids := grown[parent].children;
    assert KidsSorted(grown, kids);
    var j :| 0 <= j < |kids| && kids[j] == k;
    PlaceOfKid(grown, kids, j);
  }

  /** Descending twice the same way finds the node the first time gave. */
  lemma DescendIdempotent(nodes: seq<StackNode>, parent: nat, address: nat)
    requires TreeOk(nodes) && parent < |nodes|
    ensures var r := Descend(nodes, parent, address);
      Descend(r.0, parent, address) == r
  {
    var r := Descend(nodes, parent, address);
    var kids := r.0[parent].children;
    assert KidsSorted(r.0, kids);
    var j :| 0 <= j < |kids| && kids[j] == r.1;
    PlaceOfKid(r.0, kids, j);
  }

  /** The frame of a call path, outermost address first, descending from
      the root and creating what is missing. */
  function Walk(nodes: seq<StackNode>, path: seq<nat>): (r: (seq<StackNode>, nat))
    requires TreeOk(nodes)
    ensures TreeOk(r.0) && Extends(nodes, r.0) && r.1 < |r.0|
  {
    if path == [] then (nodes, 0)
    else
      var prev := Walk(nodes, path[..|path| - 1]);
      var next := Descend(prev.0, prev.1, path[|path| - 1]);
      ExtendsTrans(nodes, prev.0, next.0);
      next
  }

  /** Walking one address further descends once more. */
  lemma WalkSnoc(nodes: seq<StackNode>, path: seq<nat>, i: nat)
    requires TreeOk(nodes) && i < |path|
    ensures var prev := Walk(nodes, path[..i]);
      Walk(nodes, path[..i + 1]) == Descend(prev.0, prev.1, path[i])
  {
    assert path[..i + 1][..i] == path[..i];
  }

  /** The frame of a path one address longer is one descent further. */
  lemma WalkStep(nodes: seq<StackNode>, path: seq<nat>, i: nat, nodes0: seq<StackNode>, frame0: nat,
                 nodes1: seq<StackNode>, frame1: nat)
    requires TreeOk(nodes) && i < |path| && (nodes0, frame0) == Walk(nodes, path[..i])
    requires (nodes1, frame1) == Descend(nodes0, frame0, path[i])
    ensures (nodes1, frame1) == Walk(nodes, path[..i + 1])
  {
    WalkSnoc(nodes, path, i);
  }

  /** The outermost min(depth, MAX_DEPTH) addresses of a stack whose
      innermost frame is stack[0]; a negative depth counts as 0. */
  function CallPath(stack: seq<nat>, depth: int): (path: seq<nat>)
    requires depth <= |stack|
    ensures |path| <= MAX_DEPTH && |path| == (if depth < 0 then 0 else if depth < MAX_DEPTH then depth else MAX_DEPTH)
    ensures forall i :: 0 <= i < |path| ==> path[i] == stack[depth - i - 1]
  {
    var d := if depth < 0 then 0 else depth;
    var n := if d < MAX_DEPTH then d else MAX_DEPTH;
    seq(n, i requires 0 <= i < n => stack[d - i - 1])
  }
  /** The i-th address of the call path, for the depth d clamped at 0. */
  lemma CallPathAt(stack: seq<nat>, depth: int, d: nat, i: nat, j: int)
    requires depth <= |stack| && d == (if depth < 0 then 0 else depth)
    requires i < |CallPath(stack, depth)| && j == d - i - 1
    ensures 0 <= j < |stack| && CallPath(stack, depth)[i] == stack[j]
  {
  }


  predicate CacheFramesOk(nodes: seq<StackNode>, cache: seq<CacheEntry>)
  {
    forall i :: 0 <= i < |cache| ==> cache[i].frame < |nodes|
  }

  lemma CacheFramesGrow(nodes: seq<StackNode>, grown: seq<StackNode>, cache: seq<CacheEntry>)
    requires CacheFramesOk(nodes, cache) && |nodes| <= |grown|
    ensures CacheFramesOk(grown, cache)
  {
  }

  /** dopush's frame loop as written, from position i with the current
      frame and the valid flag: a cached slot is reused while every slot
      so far matched, whether or not the previous push wrote it. */
  function FrameWalkAsWritten(nodes: seq<StackNode>, cache: seq<CacheEntry>, path: seq<nat>,
                              i: nat, frame: nat, valid: bool): (r: (seq<StackNode>, seq<CacheEntry>, nat))
    requires TreeOk(nodes) && frame < |nodes| && CacheFramesOk(nodes, cache)
    requires |path| <= |cache| && i <= |path|
    ensures TreeOk(r.0) && Extends(nodes, r.0) && CacheFramesOk(r.0, r.1) && |r.1| == |cache| && r.2 < |r.0|
    decreases |path| - i
  {
    if i == |path| then (nodes, cache, frame)
    else if valid && cache[i].address == path[i] then
      FrameWalkAsWritten(nodes, cache, path, i + 1, cache[i].frame, true)
    else
      var next := Descend(nodes, frame, path[i]);
      CacheFramesGrow(nodes, next.0, cache);
      var r := FrameWalkAsWritten(next.0, cache[i := CacheEntry(path[i], next.1)], path, i + 1, next.1, false);
      ExtendsTrans(nodes, next.0, r.0);
      r
  }

  function Zeros(): seq<CacheEntry>
  {
    seq(MAX_DEPTH, _ => CacheEntry(0, 0))
  }

  /** The tree after a -> b (a = 1, b = 2), and after c = 3 besides. */
  function TreeAB(): seq<StackNode>
  {
    [StackNode(0, [1]), StackNode(1, [2]), StackNode(2, [])]
  }

  function TreeABC(): seq<StackNode>
  {
    [StackNode(0, [1, 3]), StackNode(1, [2]), StackNode(2, []), StackNode(3, [])]
  }

  function CacheAB(): seq<CacheEntry>
  {
    Zeros()[0 := CacheEntry(1, 1)][1 := CacheEntry(2, 2)]
  }

  function CacheC(): seq<CacheEntry>
  {
    CacheAB()[0 := CacheEntry(3, 3)]
  }

  function TreeA(): seq<StackNode>
  {
    [StackNode(0, [1]), StackNode(1, [])]
  }

  lemma DescendA()
    ensures Descend([StackNode(0, [])], 0, 1) == (TreeA(), 1)
  {
    assert Inserted([], 0, 1) == [1];
    assert AddChild([StackNode(0, [])], 0, 1, 0) == TreeA();
  }

  lemma DescendAB()
    ensures Descend(TreeA(), 1, 2) == (TreeAB(), 2)
  {
    assert Inserted([], 0, 2) == [2];
    assert AddChild(TreeA(), 1, 2, 0) == TreeAB();
  }

  /** One step of the frame loop that misses the cache descends from the
      current frame and overwrites the slot. */
  lemma WalkStepFresh(nodes: seq<StackNode>, cache: seq<CacheEntry>, path: seq<nat>,
                      i: nat, frame: nat, valid: bool)
    requires TreeOk(nodes) && frame < |nodes| && CacheFramesOk(nodes, cache)
    requires |path| <= |cache| && i < |path| && !(valid && cache[i].address == path[i])
    ensures var next := Descend(nodes, frame, path[i]);
      CacheFramesOk(next.0, cache[i := CacheEntry(path[i], next.1)]) &&
      FrameWalkAsWritten(nodes, cache, path, i, frame, valid) ==
      FrameWalkAsWritten(next.0, cache[i := CacheEntry(path[i], next.1)], path, i + 1, next.1, false)
  {
    CacheFramesGrow(nodes, Descend(nodes, frame, path[i]).0, cache);
  }

  /** One step of the frame loop that hits the cache takes the cached
      frame. */
  lemma WalkStepCached(nodes: seq<StackNode>, cache: seq<CacheEntry>, path: seq<nat>,
                       i: nat, frame: nat)
    requires TreeOk(nodes) && frame < |nodes| && CacheFramesOk(nodes, cache)
    requires |path| <= |cache| && i < |path| && cache[i].address == path[i]
    ensures FrameWalkAsWritten(nodes, cache, path, i, frame, true) ==
            FrameWalkAsWritten(nodes, cache, path, i + 1, cache[i].frame, true)
  {
  }

  function CacheA(): seq<CacheEntry>
  {
    Zeros()[0 := CacheEntry(1, 1)]
  }

  lemma FirstPush()
    ensures FrameWalkAsWritten([StackNode(0, [])], Zeros(), [1, 2], 0, 0, true) == (TreeAB(), CacheAB(), 2)
  {
    DescendA();
    WalkStepFresh([StackNode(0, [])], Zeros(), [1, 2], 0, 0, true);
    DescendAB();
    WalkStepFresh(TreeA(), CacheA(), [1, 2], 1, 1, false);
  }

  lemma DescendC()
    ensures Descend(TreeAB(), 0, 3) == (TreeABC(), 3)
  {
    assert Place(TreeAB(), [1], 3) == 1;
    assert Inserted([1], 1, 3) == [1, 3];
    assert AddChild(TreeAB(), 0, 3, 1) == TreeABC();
  }

  lemma SecondPush()
    ensures FrameWalkAsWritten(TreeAB(), CacheAB(), [3], 0, 0, true) == (TreeABC(), CacheC(), 3)
  {
    FirstPush();
    DescendC();
    WalkStepFresh(TreeAB(), CacheAB(), [3], 0, 0, true);
  }

  lemma ThirdPush()
    ensures FrameWalkAsWritten(TreeABC(), CacheC(), [3, 2], 0, 0, true) == (TreeABC(), CacheC(), 2)
  {
    WalkStepCached(TreeABC(), CacheC(), [3, 2], 0, 0);
    WalkStepCached(TreeABC(), CacheC(), [3, 2], 1, 3);
  }

  lemma FindC()
    ensures Descend(TreeABC(), 0, 3) == (TreeABC(), 3)
  {
    assert Place(TreeABC(), [1, 3], 3) == 1;
  }

  lemma WalkCB()
    ensures Walk(TreeABC(), [3, 2]).1 == 4
  {
    FindC();
    assert [3, 2][..1] == [3];
    assert [3][..0] == [];
    assert Walk(TreeABC(), [3]) == (TreeABC(), 3);
  }

  /** Three pushes: a -> b, then c alone, then c -> b. The second push
      rewrites only slot 0, so the third reuses slot 1, which still holds
      the b under a, and its records land in the frame of a -> b (node 2)
      instead of a new frame for c -> b (node 4). */
  lemma StaleCacheMisattributes()
    ensures var first := FrameWalkAsWritten([StackNode(0, [])], Zeros(), [1, 2], 0, 0, true);
      var second := FrameWalkAsWritten(first.0, first.1, [3], 0, 0, true);
      var third := FrameWalkAsWritten(second.0, second.1, [3, 2], 0, 0, true);
      first.2 == 2 && third.2 == 2 && Walk(second.0, [3, 2]).1 == 4
  {
    FirstPush();
    SecondPush();
    ThirdPush();
    WalkCB();
  }
}
