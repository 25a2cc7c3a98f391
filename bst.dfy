/**
 * `PlayerBSTList`: an unbalanced binary search tree whose nodes carry their subtree size.
 * An item that ranks after a node goes to its left, one that ranks before goes to its right,
 * so a right-to-left in-order walk lists the items in rank order.
 *
 * The source rewires mutable nodes linked to their parents. Here the tree is a value held in
 * the list's `root` field, and a node is addressed by a `NodeRef`: the subtree rooted at the
 * node together with the frames of its ancestors, nearest first. Walking the frames is
 * walking the parent links; rebuilding them is writing the rewired nodes back.
 */
module BstList {
  import opened Errors
  import opened Store
  import opened JsArray
  import opened PlayerList

  /** A `PlayerNode` and everything below it; `size` is the node's stored size field. */
  datatype Tree = Nil | Node(left: Tree, item: Player, right: Tree, size: int)

  /** `node ? node.size : 0`. */
  function SizeOf(t: Tree): int {
    if t.Nil? then 0 else t.size
  }

  /** The items of a subtree in rank order. */
  function Elems(t: Tree): seq<Player> {
    match t
    case Nil => []
    case Node(l, x, r, _) => Elems(r) + [x] + Elems(l)
  }

  /** Every stored size is one more than the sizes of the two children. */
  ghost predicate SizesOk(t: Tree) {
    match t
    case Nil => true
    case Node(l, _, r, n) => SizesOk(l) && SizesOk(r) && n == SizeOf(l) + SizeOf(r) + 1
  }

  /** With consistent sizes, a node's size is the number of items below it. */
  lemma {:induction false} SizeIsCount(t: Tree)
    requires SizesOk(t)
    ensures SizeOf(t) == |Elems(t)|
  {
    if t.Node? {
      SizeIsCount(t.left);
      SizeIsCount(t.right);
    }
  }

  /** One ancestor of a node: the parent's item and its other child. */
  datatype Frame =
    | LeftOf(parentItem: Player, sibling: Tree)   // the node is its parent's left child
    | RightOf(sibling: Tree, parentItem: Player)  // the node is its parent's right child

  /** The parent rebuilt around a child, its size recomputed as `updateSize` does. */
  function Attach(t: Tree, f: Frame): Tree {
    match f
    case LeftOf(p, r) => Node(t, p, r, SizeOf(t) + SizeOf(r) + 1)
    case RightOf(l, p) => Node(l, p, t, SizeOf(l) + SizeOf(t) + 1)
  }

  /** The whole tree rebuilt from a subtree and the frames above it. */
  function Plug(t: Tree, path: seq<Frame>): Tree
    decreases |path|
  {
    if path == [] then t else Plug(Attach(t, path[0]), path[1..])
  }

  /** The items the frames put before the subtree in rank order. */
  function Pre(path: seq<Frame>): seq<Player>
    decreases |path|
  {
    if path == [] then []
    else match path[0]
      case LeftOf(p, r) => Pre(path[1..]) + Elems(r) + [p]
      case RightOf(_, _) => Pre(path[1..])
  }

  /** The items the frames put after the subtree in rank order. */
  function Post(path: seq<Frame>): seq<Player>
    decreases |path|
  {
    if path == [] then []
    else match path[0]
      case LeftOf(_, _) => Post(path[1..])
      case RightOf(l, p) => [p] + Elems(l) + Post(path[1..])
  }

  /** The other children along the path have consistent sizes. */
  ghost predicate PathOk(path: seq<Frame>) {
    forall i :: 0 <= i < |path| ==> SizesOk(path[i].sibling)
  }

  lemma {:induction false} PlugElems(t: Tree, path: seq<Frame>)
    ensures Elems(Plug(t, path)) == Pre(path) + Elems(t) + Post(path)
    decreases |path|
  {
    if path != [] {
      PlugElems(Attach(t, path[0]), path[1..]);
    }
  }

  lemma {:induction false} PlugSizes(t: Tree, path: seq<Frame>)
    ensures SizesOk(Plug(t, path)) <==> SizesOk(t) && PathOk(path)
    decreases |path|
  {
    if path != [] {
      PlugSizes(Attach(t, path[0]), path[1..]);
      assert PathOk(path) <==> SizesOk(path[0].sibling) && PathOk(path[1..]) by {
        if SizesOk(path[0].sibling) && PathOk(path[1..]) {
          forall i | 0 <= i < |path| ensures SizesOk(path[i].sibling) {
            if i > 0 { assert path[i] == path[1..][i - 1]; }
          }
        }
      }
    }
  }

  /** A reference to a `PlayerNode`: the subtree rooted at it and its ancestors, nearest first. */
  datatype NodeRef = NodeRef(node: Tree, path: seq<Frame>)

  /** `n` addresses a node of the tree `root`. */
  ghost predicate IsRefIn(n: NodeRef, root: Tree) {
    n.node.Node? && SizesOk(n.node) && PathOk(n.path) && Plug(n.node, n.path) == root
  }

  /** The reference to a node's left child. */
  function LeftChild(n: NodeRef): NodeRef
    requires n.node.Node?
  {
    NodeRef(n.node.left, [LeftOf(n.node.item, n.node.right)] + n.path)
  }

  /** The reference to a node's right child. */
  function RightChild(n: NodeRef): NodeRef
    requires n.node.Node?
  {
    NodeRef(n.node.right, [RightOf(n.node.left, n.node.item)] + n.path)
  }

  /** A fresh `PlayerNode`: no children, size 1; a consistent tree holding just `item`. */
  function Leaf(item: Player): (t: Tree)
    ensures SizesOk(t) && Elems(t) == [item]
  {
    Node(Nil, item, Nil, 1)
  }

  /** `PlayerNode.getRank`: one, plus the size of the right child, plus one and the size of
      the right sibling for every ancestor reached from its left; this is one plus the number
      of items ranked before the node's item. */
  method GetRank(n: NodeRef) returns (rank: int)
    requires n.node.Node? && SizesOk(n.node) && PathOk(n.path)
    ensures rank == |Pre(n.path)| + |Elems(n.node.right)| + 1
    ensures rank - 1 < |Elems(Plug(n.node, n.path))| && Elems(Plug(n.node, n.path))[rank - 1] == n.node.item
  {
    SizeIsCount(n.node.right);
    rank := 1;
    if n.node.right.Node? {
      rank := rank + n.node.right.size;
    }
    var i := 0;
    while i < |n.path|
      invariant 0 <= i <= |n.path|
      invariant rank + |Pre(n.path[i..])| == |Pre(n.path)| + |Elems(n.node.right)| + 1
    {
      var f := n.path[i];
      assert n.path[i..][0] == f && n.path[i..][1..] == n.path[i + 1..];
      if f.LeftOf? {
        SizeIsCount(f.sibling);
        rank := rank + 1;
        if f.sibling.Node? {
          rank := rank + f.sibling.size;
        }
      }
      i := i + 1;
    }
    PlugElems(n.node, n.path);
  }

  /** `PlayerNode.updateSize`: recompute the size of the node and then of each ancestor up to
      the root. The items and their order are untouched, and every size is consistent again. */
  method UpdateSize(n: NodeRef) returns (root: Tree)
    requires n.node.Node?
    ensures Elems(root) == Pre(n.path) + Elems(n.node) + Post(n.path)
    ensures SizesOk(root) <==> SizesOk(n.node.left) && SizesOk(n.node.right) && PathOk(n.path)
  {
    var start := Node(n.node.left, n.node.item, n.node.right, SizeOf(n.node.left) + SizeOf(n.node.right) + 1);
    var current := start;
    var i := 0;
    while i < |n.path|
      invariant 0 <= i <= |n.path|
      invariant Plug(current, n.path[i..]) == Plug(start, n.path)
    {
      assert n.path[i..][0] == n.path[i] && n.path[i..][1..] == n.path[i + 1..];
      current := Attach(current, n.path[i]);
      i := i + 1;
    }
    assert n.path[i..] == [];
    root := current;
    PlugElems(start, n.path);
    PlugSizes(start, n.path);
  }

  /** `PlayerNode.setLeft`: `child` becomes the node's left child and the sizes above are
      updated. */
  method SetLeft(parent: NodeRef, child: Tree) returns (root: Tree)
    requires parent.node.Node?
    ensures Elems(root) ==
      Pre(parent.path) + Elems(parent.node.right) + [parent.node.item] + Elems(child) + Post(parent.path)
    ensures SizesOk(child) && SizesOk(parent.node.right) && PathOk(parent.path) ==> SizesOk(root)
  {
    var p := parent.node;
    root := UpdateSize(NodeRef(Node(child, p.item, p.right, p.size), parent.path));
  }

  /** `PlayerNode.setRight`: `child` becomes the node's right child and the sizes above are
      updated. */
  method SetRight(parent: NodeRef, child: Tree) returns (root: Tree)
    requires parent.node.Node?
    ensures Elems(root) ==
      Pre(parent.path) + Elems(child) + [parent.node.item] + Elems(parent.node.left) + Post(parent.path)
    ensures SizesOk(child) && SizesOk(parent.node.left) && PathOk(parent.path) ==> SizesOk(root)
  {
    var p := parent.node;
    root := UpdateSize(NodeRef(Node(p.left, p.item, child, p.size), parent.path));
  }

  /** `PlayerNode.unsetParent`: the node and everything below it leave the tree, and the sizes
      above are updated. */
  method UnsetParent(n: NodeRef) returns (root: Tree)
    requires n.path != []
    ensures Elems(root) == Pre(n.path) + Post(n.path)
    ensures PathOk(n.path) ==> SizesOk(root)
  {
    var rest := n.path[1..];
    match n.path[0]
    case LeftOf(p, r) =>
      root := UpdateSize(NodeRef(Node(Nil, p, r, 0), rest));
    case RightOf(l, p) =>
      root := UpdateSize(NodeRef(Node(l, p, Nil, 0), rest));
  }

  /** Hanging `sub` where the node `n` was: `setRoot` when it is the root, otherwise `setLeft`
      or `setRight` on its parent, whichever side held it. */
  method Replace(n: NodeRef, sub: Tree) returns (root: Tree)
    ensures Elems(root) == Pre(n.path) + Elems(sub) + Post(n.path)
    ensures SizesOk(sub) && PathOk(n.path) ==> SizesOk(root)
  {
    if n.path == [] {
      root := sub;
    } else {
      var parent := NodeRef(Attach(n.node, n.path[0]), n.path[1..]);
      match n.path[0]
      case LeftOf(_, _) =>
        root := SetLeft(parent, sub);
      case RightOf(_, _) =>
        root := SetRight(parent, sub);
    }
  }

  /** The three parts of a sequence in rank order around one of its items. */
  lemma SplitOrder(a: seq<Player>, x: Player, b: seq<Player>)
    requires InRankOrder(a + [x] + b)
    ensures InRankOrder(a) && InRankOrder(b)
    ensures forall y :: y in a ==> Precedes(y, x)
    ensures forall y :: y in b ==> Precedes(x, y)
  {
    var s := a + [x] + b;
    forall i, j | 0 <= i < j < |a| ensures Precedes(a[i], a[j]) {
      assert s[i] == a[i] && s[j] == a[j];
    }
    forall i, j | 0 <= i < j < |b| ensures Precedes(b[i], b[j]) {
      assert s[|a| + 1 + i] == b[i] && s[|a| + 1 + j] == b[j];
    }
    forall y | y in a ensures Precedes(y, x) {
      var i :| 0 <= i < |a| && a[i] == y;
      assert s[i] == y && s[|a|] == x;
    }
    forall y | y in b ensures Precedes(x, y) {
      var i :| 0 <= i < |b| && b[i] == y;
      assert s[|a| + 1 + i] == y && s[|a|] == x;
    }
  }

  /** The middle part of a sequence in rank order is in rank order. */
  lemma MiddleOrder(a: seq<Player>, m: seq<Player>, b: seq<Player>)
    requires InRankOrder(a + m + b)
    ensures InRankOrder(m)
  {
    var s := a + m + b;
    forall i, j | 0 <= i < j < |m| ensures Precedes(m[i], m[j]) {
      assert s[|a| + i] == m[i] && s[|a| + j] == m[j];
    }
  }

  /** The ranked items of a subtree whose first item has rank `off + 1`, limited to ranks in
      `[start, end]`, in rank order. */
  ghost function Window(t: Tree, off: int, start: int, end: int): seq<RankedPlayer> {
    match t
    case Nil => []
    case Node(l, x, r, _) =>
      var rank := off + |Elems(r)| + 1;
      Window(r, off, start, end)
        + (if start <= rank <= end then [RankedPlayer(x, rank)] else [])
        + Window(l, rank, start, end)
  }

  lemma {:induction false} WindowMembers(t: Tree, off: int, start: int, end: int)
    ensures forall y :: y in Window(t, off, start, end) <==>
      start <= y.rank <= end && off < y.rank <= off + |Elems(t)| && y.player == Elems(t)[y.rank - off - 1]
  {
    if t.Node? {
      var l, x, r := t.left, t.item, t.right;
      var rank := off + |Elems(r)| + 1;
      WindowMembers(r, off, start, end);
      WindowMembers(l, rank, start, end);
      var e := Elems(t);
      assert e == Elems(r) + [x] + Elems(l);
      forall y: RankedPlayer | off < y.rank <= off + |e|
        ensures e[y.rank - off - 1] ==
          if y.rank < rank then Elems(r)[y.rank - off - 1]
          else if y.rank == rank then x
          else Elems(l)[y.rank - rank - 1]
      {
      }
    }
  }

  lemma {:induction false} WindowSorted(t: Tree, off: int, start: int, end: int)
    ensures forall i, j :: 0 <= i < j < |Window(t, off, start, end)| ==>
      Window(t, off, start, end)[i].rank < Window(t, off, start, end)[j].rank
  {
    if t.Node? {
      var l, x, r := t.left, t.item, t.right;
      var rank := off + |Elems(r)| + 1;
      WindowSorted(r, off, start, end);
      WindowSorted(l, rank, start, end);
      WindowMembers(r, off, start, end);
      WindowMembers(l, rank, start, end);
      var a, m, b := Window(r, off, start, end),
        (if start <= rank <= end then [RankedPlayer(x, rank)] else []), Window(l, rank, start, end);
      var w := a + m + b;
      forall i, j | 0 <= i < j < |w| ensures w[i].rank < w[j].rank {
        if i < |a| { assert w[i] in a; }
        else if i < |a| + |m| { assert w[i] in m; }
        else { assert w[i] == b[i - |a| - |m|]; }
        if j < |a| { assert w[j] == a[j]; }
        else if j < |a| + |m| { assert w[j] in m; }
        else { assert w[j] in b; }
      }
    }
  }

  /** A subtree whose ranks all lie above `end` contributes nothing. */
  lemma {:induction false} WindowAbove(t: Tree, off: int, start: int, end: int)
    requires end <= off
    ensures Window(t, off, start, end) == []
    decreases t
  {
    if t.Node? {
      WindowAbove(t.right, off, start, end);
      WindowAbove(t.left, off + |Elems(t.right)| + 1, start, end);
    }
  }

  /** A subtree whose ranks all lie below `start` contributes nothing. */
  lemma {:induction false} WindowBelow(t: Tree, off: int, start: int, end: int)
    requires off + |Elems(t)| < start
    ensures Window(t, off, start, end) == []
    decreases t
  {
    if t.Node? {
      assert |Elems(t)| == |Elems(t.right)| + 1 + |Elems(t.left)|;
      WindowBelow(t.right, off, start, end);
      WindowBelow(t.left, off + |Elems(t.right)| + 1, start, end);
    }
  }

  /** The comparator `getByRank` sorts its result with. */
  function RankCompare(a: RankedPlayer, b: RankedPlayer): int {
    a.rank - b.rank
  }

  lemma RankCompareIsComparator()
    ensures IsComparator(RankCompare)
  {
  }

  /** The whole tree's window is the list contract's window of ranks. */
  lemma WindowIsRankWindow(t: Tree, start: int, end: int)
    ensures Window(t, 0, start, end) == RankWindow(Elems(t), start, end)
  {
    WindowMembers(t, 0, start, end);
    WindowSorted(t, 0, start, end);
    RankWindowAscends(Elems(t), start, end);
    RankCompareIsComparator();
    StrictlySortedUnique(Window(t, 0, start, end), RankWindow(Elems(t), start, end), RankCompare);
  }

  /** The windows of the subtrees waiting in the queue, one after the other. */
  ghost function QueueWindow(queue: seq<NodeRef>, start: int, end: int): seq<RankedPlayer>
    decreases |queue|
  {
    if queue == [] then []
    else Window(queue[0].node, |Pre(queue[0].path)|, start, end) + QueueWindow(queue[1..], start, end)
  }

  /** The number of items in the subtrees waiting in the queue. */
  ghost function Weight(queue: seq<NodeRef>): nat
    decreases |queue|
  {
    if queue == [] then 0 else |Elems(queue[0].node)| + Weight(queue[1..])
  }

  lemma {:induction false} QueueAppend(queue: seq<NodeRef>, q: NodeRef, start: int, end: int)
    ensures QueueWindow(queue + [q], start, end) ==
      QueueWindow(queue, start, end) + Window(q.node, |Pre(q.path)|, start, end)
    ensures Weight(queue + [q]) == Weight(queue) + |Elems(q.node)|
    decreases |queue|
  {
    if queue == [] {
      assert [q][1..] == [];
    } else {
      assert (queue + [q])[1..] == queue[1..] + [q];
      QueueAppend(queue[1..], q, start, end);
    }
  }

  /** Pushing a frame on a path with consistent sizes. */
  lemma PathCons(f: Frame, path: seq<Frame>)
    requires SizesOk(f.sibling) && PathOk(path)
    ensures PathOk([f] + path)
    ensures ([f] + path)[0] == f && ([f] + path)[1..] == path
  {
    var p := [f] + path;
    assert p[1..] == path;
    forall i | 0 <= i < |p| ensures SizesOk(p[i].sibling) {
      if i > 0 {
        assert p[i] == path[i - 1];
      }
    }
  }

  /** The state of a walk down from `root` by `compare` with `item`: `node` is the subtree
      reached, `path` its ancestors, and everything passed by ranks on the side of `item` it
      was left on. */
  ghost predicate Descent(root: Tree, node: Tree, path: seq<Frame>, item: Player) {
    && Plug(node, path) == root && SizesOk(node) && PathOk(path)
    && InRankOrder(Elems(node))
    && Elems(root) == Pre(path) + Elems(node) + Post(path)
    && (forall y :: y in Pre(path) ==> Precedes(y, item))
    && (forall y :: y in Post(path) ==> Precedes(item, y))
  }

  lemma DescentStart(root: Tree, item: Player)
    requires SizesOk(root) && InRankOrder(Elems(root))
    ensures Descent(root, root, [], item)
  {
  }

  lemma ConsLeft(x: Player, r: Tree, path: seq<Frame>)
    ensures Pre([LeftOf(x, r)] + path) == Pre(path) + Elems(r) + [x]
    ensures Post([LeftOf(x, r)] + path) == Post(path)
  {
    assert ([LeftOf(x, r)] + path)[1..] == path;
  }

  lemma ConsRight(l: Tree, x: Player, path: seq<Frame>)
    ensures Pre([RightOf(l, x)] + path) == Pre(path)
    ensures Post([RightOf(l, x)] + path) == [x] + Elems(l) + Post(path)
  {
    assert ([RightOf(l, x)] + path)[1..] == path;
  }

  /** Going left past a node that ranks before the item. */
  lemma StepLeft(root: Tree, node: Tree, path: seq<Frame>, item: Player)
    requires Descent(root, node, path, item) && node.Node? && Precedes(node.item, item)
    ensures Descent(root, node.left, [LeftOf(node.item, node.right)] + path, item)
  {
    var f := LeftOf(node.item, node.right);
    var p := [f] + path;
    PathCons(f, path);
    ConsLeft(node.item, node.right, path);
    SplitOrder(Elems(node.right), node.item, Elems(node.left));
    forall y | y in Pre(p) ensures Precedes(y, item) {
      if y in Elems(node.right) {
        assert Precedes(y, node.item);
      }
    }
    Regroup(Pre(path), Elems(node.right) + [node.item], Elems(node.left));
    Regroup(Pre(path), Elems(node.right), [node.item]);
    assert Elems(root) == Pre(p) + Elems(node.left) + Post(p);
    assert Plug(node.left, p) == Plug(node, path);
  }

  /** Going right past a node that ranks after the item. */
  lemma StepRight(root: Tree, node: Tree, path: seq<Frame>, item: Player)
    requires Descent(root, node, path, item) && node.Node? && Precedes(item, node.item)
    ensures Descent(root, node.right, [RightOf(node.left, node.item)] + path, item)
  {
    var f := RightOf(node.left, node.item);
    var p := [f] + path;
    PathCons(f, path);
    ConsRight(node.left, node.item, path);
    SplitOrder(Elems(node.right), node.item, Elems(node.left));
    forall y | y in Post(p) ensures Precedes(item, y) {
      if y in Elems(node.left) {
        assert Precedes(node.item, y);
      }
    }
    var e := [node.item] + Elems(node.left);
    Regroup(Elems(node.right), [node.item], Elems(node.left));
    Regroup(Pre(path), Elems(node.right), e);
    Regroup(Pre(path) + Elems(node.right), e, Post(path));
    assert Elems(root) == Pre(p) + Elems(node.right) + Post(p);
    assert Plug(node.right, p) == Plug(node, path);
  }

  /** A walk that falls off the tree shows the item is absent. */
  lemma DescentMissing(root: Tree, path: seq<Frame>, item: Player)
    requires Descent(root, Nil, path, item)
    ensures item !in Elems(root)
  {
  }

  /** A walk that stops at an equal node has found a node of the tree holding the item. */
  lemma DescentFound(root: Tree, node: Tree, path: seq<Frame>, item: Player)
    requires Descent(root, node, path, item) && node.Node? && node.item == item
    ensures IsRefIn(NodeRef(node, path), root) && item in Elems(root)
  {
  }

  /** Everything the walk passed, and the node it stops at with the items on its right,
      rank before an item that goes to the node's left. */
  lemma PassedLeft(root: Tree, node: Tree, path: seq<Frame>, item: Player)
    requires Descent(root, node, path, item) && node.Node? && Precedes(node.item, item)
    ensures forall y :: y in Pre(path) + Elems(node.right) + [node.item] ==> Precedes(y, item)
  {
    SplitOrder(Elems(node.right), node.item, Elems(node.left));
    forall y | y in Elems(node.right) ensures Precedes(y, item) {
      assert Precedes(y, node.item);
    }
  }

  /** Everything the walk passed, and the node it stops at with the items on its left, rank
      after an item that goes to the node's right. */
  lemma PassedRight(root: Tree, node: Tree, path: seq<Frame>, item: Player)
    requires Descent(root, node, path, item) && node.Node? && Precedes(item, node.item)
    ensures forall y :: y in [node.item] + Elems(node.left) + Post(path) ==> Precedes(item, y)
  {
    SplitOrder(Elems(node.right), node.item, Elems(node.left));
    forall y | y in Elems(node.left) ensures Precedes(item, y) {
      assert Precedes(node.item, y);
    }
  }

  /** Taking a node's item out of the items of a tree, which lists `pre`, then the node's
      subtree, then `post`, leaves `pre`, the node's two subtrees' items and `post`. */
  lemma RemoveNode(t: seq<Player>, pre: seq<Player>, node: Tree, post: seq<Player>)
    requires node.Node? && t == pre + Elems(node) + post && InRankOrder(t)
    ensures node.item in t
    ensures RemoveAt(t, IndexOf(t, node.item)) == pre + Elems(node.right) + Elems(node.left) + post
    ensures InRankOrder(pre + Elems(node.right) + Elems(node.left) + post)
  {
    var s := pre + Elems(node.right) + Elems(node.left) + post;
    var a, b := pre + Elems(node.right), Elems(node.left) + post;
    assert t == a + [node.item] + b;
    assert s == a + b;
    RemoveBetween(t, s, a, node.item, b);
  }

  /** The ranks a node's children start counting from: the left child's items follow the
      node's own item, the right child's items follow what precedes the node. */
  lemma ChildOffsets(c: NodeRef)
    requires c.node.Node?
    ensures |Pre(LeftChild(c).path)| == |Pre(c.path)| + |Elems(c.node.right)| + 1
    ensures |Pre(RightChild(c).path)| == |Pre(c.path)|
  {
    assert LeftChild(c).path[0] == LeftOf(c.node.item, c.node.right) && LeftChild(c).path[1..] == c.path;
    assert RightChild(c).path[0] == RightOf(c.node.left, c.node.item) && RightChild(c).path[1..] == c.path;
  }

  /** A child the walk does not queue holds no rank in `[start, end]`: the left child's ranks
      all exceed `end`, or the right child's all fall short of `start`. */
  lemma Pruned(t: Tree, off: int, rank: int, start: int, end: int)
    requires t.Node? && start <= end
    requires rank == off + |Elems(t.right)| + 1
    ensures !(start >= rank || rank <= end) ==> Window(t.left, rank, start, end) == []
    ensures !(start <= rank || rank >= end) ==> Window(t.right, off, start, end) == []
  {
    if !(start >= rank || rank <= end) {
      WindowAbove(t.left, rank, start, end);
    }
    if !(start <= rank || rank >= end) {
      WindowBelow(t.right, off, start, end);
    }
  }

  /** The window of the queue once its first reference is replaced by the children `ql`, `qr`. */
  lemma QueueRequeue(queue: seq<NodeRef>, ql: seq<NodeRef>, qr: seq<NodeRef>, start: int, end: int,
                     wl: seq<RankedPlayer>, wr: seq<RankedPlayer>)
    requires queue != [] && |ql| <= 1 && |qr| <= 1
    requires wl == if ql == [] then [] else Window(ql[0].node, |Pre(ql[0].path)|, start, end)
    requires wr == if qr == [] then [] else Window(qr[0].node, |Pre(qr[0].path)|, start, end)
    ensures QueueWindow(queue, start, end) ==
      Window(queue[0].node, |Pre(queue[0].path)|, start, end) + QueueWindow(queue[1..], start, end)
    ensures QueueWindow(queue[1..] + ql + qr, start, end) == QueueWindow(queue[1..], start, end) + wl + wr
    ensures Weight(queue) == |Elems(queue[0].node)| + Weight(queue[1..])
    ensures Weight(queue[1..] + ql + qr) == Weight(queue[1..]) +
      (if ql == [] then 0 else |Elems(ql[0].node)|) + (if qr == [] then 0 else |Elems(qr[0].node)|)
  {
    QueueAppendAll(queue[1..], ql, start, end);
    QueueAppendAll(queue[1..] + ql, qr, start, end);
  }

  /** Multisets do not see the order of the four parts. */
  lemma Rearrange(wr: seq<RankedPlayer>, here: seq<RankedPlayer>, wl: seq<RankedPlayer>, rest: seq<RankedPlayer>)
    ensures multiset(wr + here + wl + rest) == multiset(here) + multiset(rest + wl + wr)
  {
  }

  /** One step of the breadth-first walk: the window of the node taken from the front of the
      queue is its own ranked item, if in range, and the windows of the children it queues;
      a child it does not queue has an empty window. The queue's weight drops. */
  lemma QueueStep(queue: seq<NodeRef>, start: int, end: int, rank: int)
    requires start <= end
    requires queue != [] && queue[0].node.Node?
    requires rank == |Pre(queue[0].path)| + |Elems(queue[0].node.right)| + 1
    ensures var c := queue[0];
      var here := if start <= rank <= end then [RankedPlayer(c.node.item, rank)] else [];
      var ql := if c.node.left.Node? && (start >= rank || rank <= end) then [LeftChild(c)] else [];
      var qr := if c.node.right.Node? && (start <= rank || rank >= end) then [RightChild(c)] else [];
      && multiset(QueueWindow(queue, start, end)) ==
        multiset(here) + multiset(QueueWindow(queue[1..] + ql + qr, start, end))
      && Weight(queue[1..] + ql + qr) < Weight(queue)
  {
    var c := queue[0];
    var node := c.node;
    var off := |Pre(c.path)|;
    var here := if start <= rank <= end then [RankedPlayer(node.item, rank)] else [];
    var ql := if node.left.Node? && (start >= rank || rank <= end) then [LeftChild(c)] else [];
    var qr := if node.right.Node? && (start <= rank || rank >= end) then [RightChild(c)] else [];
    var wr, wl := Window(node.right, off, start, end), Window(node.left, rank, start, end);
    assert Window(node, off, start, end) == wr + here + wl;
    ChildOffsets(c);
    Pruned(node, off, rank, start, end);
    QueueRequeue(queue, ql, qr, start, end, wl, wr);
    Rearrange(wr, here, wl, QueueWindow(queue[1..], start, end));
  }

  /** `QueueAppend` for a queue of at most one reference. */
  lemma QueueAppendAll(queue: seq<NodeRef>, more: seq<NodeRef>, start: int, end: int)
    requires |more| <= 1
    ensures QueueWindow(queue + more, start, end) ==
      QueueWindow(queue, start, end) + (if more == [] then [] else Window(more[0].node, |Pre(more[0].path)|, start, end))
    ensures Weight(queue + more) == Weight(queue) + (if more == [] then 0 else |Elems(more[0].node)|)
  {
    if more == [] {
      assert queue + more == queue;
    } else {
      assert more == [more[0]];
      QueueAppend(queue, more[0], start, end);
    }
  }

  /** `current.setLeft(new PlayerNode(item))` where the walk for `item` fell off the left of
      `node`: the new tree holds the sorted insertion of `item`. */
  method HangLeft(root: Tree, node: Tree, path: seq<Frame>, item: Player) returns (newRoot: Tree)
    requires InRankOrder(Elems(root))
    requires Descent(root, node, path, item) && node.Node? && node.left.Nil? && Precedes(node.item, item)
    ensures item !in Elems(root)
    ensures Elems(newRoot) == InsertBy(item, Elems(root), Compare)
    ensures SizesOk(newRoot) && InRankOrder(Elems(newRoot))
  {
    newRoot := SetLeft(NodeRef(node, path), Leaf(item));
    HungLeft(root, node, path, item, Elems(newRoot));
  }

  /** The items of the tree with `item` hung to the left of `node` are the sorted insertion
      of `item`. */
  lemma HungLeft(root: Tree, node: Tree, path: seq<Frame>, item: Player, s: seq<Player>)
    requires InRankOrder(Elems(root))
    requires Descent(root, node, path, item) && node.Node? && node.left.Nil? && Precedes(node.item, item)
    requires s == Pre(path) + Elems(node.right) + [node.item] + [item] + Post(path)
    ensures item !in Elems(root) && s == InsertBy(item, Elems(root), Compare) && InRankOrder(s)
  {
    var a, b := Pre(path) + Elems(node.right) + [node.item], Post(path);
    assert Elems(node) == Elems(node.right) + [node.item];
    Regroup(Pre(path), Elems(node.right), [node.item]);
    PassedLeft(root, node, path, item);
    InsertBetween(Elems(root), s, a, b, item);
  }

  /** `current.setRight(new PlayerNode(item))` where the walk for `item` fell off the right of
      `node`: the new tree holds the sorted insertion of `item`. */
  method HangRight(root: Tree, node: Tree, path: seq<Frame>, item: Player) returns (newRoot: Tree)
    requires InRankOrder(Elems(root))
    requires Descent(root, node, path, item) && node.Node? && node.right.Nil? && Precedes(item, node.item)
    ensures item !in Elems(root)
    ensures Elems(newRoot) == InsertBy(item, Elems(root), Compare)
    ensures SizesOk(newRoot) && InRankOrder(Elems(newRoot))
  {
    newRoot := SetRight(NodeRef(node, path), Leaf(item));
    HungRight(root, node, path, item, Elems(newRoot));
  }

  /** The items of the tree with `item` hung to the right of `node` are the sorted insertion
      of `item`. */
  lemma HungRight(root: Tree, node: Tree, path: seq<Frame>, item: Player, s: seq<Player>)
    requires InRankOrder(Elems(root))
    requires Descent(root, node, path, item) && node.Node? && node.right.Nil? && Precedes(item, node.item)
    requires s == Pre(path) + [item] + [node.item] + Elems(node.left) + Post(path)
    ensures item !in Elems(root) && s == InsertBy(item, Elems(root), Compare) && InRankOrder(s)
  {
    var a, e, b := Pre(path), [node.item] + Elems(node.left), [node.item] + Elems(node.left) + Post(path);
    assert Elems(node) == e;
    Regroup(a, e, Post(path));
    Regroup(a + [item], [node.item], Elems(node.left));
    Regroup(a + [item], e, Post(path));
    PassedRight(root, node, path, item);
    InsertBetween(Elems(root), s, a, b, item);
  }

  /** The two-branch case of `delete`: the left subtree is grafted under the leftmost node of
      the right subtree, so the grafted subtree lists the right subtree's items and then the
      left subtree's. */
  method Graft(node: Tree) returns (grafted: Tree)
    requires node.Node? && node.right.Node? && SizesOk(node.left) && SizesOk(node.right)
    ensures Elems(grafted) == Elems(node.right) + Elems(node.left)
    ensures SizesOk(grafted)
  {
    var leftest := node.right;
    var lpath: seq<Frame> := [];
    while leftest.left.Node?
      invariant leftest.Node? && SizesOk(leftest) && PathOk(lpath)
      invariant Elems(node.right) == Pre(lpath) + Elems(leftest) && Post(lpath) == []
      decreases leftest
    {
      var f := LeftOf(leftest.item, leftest.right);
      PathCons(f, lpath);
      ConsLeft(leftest.item, leftest.right, lpath);
      Regroup(Pre(lpath), Elems(leftest.right) + [leftest.item], Elems(leftest.left));
      Regroup(Pre(lpath), Elems(leftest.right), [leftest.item]);
      lpath := [f] + lpath;
      leftest := leftest.left;
    }
    assert Elems(leftest) == Elems(leftest.right) + [leftest.item];
    Regroup(Pre(lpath), Elems(leftest.right), [leftest.item]);
    grafted := SetLeft(NodeRef(leftest, lpath), node.left);
  }

  /** The node `n` leaves the tree as `delete` takes it out: its subtrees' items stay, in
      order, where its own item was. */
  method Unlink(root: Tree, n: NodeRef) returns (newRoot: Tree)
    requires IsRefIn(n, root)
    ensures Elems(newRoot) == Pre(n.path) + Elems(n.node.right) + Elems(n.node.left) + Post(n.path)
    ensures SizesOk(newRoot)
  {
    var node := n.node;
    assert SizesOk(node.left) && SizesOk(node.right);
    if node.left.Node? && node.right.Node? {
      var grafted := Graft(node);
      newRoot := Replace(n, grafted);
    } else if node.left.Node? || node.right.Node? {
      var leftOrRight := if node.left.Node? then node.left else node.right;
      newRoot := Replace(n, leftOrRight);
    } else if n.path == [] {
      newRoot := Nil;
    } else {
      newRoot := UnsetParent(n);
    }
  }

  /** Every reference waiting in the walk's queue is to a node with consistent sizes. */
  ghost predicate QueueOk(queue: seq<NodeRef>) {
    forall q :: q in queue ==> q.node.Node? && SizesOk(q.node) && PathOk(q.path)
  }

  /** Queueing the children of the front reference keeps the queue well formed. */
  lemma QueueOkStep(queue: seq<NodeRef>, ql: seq<NodeRef>, qr: seq<NodeRef>)
    requires QueueOk(queue) && queue != []
    requires ql == [] || (queue[0].node.left.Node? && ql == [LeftChild(queue[0])])
    requires qr == [] || (queue[0].node.right.Node? && qr == [RightChild(queue[0])])
    ensures QueueOk(queue[1..] + ql + qr)
  {
    var c := queue[0];
    assert c in queue;
    if ql != [] {
      PathCons(LeftOf(c.node.item, c.node.right), c.path);
    }
    if qr != [] {
      PathCons(RightOf(c.node.left, c.node.item), c.path);
    }
    forall q | q in queue[1..] + ql + qr ensures q.node.Node? && SizesOk(q.node) && PathOk(q.path) {
      if q in queue[1..] {
        assert q in queue;
      }
    }
  }

  /** One turn of the walk keeps its invariant: what has been collected plus what the queue
      still covers is the whole window, and the queue's weight drops. */
  lemma WalkStep(queue: seq<NodeRef>, items: seq<RankedPlayer>, start: int, end: int, rank: int,
                 here: seq<RankedPlayer>, ql: seq<NodeRef>, qr: seq<NodeRef>, whole: multiset<RankedPlayer>)
    requires start <= end && QueueOk(queue) && queue != []
    requires multiset(items) + multiset(QueueWindow(queue, start, end)) == whole
    requires rank == |Pre(queue[0].path)| + |Elems(queue[0].node.right)| + 1
    requires here == if start <= rank <= end then [RankedPlayer(queue[0].node.item, rank)] else []
    requires ql == if queue[0].node.left.Node? && (start >= rank || rank <= end) then [LeftChild(queue[0])] else []
    requires qr == if queue[0].node.right.Node? && (start <= rank || rank >= end) then [RightChild(queue[0])] else []
    ensures QueueOk(queue[1..] + ql + qr)
    ensures multiset(items + here) + multiset(QueueWindow(queue[1..] + ql + qr, start, end)) == whole
    ensures Weight(queue[1..] + ql + qr) < Weight(queue)
  {
    assert queue[0] in queue;
    QueueStep(queue, start, end, rank);
    QueueOkStep(queue, ql, qr);
  }

  /** The breadth-first walk of `getByRank`: every node whose subtree may hold a rank in
      `[start, end]` is visited, and the visited nodes with a rank in range are collected. */
  method CollectWindow(root: Tree, start: int, end: int) returns (items: seq<RankedPlayer>)
    requires root.Node? && SizesOk(root) && start <= end
    ensures multiset(items) == multiset(Window(root, 0, start, end))
  {
    items := [];
    var queue: seq<NodeRef> := [NodeRef(root, [])];
    assert QueueWindow(queue, start, end) == Window(root, 0, start, end);
    while |queue| > 0
      invariant QueueOk(queue)
      invariant multiset(items) + multiset(QueueWindow(queue, start, end)) ==
        multiset(Window(root, 0, start, end))
      decreases Weight(queue)
    {
      var current := queue[0];
      assert current in queue;
      var rank := GetRank(current);
      var node := current.node;
      var here := if rank >= start && rank <= end then [RankedPlayer(node.item, rank)] else [];
      var ql := if node.left.Node? && (start >= rank || rank <= end) then [LeftChild(current)] else [];
      var qr := if node.right.Node? && (start <= rank || rank >= end) then [RightChild(current)] else [];
      WalkStep(queue, items, start, end, rank, here, ql, qr, multiset(Window(root, 0, start, end)));
      items := items + here;
      queue := queue[1..] + ql + qr;
    }
  }

  class PlayerBSTList {
    /** The private `root`; `Nil` when the tree is empty. */
    var root: Tree

    /** The items in rank order. */
    ghost function Contents(): seq<Player>
      reads this
    {
      Elems(root)
    }

    /** Sizes are consistent and the search-tree order holds. */
    ghost predicate Valid()
      reads this
    {
      SizesOk(root) && InRankOrder(Elems(root))
    }

    constructor()
      ensures Valid() && Contents() == []
    {
      root := Nil;
    }

    /** `clear`: `unsetRoot` drops the whole tree. */
    method Clear()
      modifies this
      ensures Valid() && Contents() == []
    {
      root := Nil;
    }

    /** `size`: the root's size, or 0 for an empty tree. */
    method Size() returns (n: int)
      requires Valid()
      ensures n == |Contents()|
    {
      SizeIsCount(root);
      n := if root.Node? then root.size else 0;
    }

    /** `findNode`: walk down by `compare` until a node compares equal or the walk falls off
        the tree. Lookup is by the full record, mmr and id. */
    method FindNode(item: Player) returns (r: Option<NodeRef>)
      requires Valid()
      ensures r.None? <==> item !in Contents()
      ensures r.Some? ==> IsRefIn(r.value, root) && r.value.node.item == item
    {
      var node := root;
      var path: seq<Frame> := [];
      DescentStart(root, item);
      while node.Node?
        invariant root == old(root)
        invariant Descent(root, node, path, item)
        decreases node
      {
        var comparison := Compare(item, node.item);
        if comparison == 1 {
          StepLeft(root, node, path, item);
          path := [LeftOf(node.item, node.right)] + path;
          node := node.left;
        } else if comparison == -1 {
          StepRight(root, node, path, item);
          path := [RightOf(node.left, node.item)] + path;
          node := node.right;
        } else {
          DescentFound(root, node, path, item);
          return Some(NodeRef(node, path));
        }
      }
      DescentMissing(root, path, item);
      return None;
    }

    /** `find`: the matching item with its rank, or nothing when no node compares equal. */
    method Find(item: Player) returns (r: Option<RankedPlayer>)
      requires Valid()
      ensures r.None? <==> item !in Contents()
      ensures r.Some? ==>
        && r.value.player == item
        && 1 <= r.value.rank <= |Contents()|
        && Contents()[r.value.rank - 1] == item
        && r.value.rank == 1 + Ahead(Contents(), item)
    {
      var current := FindNode(item);
      if current.None? {
        return None;
      }
      var rank := GetRank(current.value);
      PositionCountsAhead(Contents(), rank - 1);
      return Some(RankedPlayer(current.value.node.item, rank));
    }

    /** `insert`: walk down by `compare` and hang a new leaf where the walk falls off the
        tree. An item equal to one already present changes nothing. */
    method Insert(item: Player)
      requires Valid()
      modifies this
      ensures Valid()
      ensures Contents() ==
        if item in old(Contents()) then old(Contents()) else InsertBy(item, old(Contents()), Compare)
    {
      if root.Nil? {
        root := Leaf(item);
        return;
      }
      var node := root;
      var path: seq<Frame> := [];
      DescentStart(root, item);
      while true
        invariant root == old(root)
        invariant node.Node? && Descent(root, node, path, item)
        decreases node
      {
        var comparison := Compare(item, node.item);
        if comparison == 1 {
          if node.left.Node? {
            StepLeft(root, node, path, item);
            path := [LeftOf(node.item, node.right)] + path;
            node := node.left;
          } else {
            root := HangLeft(root, node, path, item);
            return;
          }
        } else if comparison == -1 {
          if node.right.Node? {
            StepRight(root, node, path, item);
            path := [RightOf(node.left, node.item)] + path;
            node := node.right;
          } else {
            root := HangRight(root, node, path, item);
            return;
          }
        } else {
          DescentFound(root, node, path, item);
          return;
        }
      }
    }

    /** `delete`: nothing happens when no node compares equal. Otherwise the node leaves the
        tree: with two children its left subtree is grafted under the leftmost node of its
        right subtree, which then takes its place; with one child that child takes its place;
        with none it is cut off. Exactly that item is removed and the order is kept. */
    method Delete(item: Player)
      requires Valid()
      modifies this
      ensures Valid()
      ensures Contents() ==
        if item in old(Contents()) then RemoveAt(old(Contents()), IndexOf(old(Contents()), item))
        else old(Contents())
    {
      var current := FindNode(item);
      if current.None? {
        return;
      }
      var n := current.value;
      PlugElems(n.node, n.path);
      RemoveNode(Elems(root), Pre(n.path), n.node, Post(n.path));
      root := Unlink(root, n);
    }

    /** `getByRank(start, end)`: a breadth-first walk from the root that keeps the nodes whose
        rank lies in `[start, end]` and skips subtrees that cannot hold one, then a sort by
        rank. The result is every item whose rank lies in `[start, end]`, with its rank,
        ascending. */
    method GetByRank(start: int, end: int) returns (r: seq<RankedPlayer>)
      requires Valid()
      ensures r == RankWindow(Contents(), start, end)
    {
      var limit := end - start + 1;
      if root.Nil? || limit <= 0 {
        return [];
      }
      var items := CollectWindow(root, start, end);
      RankCompareIsComparator();
      SortBySorted(items, RankCompare);
      WindowSorted(root, 0, start, end);
      SortedUnique(SortBy(items, RankCompare), Window(root, 0, start, end), RankCompare);
      WindowIsRankWindow(root, start, end);
      r := SortBy(items, RankCompare);
    }
  }
}
