// The DOM nodes of html_parser.c and build_dom, which turns the token
// sequence into a tree with an explicit stack of open elements.

module Dom {
  import opened TokenSpec
  import DomSpec

  /** A DOM node: an element or a text node, with a growable array of children.
      Tree is the subtree the node stands for and Repr the objects it is made
      of; both are kept up to date for every node that has been closed. */
  class Node {
    var name: string
    var children: array<Node?>
    var childCount: nat
    var childCapacity: nat
    var isText: bool
    ghost var Tree: DomSpec.Tree
    ghost var Repr: set<object>

    /** The count and capacity agree with the child array. */
    ghost predicate Shape()
      reads this
    {
      0 < childCapacity == children.Length && childCount <= childCapacity
    }

    /** The children stored so far, in order. */
    ghost function Kids(): seq<Node?>
      reads this, children
      requires Shape()
    {
      children[..childCount]
    }

    /** The node and all its descendants agree with Tree: a text node has no
        children, and an element's children stand for Tree's children and
        share no object, so no node has two parents. */
    ghost predicate Valid()
      reads this, Repr
      decreases Repr
    {
      && this in Repr && children in Repr && Shape()
      && (isText ==> childCount == 0 && Tree == DomSpec.TextNode(name))
      && (!isText ==>
            && Tree.Element? && Tree.tag == name && |Tree.kids| == childCount
            && (forall i :: 0 <= i < childCount ==>
                 && children[i] != null && children[i] in Repr
                 && children[i].Repr <= Repr && this !in children[i].Repr
                 && children[i].Valid() && children[i].Tree == Tree.kids[i])
            && forall i, j :: 0 <= i < j < childCount ==> children[i].Repr !! children[j].Repr)
    }

    /** create_node: a node with no children and room for four. */
    constructor (name: string, isText: bool)
      ensures Valid() && fresh(Repr) && Repr == {this, children}
      ensures this.name == name && this.isText == isText
      ensures childCount == 0 && childCapacity == 4
      ensures Tree == if isText then DomSpec.TextNode(name) else DomSpec.Element(name, [])
    {
      this.name := name;
      childCount := 0;
      childCapacity := 4;
      children := new Node?[4];
      this.isText := isText;
      Tree := if isText then DomSpec.TextNode(name) else DomSpec.Element(name, []);
      Repr := {this, children};
    }

    /** add_child: stores child after the existing children, first doubling
        the capacity (a reallocation that keeps the children) when full. */
    method AddChild(child: Node)
      requires Shape()
      modifies this, children
      ensures Shape()
      ensures Kids() == old(Kids()) + [child]
      ensures childCapacity == if old(childCount) >= old(childCapacity) then 2 * old(childCapacity) else old(childCapacity)
      ensures children == old(children) || fresh(children)
      ensures name == old(name) && isText == old(isText) && Tree == old(Tree) && Repr == old(Repr)
    {
      if childCount >= childCapacity {
        childCapacity := childCapacity * 2;
        var grown := new Node?[childCapacity];
        forall i | 0 <= i < childCount {
          grown[i] := children[i];
        }
        children := grown;
      }
      children[childCount] := child;
      childCount := childCount + 1;
    }
  }

  // -----------------------------------------------------------------------
  // build_dom

  /** The stack entries and their child arrays. */
  ghost function OpenObjects(stack: seq<Node>): set<object>
    reads set j | 0 <= j < |stack| :: stack[j]
  {
    (set j | 0 <= j < |stack| :: stack[j] as object) + (set j | 0 <= j < |stack| :: stack[j].children as object)
  }

  /** The objects of the subtrees ks. */
  ghost function Union(ks: seq<Node>): set<object>
    reads set k | 0 <= k < |ks| :: ks[k]
  {
    if ks == [] then {} else Union(ks[..|ks| - 1]) + ks[|ks| - 1].Repr
  }

  /** The objects of finished subtrees bounded by done stay within done. */
  lemma UnionBounds(ks: seq<Node>, done: set<object>)
    requires forall k :: 0 <= k < |ks| ==> ks[k].Repr <= done
    ensures Union(ks) <= done
    ensures forall k :: 0 <= k < |ks| ==> ks[k].Repr <= Union(ks)
  {
    if ks != [] {
      UnionBounds(ks[..|ks| - 1], done);
    }
  }

  /** A union of subtrees each apart from x is apart from x. */
  lemma UnionApart(ks: seq<Node>, x: set<object>)
    requires forall k :: 0 <= k < |ks| ==> ks[k].Repr !! x
    ensures Union(ks) !! x
  {
    if ks != [] {
      UnionApart(ks[..|ks| - 1], x);
    }
  }

  /** The finished children of all open elements, bottom element first. */
  ghost function Gathered(kids: seq<seq<Node>>): seq<Node>
  {
    if kids == [] then [] else Gathered(kids[..|kids| - 1]) + kids[|kids| - 1]
  }

  /** Gathered over one more open element. */
  lemma GatheredSnoc(kids: seq<seq<Node>>, ks: seq<Node>)
    ensures Gathered(kids + [ks]) == Gathered(kids) + ks
  {
    assert (kids + [ks])[..|kids|] == kids;
  }

  /** A newly opened element has no finished children yet. */
  lemma GatheredOpen(kids: seq<seq<Node>>)
    ensures Gathered(kids + [[]]) == Gathered(kids)
  {
    GatheredSnoc(kids, []);
    assert Gathered(kids) + [] == Gathered(kids);
  }

  /** A node added to the top element comes last among the finished children. */
  lemma GatheredAdd(kids: seq<seq<Node>>, c: Node)
    requires |kids| > 0
    ensures
      var n := |kids|;
      Gathered(kids[..n - 1] + [kids[n - 1] + [c]]) == Gathered(kids) + [c]
  {
    var n := |kids|;
    GatheredSnoc(kids[..n - 1], kids[n - 1] + [c]);
  }

  /** The top element c, closed into the one below, comes last among the
      finished children; its own children leave them. */
  lemma GatheredPop(kids: seq<seq<Node>>, c: Node)
    requires |kids| > 1
    ensures
      var n := |kids|;
      Gathered(kids[..n - 2] + [kids[n - 2] + [c]]) == Gathered(kids[..n - 1]) + [c]
  {
    var n := |kids|;
    assert kids[..n - 1][..n - 2] == kids[..n - 2];
    GatheredSnoc(kids[..n - 2], kids[n - 2] + [c]);
  }

  /** The subtrees ns are made of objects in done, and no object belongs to
      two of them. */
  ghost predicate Separate(ns: seq<Node>, done: set<object>)
    reads done
  {
    && (forall i :: 0 <= i < |ns| ==> ns[i] in done && ns[i].Repr <= done)
    && forall i, j :: 0 <= i < j < |ns| ==> ns[i].Repr !! ns[j].Repr
  }

  /** Both parts of separate subtrees are separate, and apart from each other. */
  lemma SeparateSplit(a: seq<Node>, b: seq<Node>, done: set<object>)
    requires Separate(a + b, done)
    ensures Separate(a, done) && Separate(b, done)
    ensures forall i, j :: 0 <= i < |a| && 0 <= j < |b| ==> a[i].Repr !! b[j].Repr
  {
    var ab := a + b;
    forall i, j | 0 <= i < |a| && 0 <= j < |b|
      ensures a[i].Repr !! b[j].Repr
    {
      assert ab[i] == a[i] && ab[|a| + j] == b[j];
    }
    forall i, j | 0 <= i < j < |b|
      ensures b[i].Repr !! b[j].Repr
    {
      assert ab[|a| + i] == b[i] && ab[|a| + j] == b[j];
    }
    forall i | 0 <= i < |b|
      ensures b[i] in done && b[i].Repr <= done
    {
      assert ab[|a| + i] == b[i];
    }
    forall i, j | 0 <= i < j < |a|
      ensures a[i].Repr !! a[j].Repr
    {
      assert ab[i] == a[i] && ab[j] == a[j];
    }
    forall i | 0 <= i < |a|
      ensures a[i] in done && a[i].Repr <= done
    {
      assert ab[i] == a[i];
    }
  }

  /** A subtree c apart from the separate subtrees ns joins them; done grows
      to done'. */
  lemma SeparateAdd(ns: seq<Node>, done: set<object>, c: Node, done': set<object>)
    requires Separate(ns, done) && done <= done'
    requires c in done' && c.Repr <= done'
    requires forall i :: 0 <= i < |ns| ==> ns[i].Repr !! c.Repr
    ensures Separate(ns + [c], done')
  {
    var ns' := ns + [c];
    forall i, j | 0 <= i < j < |ns'|
      ensures ns'[i].Repr !! ns'[j].Repr
    {
      assert ns'[i] == ns[i];
    }
  }

  /** The finished children kids[k] of each open element are valid nodes
      made of objects in done and standing for the frames' subtrees. */
  ghost predicate Finished(kids: seq<seq<Node>>, fs: seq<DomSpec.Frame>, done: set<object>)
    reads done
  {
    && |kids| == |fs|
    && (forall k :: 0 <= k < |kids| ==> |kids[k]| == |fs[k].kids|)
    && forall k, i :: 0 <= k < |kids| && 0 <= i < |kids[k]| ==>
         && kids[k][i] in done && kids[k][i].Repr <= done
         && kids[k][i].Valid() && kids[k][i].Tree == fs[k].kids[i]
  }

  /** Opening a new element keeps the finished children as they are. */
  lemma FinishedPush(kids: seq<seq<Node>>, fs: seq<DomSpec.Frame>, done: set<object>, name: string)
    requires Finished(kids, fs, done)
    ensures Finished(kids + [[]], fs + [DomSpec.Frame(name, [])], done)
  {
    var kids': seq<seq<Node>> := kids + [[]];
    var fs' := fs + [DomSpec.Frame(name, [])];
    forall k, i | 0 <= k < |kids'| && 0 <= i < |kids'[k]|
      ensures kids'[k][i] in done && kids'[k][i].Repr <= done
      ensures kids'[k][i].Valid() && kids'[k][i].Tree == fs'[k].kids[i]
    {
      assert k < |kids| && kids'[k] == kids[k] && fs'[k] == fs[k];
    }
  }

  /** Dropping the top frame keeps the finished children below it. */
  lemma FinishedPop(kids: seq<seq<Node>>, fs: seq<DomSpec.Frame>, done: set<object>)
    requires Finished(kids, fs, done) && |kids| > 0
    ensures Finished(kids[..|kids| - 1], fs[..|fs| - 1], done)
  {
  }

  /** A finished node c standing for t joins the last open element's
      children; done grows to done'. */
  lemma FinishedAdd(kids: seq<seq<Node>>, fs: seq<DomSpec.Frame>, done: set<object>, c: Node, t: DomSpec.Tree, done': set<object>)
    requires Finished(kids, fs, done) && |kids| > 0
    requires done <= done' && c in done' && c.Repr <= done' && c.Valid() && c.Tree == t
    ensures
      var n := |kids|;
      Finished(kids[..n - 1] + [kids[n - 1] + [c]], fs[..n - 1] + [DomSpec.Frame(fs[n - 1].tag, fs[n - 1].kids + [t])], done')
  {
    var n := |kids|;
    var kids': seq<seq<Node>> := kids[..n - 1] + [kids[n - 1] + [c]];
    var fs' := fs[..n - 1] + [DomSpec.Frame(fs[n - 1].tag, fs[n - 1].kids + [t])];
    forall k, i | 0 <= k < |kids'| && 0 <= i < |kids'[k]|
      ensures kids'[k][i] in done' && kids'[k][i].Repr <= done'
      ensures kids'[k][i].Valid() && kids'[k][i].Tree == fs'[k].kids[i]
    {
      if k < n - 1 || i < |kids[k]| {
        assert kids'[k][i] == kids[k][i] && fs'[k].kids[i] == fs[k].kids[i];
      }
    }
  }

  /** An open element standing for the frame f: its finished children ks
      first, then the element above it, if any. */
  ghost predicate OpenAt(s: Node, f: DomSpec.Frame, ks: seq<Node>, above: Node?)
    reads s, s.children
  {
    && s.Shape() && !s.isText && s.name == f.tag
    && s.childCount == |ks| + (if above == null then 0 else 1)
    && (forall i :: 0 <= i < |ks| ==> s.children[i] == ks[i])
    && (above != null ==> s.children[|ks|] == above)
  }

  /** No node, and no child array, is on the stack twice. */
  ghost predicate Distinct(stack: seq<Node>)
    reads set j | 0 <= j < |stack| :: stack[j]
  {
    forall j, k :: 0 <= j < k < |stack| ==> stack[j] != stack[k] && stack[j].children != stack[k].children
  }

  /** Every entry below the top of the stack is open and has the entry
      above it as its last child. */
  ghost predicate Below(stack: seq<Node>, fs: seq<DomSpec.Frame>, kids: seq<seq<Node>>)
    reads set j | 0 <= j < |stack| - 1 :: stack[j]
    reads set j | 0 <= j < |stack| - 1 :: stack[j].children
  {
    && |stack| == |fs| == |kids|
    && forall j :: 0 <= j < |stack| - 1 ==> OpenAt(stack[j], fs[j], kids[j], stack[j + 1])
  }

  /** The stack holds distinct open elements, one per frame, each the last
      child of the one below. */
  ghost predicate Linked(stack: seq<Node>, fs: seq<DomSpec.Frame>, kids: seq<seq<Node>>)
    reads OpenObjects(stack)
  {
    && Distinct(stack)
    && Below(stack, fs, kids)
    && (|stack| > 0 ==> OpenAt(stack[|stack| - 1], fs[|stack| - 1], kids[|stack| - 1], null))
  }

  /** Pushing node, already the last child of the top, extends Below. */
  lemma BelowPush(stack: seq<Node>, fs: seq<DomSpec.Frame>, kids: seq<seq<Node>>, node: Node, f: DomSpec.Frame)
    requires Below(stack, fs, kids) && |stack| > 0
    requires OpenAt(stack[|stack| - 1], fs[|stack| - 1], kids[|stack| - 1], node)
    ensures Below(stack + [node], fs + [f], kids + [[]])
  {
    var stack', fs', kids' := stack + [node], fs + [f], kids + [[]];
    forall j | 0 <= j < |stack'| - 1
      ensures OpenAt(stack'[j], fs'[j], kids'[j], stack'[j + 1])
    {
      if j < |stack| - 1 {
        assert OpenAt(stack[j], fs[j], kids[j], stack[j + 1]);
      }
    }
  }

  /** Below does not depend on the top frame or the top's children. */
  lemma BelowRetop(stack: seq<Node>, fs: seq<DomSpec.Frame>, kids: seq<seq<Node>>, f: DomSpec.Frame, ks: seq<Node>)
    requires Below(stack, fs, kids) && |stack| > 0
    ensures Below(stack, fs[..|fs| - 1] + [f], kids[..|kids| - 1] + [ks])
  {
    var fs', kids' := fs[..|fs| - 1] + [f], kids[..|kids| - 1] + [ks];
    forall j | 0 <= j < |stack| - 1
      ensures OpenAt(stack[j], fs'[j], kids'[j], stack[j + 1])
    {
      assert OpenAt(stack[j], fs[j], kids[j], stack[j + 1]);
    }
  }

  /** No open element, nor its child array, belongs to a finished subtree. */
  ghost predicate Apart(stack: seq<Node>, done: set<object>)
    reads set j | 0 <= j < |stack| :: stack[j]
  {
    forall j :: 0 <= j < |stack| ==> stack[j] !in done && stack[j].children !in done
  }

  /** The objects made so far, objs, hold the finished subtrees' objects and
      the stack entries with their child arrays. */
  ghost predicate Within(stack: seq<Node>, done: set<object>, objs: set<object>)
    reads set j | 0 <= j < |stack| :: stack[j]
  {
    && done <= objs
    && forall j :: 0 <= j < |stack| ==> stack[j] in objs && stack[j].children in objs
  }

  /** The objects of a build in progress: the root, the stack of open
      elements, the nodes attached so far under each open element, and the
      objects of the finished subtrees and of the whole build. */
  datatype Snapshot = Snapshot(root: Node, stack: seq<Node>, kids: seq<seq<Node>>, done: set<object>, objs: set<object>)

  /** The heap during build_dom stands for the builder state b: the stack
      of open elements while it is open, the finished root once closed. */
  ghost predicate Building(root: Node, stack: seq<Node>, b: DomSpec.Builder, kids: seq<seq<Node>>, done: set<object>)
    reads root, root.Repr, OpenObjects(stack), done
  {
    && DomSpec.Wf(b)
    && Linked(stack, DomSpec.Frames(b), kids) && Finished(kids, DomSpec.Frames(b), done)
    && Apart(stack, done)
    && (b.Open? ==> stack[0] == root)
    && (b.Closed? ==> root.Valid() && root.Tree == b.root && root.Repr <= done)
  }

  /** A start tag: a new element becomes the last child of the current one
      and is pushed. */
  method PushElement(root: Node, stack: seq<Node>, ghost b: DomSpec.Builder, ghost kids: seq<seq<Node>>, ghost done: set<object>, ghost objs: set<object>, t: Token)
    returns (stack': seq<Node>, ghost kids': seq<seq<Node>>, ghost done': set<object>, ghost objs': set<object>)
    requires t.StartTag? && b.Open? && Building(root, stack, b, kids, done)
    requires Separate(Gathered(kids), done) && Within(stack, done, objs)
    modifies stack[|stack| - 1], stack[|stack| - 1].children
    ensures Building(root, stack', DomSpec.Step(b, t), kids', done')
    ensures Separate(Gathered(kids'), done') && done' == done
    ensures Within(stack', done', objs') && fresh(objs' - objs)
    ensures stack' == stack + [stack'[|stack|]] && fresh(stack'[|stack|]) && fresh(stack'[|stack|].children)
    ensures stack[|stack| - 1].Kids() == old(stack[|stack| - 1].Kids()) + [stack'[|stack|]]
  {
    var n := |stack|;
    var top := stack[n - 1];
    var node := new Node(t.name, false);
    top.AddChild(node);
    stack' := stack + [node];
    kids' := kids + [[]];
    done' := done;
    objs' := objs + {node, node.children, top.children};
    forall j | 0 <= j < n - 1
      ensures unchanged(stack[j]) && unchanged(old(stack[j].children))
    {
      assert old(stack[j] != top && stack[j].children != top.children);
    }
    ghost var g := Snapshot(root, stack, kids, done, objs);
    PushKeeps(g, b, t, node);
    assert Building(root, stack', DomSpec.Step(b, t), kids', done');
    TopKeepsObjects(g, node);
    GatheredOpen(kids);
  }

  /** Text: a new text node becomes the last child of the current element. */
  method AppendText(root: Node, stack: seq<Node>, ghost b: DomSpec.Builder, ghost kids: seq<seq<Node>>, ghost done: set<object>, ghost objs: set<object>, t: Token)
    returns (stack': seq<Node>, node: Node, ghost kids': seq<seq<Node>>, ghost done': set<object>, ghost objs': set<object>)
    requires t.Text? && b.Open? && Building(root, stack, b, kids, done)
    requires Separate(Gathered(kids), done) && Within(stack, done, objs)
    modifies stack[|stack| - 1], stack[|stack| - 1].children
    ensures Building(root, stack', DomSpec.Step(b, t), kids', done')
    ensures Separate(Gathered(kids'), done')
    ensures Within(stack', done', objs') && fresh(objs' - objs)
    ensures stack' == stack
    ensures fresh(node) && fresh(node.children) && node.isText && node.name == t.text
    ensures stack[|stack| - 1].Kids() == old(stack[|stack| - 1].Kids()) + [node]
    ensures done' == done + {node, node.children}
  {
    var n := |stack|;
    var top := stack[n - 1];
    node := new Node(t.text, true);
    top.AddChild(node);
    stack' := stack;
    kids' := kids[..n - 1] + [kids[n - 1] + [node]];
    done' := done + {node, node.children};
    objs' := objs + {node, node.children, top.children};
    forall j | 0 <= j < n - 1
      ensures unchanged(stack[j]) && unchanged(old(stack[j].children))
    {
      assert old(stack[j] != top && stack[j].children != top.children);
    }
    ghost var g := Snapshot(root, stack, kids, done, objs);
    TextKeeps(g, b, t, node);
    TopKeepsObjects(g, node);
    TextSeparate(kids, done, node);
  }

  /** A new text node, made of objects outside done, is apart from every
      finished subtree. */
  lemma TextSeparate(kids: seq<seq<Node>>, done: set<object>, node: Node)
    requires Separate(Gathered(kids), done) && |kids| > 0
    requires node !in done && node.children !in done && node.Repr == {node, node.children}
    ensures
      var n := |kids|;
      Separate(Gathered(kids[..n - 1] + [kids[n - 1] + [node]]), done + {node, node.children})
  {
    var n := |kids|;
    var ns := Gathered(kids);
    forall i | 0 <= i < |ns|
      ensures ns[i].Repr !! node.Repr
    {
      assert ns[i].Repr <= done;
    }
    SeparateAdd(ns, done, node, done + {node, node.children});
    GatheredAdd(kids, node);
  }

  /** Attaching a new node to the top element keeps the open elements
      distinct and apart from the finished subtrees, now with the new node
      among them, and none of them is the new node. */
  twostate lemma TopKeepsApart(g: Snapshot, new node: Node)
    requires |g.stack| > 0 && old(Distinct(g.stack) && Apart(g.stack, g.done))
    requires forall j :: 0 <= j < |g.stack| - 1 ==> unchanged(g.stack[j])
    requires fresh(node) && fresh(node.children) && node.children != g.stack[|g.stack| - 1].children
    requires g.stack[|g.stack| - 1].children == old(g.stack[|g.stack| - 1].children) || fresh(g.stack[|g.stack| - 1].children)
    ensures Distinct(g.stack) && Apart(g.stack, g.done + {node, node.children})
    ensures forall j :: 0 <= j < |g.stack| ==> g.stack[j] != node && g.stack[j].children != node.children
  {
    var stack, n := g.stack, |g.stack|;
    forall j, k | 0 <= j < k < n
      ensures stack[j] != stack[k] && stack[j].children != stack[k].children
    {
      assert old(allocated(stack[j]) && allocated(stack[j].children));
      assert old(stack[j] != stack[k] && stack[j].children != stack[k].children);
    }
    forall j | 0 <= j < n
      ensures stack[j] !in g.done + {node, node.children} && stack[j] != node && stack[j].children != node.children
    {
      assert old(allocated(stack[j]) && allocated(stack[j].children));
      assert old(stack[j] !in g.done && stack[j].children !in g.done);
    }
  }

  /** Attaching a new node to the top element leaves the finished subtrees
      separate, and every object of the build is made before or now. */
  twostate lemma TopKeepsObjects(g: Snapshot, new node: Node)
    requires |g.stack| > 0 && old(Separate(Gathered(g.kids), g.done) && Within(g.stack, g.done, g.objs))
    requires forall j :: 0 <= j < |g.stack| - 1 ==> unchanged(g.stack[j])
    requires unchanged(g.done) && fresh(node) && fresh(node.children)
    requires g.stack[|g.stack| - 1].children == old(g.stack[|g.stack| - 1].children) || fresh(g.stack[|g.stack| - 1].children)
    ensures Separate(Gathered(g.kids), g.done)
    ensures
      var objs' := g.objs + {node, node.children, g.stack[|g.stack| - 1].children};
      && Within(g.stack + [node], g.done, objs') && Within(g.stack, g.done + {node, node.children}, objs')
      && fresh(objs' - g.objs)
  {
    var ns := Gathered(g.kids);
    forall i | 0 <= i < |ns|
      ensures ns[i] in g.done && ns[i].Repr <= g.done
    {
      assert old(ns[i] in g.done && ns[i].Repr <= g.done);
    }
    forall i, j | 0 <= i < j < |ns|
      ensures ns[i].Repr !! ns[j].Repr
    {
      assert old(ns[i].Repr !! ns[j].Repr);
    }
  }

  /** The builder state after a start tag, given the heap after the new
      element was attached to the current one. */
  twostate lemma PushKeeps(g: Snapshot, new b: DomSpec.Builder, new t: Token, new node: Node)
    requires t.StartTag? && b.Open? && old(Building(g.root, g.stack, b, g.kids, g.done))
    requires forall j :: 0 <= j < |g.stack| - 1 ==> unchanged(g.stack[j]) && unchanged(old(g.stack[j].children))
    requires unchanged(g.done)
    requires fresh(node) && fresh(node.children) && OpenAt(node, DomSpec.Frame(t.name, []), [], null)
    requires node.children != g.stack[|g.stack| - 1].children
    requires
      var top := g.stack[|g.stack| - 1];
      && top.Shape() && top.name == old(top.name) && top.isText == old(top.isText)
      && top.Kids() == old(top.Kids()) + [node]
      && (top.children == old(top.children) || fresh(top.children))
    ensures Building(g.root, g.stack + [node], DomSpec.Step(b, t), g.kids + [[]], g.done)
  {
    var stack, kids, done := g.stack, g.kids, g.done;
    var n := |stack|;
    var top := stack[n - 1];
    var fs := b.frames;
    assert Below(stack, fs, kids) by {
      assert old(Below(stack, fs, kids));
    }
    assert Finished(kids, fs, done) by {
      assert old(Finished(kids, fs, done));
    }
    assert OpenAt(top, fs[n - 1], kids[n - 1], node) by {
      assert old(OpenAt(top, fs[n - 1], kids[n - 1], null));
      assert top.children[..top.childCount] == old(top.children[..top.childCount]) + [node];
    }
    BelowPush(stack, fs, kids, node, DomSpec.Frame(t.name, []));
    FinishedPush(kids, fs, done, t.name);
    TopKeepsApart(g, node);
    var stack' := stack + [node];
    assert forall j, k :: 0 <= j < k < n + 1 ==> stack'[j] != stack'[k] && stack'[j].children != stack'[k].children;
  }

  /** The builder state after text, given the heap after the text node
      was attached to the current element. */
  twostate lemma TextKeeps(g: Snapshot, new b: DomSpec.Builder, new t: Token, new node: Node)
    requires t.Text? && b.Open? && old(Building(g.root, g.stack, b, g.kids, g.done))
    requires forall j :: 0 <= j < |g.stack| - 1 ==> unchanged(g.stack[j]) && unchanged(old(g.stack[j].children))
    requires unchanged(g.done)
    requires fresh(node) && fresh(node.children) && node.Valid()
    requires node.Tree == DomSpec.TextNode(t.text) && node.Repr == {node, node.children}
    requires node.children != g.stack[|g.stack| - 1].children
    requires
      var top := g.stack[|g.stack| - 1];
      && top.Shape() && top.name == old(top.name) && top.isText == old(top.isText)
      && top.Kids() == old(top.Kids()) + [node]
      && (top.children == old(top.children) || fresh(top.children))
    ensures
      var n := |g.stack|;
      Building(g.root, g.stack, DomSpec.Step(b, t), g.kids[..n - 1] + [g.kids[n - 1] + [node]], g.done + {node, node.children})
  {
    var stack, kids, done := g.stack, g.kids, g.done;
    var n := |stack|;
    var top := stack[n - 1];
    var fs := b.frames;
    var done' := done + {node, node.children};
    assert Below(stack, fs, kids) by {
      assert old(Below(stack, fs, kids));
    }
    assert Finished(kids, fs, done) by {
      assert old(Finished(kids, fs, done));
    }
    assert OpenAt(top, fs[n - 1], kids[n - 1] + [node], null) by {
      assert old(OpenAt(top, fs[n - 1], kids[n - 1], null));
      assert top.children[..top.childCount] == old(top.children[..top.childCount]) + [node];
    }
    var f := DomSpec.Frame(fs[n - 1].tag, fs[n - 1].kids + [DomSpec.TextNode(t.text)]);
    BelowRetop(stack, fs, kids, f, kids[n - 1] + [node]);
    FinishedAdd(kids, fs, done, node, DomSpec.TextNode(t.text), done');
    TopKeepsApart(g, node);
  }

  /** The stack without its top stands for the frames after an end tag, the
      popped element being the last child of the new top. */
  lemma LinkedPop(stack: seq<Node>, fs: seq<DomSpec.Frame>, kids: seq<seq<Node>>, t: DomSpec.Tree)
    requires Linked(stack, fs, kids) && |stack| > 1
    ensures
      var n := |stack|;
      Linked(stack[..n - 1], fs[..n - 2] + [DomSpec.Frame(fs[n - 2].tag, fs[n - 2].kids + [t])], kids[..n - 2] + [kids[n - 2] + [stack[n - 1]]])
  {
    var n := |stack|;
    var stack' := stack[..n - 1];
    var fs' := fs[..n - 2] + [DomSpec.Frame(fs[n - 2].tag, fs[n - 2].kids + [t])];
    var kids': seq<seq<Node>> := kids[..n - 2] + [kids[n - 2] + [stack[n - 1]]];
    forall j | 0 <= j < n - 2
      ensures OpenAt(stack'[j], fs'[j], kids'[j], stack'[j + 1])
    {
      assert OpenAt(stack[j], fs[j], kids[j], stack[j + 1]);
    }
    assert OpenAt(stack'[n - 2], fs'[n - 2], kids'[n - 2], null) by {
      assert OpenAt(stack[n - 2], fs[n - 2], kids[n - 2], stack[n - 1]);
    }
  }

  /** The open element s, whose children are the finished ks, is finished:
      its Tree and Repr become those of the subtree it stands for. */
  ghost method Finish(s: Node, f: DomSpec.Frame, ks: seq<Node>, done: set<object>)
    requires OpenAt(s, f, ks, null) && s !in done && |ks| == |f.kids|
    requires forall i :: 0 <= i < |ks| ==> ks[i] in done && ks[i].Repr <= done && ks[i].Valid() && ks[i].Tree == f.kids[i]
    requires forall i, j :: 0 <= i < j < |ks| ==> ks[i].Repr !! ks[j].Repr
    modifies s`Tree, s`Repr
    ensures s.Valid() && s.Tree == DomSpec.Element(f.tag, f.kids)
    ensures s.Repr == {s, s.children} + Union(ks) && s.Repr <= done + {s, s.children}
  {
    UnionBounds(ks, done);
    s.Tree := DomSpec.Element(f.tag, f.kids);
    s.Repr := {s, s.children} + Union(ks);
    forall i | 0 <= i < s.childCount
      ensures s.children[i] != null && s.children[i] in s.Repr && s.children[i].Repr <= s.Repr
      ensures s !in s.children[i].Repr && s.children[i].Valid() && s.children[i].Tree == s.Tree.kids[i]
    {
      assert s.children[i] == ks[i];
    }
    forall i, j | 0 <= i < j < s.childCount
      ensures s.children[i].Repr !! s.children[j].Repr
    {
      assert s.children[i] == ks[i] && s.children[j] == ks[j];
    }
  }

  /** An end tag: the current element is finished and popped. */
  ghost method CloseTop(root: Node, stack: seq<Node>, b: DomSpec.Builder, kids: seq<seq<Node>>, done: set<object>, objs: set<object>, t: Token)
    returns (stack': seq<Node>, kids': seq<seq<Node>>, done': set<object>)
    requires t.EndTag? && b.Open? && Building(root, stack, b, kids, done)
    requires Separate(Gathered(kids), done) && Within(stack, done, objs)
    modifies stack[|stack| - 1]
    ensures Building(root, stack', DomSpec.Step(b, t), kids', done')
    ensures Separate(Gathered(kids'), done') && Within(stack', done', objs)
    ensures stack' == stack[..|stack| - 1]
    ensures done' == done + {stack[|stack| - 1], stack[|stack| - 1].children}
  {
    var n := |stack|;
    var s := stack[n - 1];
    var fs := b.frames;
    var tree := DomSpec.Element(fs[n - 1].tag, fs[n - 1].kids);
    stack' := stack[..n - 1];
    done' := done + {s, s.children};
    assert OpenAt(s, fs[n - 1], kids[n - 1], null);
    var ks := kids[n - 1];
    forall i | 0 <= i < |ks|
      ensures ks[i] in done && ks[i].Repr <= done && ks[i].Valid() && ks[i].Tree == fs[n - 1].kids[i]
    {
      assert ks[i] == kids[n - 1][i];
    }
    GatheredLast(kids, done);
    ghost var g := Snapshot(root, stack, kids, done, objs);
    if n > 1 {
      kids' := kids[..n - 2] + [kids[n - 2] + [s]];
      var fs' := fs[..n - 2] + [DomSpec.Frame(fs[n - 2].tag, fs[n - 2].kids + [tree])];
      PopReady(g, fs, tree);
      Finish(s, fs[n - 1], ks, done);
      assert DomSpec.Step(b, t) == DomSpec.Open(fs');
      CloseKeeps(g, fs', fs[..n - 1], tree);
      assert Building(root, stack', DomSpec.Step(b, t), kids', done');
    } else {
      kids' := [];
      Finish(s, fs[n - 1], ks, done);
    }
    CloseKeepsObjects(g);
  }

  /** Closing the top element s keeps the finished subtrees separate, with s
      now among them, and every object of the build made before. */
  twostate lemma CloseKeepsObjects(g: Snapshot)
    requires |g.stack| > 0 && |g.kids| == |g.stack|
    requires old(Separate(Gathered(g.kids), g.done) && Within(g.stack, g.done, g.objs))
    requires forall j :: 0 <= j < |g.stack| - 1 ==> unchanged(g.stack[j])
    requires unchanged(g.done)
    requires
      var s := g.stack[|g.stack| - 1];
      && s !in g.done && s.children !in g.done && s.children == old(s.children)
      && s.Repr == {s, s.children} + Union(g.kids[|g.kids| - 1])
    ensures
      var n, s := |g.stack|, g.stack[|g.stack| - 1];
      && Within(g.stack[..n - 1], g.done + {s, s.children}, g.objs)
      && (n > 1 ==> Separate(Gathered(g.kids[..n - 2] + [g.kids[n - 2] + [s]]), g.done + {s, s.children}))
  {
    var n, s := |g.stack|, g.stack[|g.stack| - 1];
    var ns := Gathered(g.kids);
    forall i | 0 <= i < |ns|
      ensures ns[i] in g.done && ns[i].Repr <= g.done
    {
      assert old(ns[i] in g.done && ns[i].Repr <= g.done);
    }
    forall i, j | 0 <= i < j < |ns|
      ensures ns[i].Repr !! ns[j].Repr
    {
      assert old(ns[i].Repr !! ns[j].Repr);
    }
    if n > 1 {
      CloseSeparate(g.kids, g.done, s);
    }
    forall j | 0 <= j < n - 1
      ensures g.stack[j] in g.objs && g.stack[j].children in g.objs
    {
      assert old(g.stack[j] in g.objs && g.stack[j].children in g.objs);
    }
    assert old(s in g.objs && s.children in g.objs);
  }

  /** The finished children of the top element are separate, and so are
      those of the elements below it. */
  lemma GatheredLast(kids: seq<seq<Node>>, done: set<object>)
    requires Separate(Gathered(kids), done) && |kids| > 0
    ensures Separate(kids[|kids| - 1], done) && Separate(Gathered(kids[..|kids| - 1]), done)
  {
    SeparateSplit(Gathered(kids[..|kids| - 1]), kids[|kids| - 1], done);
  }

  /** The closed top element s, made of its finished children and of objects
      outside done, joins the finished children of the element below it. */
  lemma CloseSeparate(kids: seq<seq<Node>>, done: set<object>, s: Node)
    requires Separate(Gathered(kids), done) && |kids| > 1
    requires s !in done && s.children !in done
    requires s.Repr == {s, s.children} + Union(kids[|kids| - 1])
    ensures
      var n := |kids|;
      Separate(Gathered(kids[..n - 2] + [kids[n - 2] + [s]]), done + {s, s.children})
  {
    var n := |kids|;
    var below, ks := Gathered(kids[..n - 1]), kids[n - 1];
    SeparateSplit(below, ks, done);
    forall i | 0 <= i < |below|
      ensures below[i].Repr !! s.Repr
    {
      UnionApart(ks, below[i].Repr);
    }
    UnionBounds(ks, done);
    SeparateAdd(below, done, s, done + {s, s.children});
    GatheredPop(kids, s);
  }

  /** What an end tag leaves of the snapshot g when the top of its stack is
      popped and becomes the last child of the new top: fs are the new
      frames and fs0 the frames below the popped one. */
  ghost predicate Popping(g: Snapshot, fs: seq<DomSpec.Frame>, fs0: seq<DomSpec.Frame>)
    reads OpenObjects(g.stack), g.done
  {
    var n := |g.stack|;
    && n > 1 && |g.kids| == n && |fs0| == n - 1
    && var s := g.stack[n - 1];
    && Linked(g.stack[..n - 1], fs, g.kids[..n - 2] + [g.kids[n - 2] + [s]])
    && Finished(g.kids[..n - 1], fs0, g.done) && g.stack[0] == g.root
    && s !in g.done && s.children !in g.done
    && Apart(g.stack[..n - 1], g.done + {s, s.children})
  }

  /** Before the popped element is finished, the snapshot is ready for the pop. */
  lemma PopReady(g: Snapshot, fs: seq<DomSpec.Frame>, tree: DomSpec.Tree)
    requires Building(g.root, g.stack, DomSpec.Open(fs), g.kids, g.done) && |g.stack| > 1
    requires tree == DomSpec.Element(fs[|fs| - 1].tag, fs[|fs| - 1].kids)
    ensures
      var n := |g.stack|;
      Popping(g, fs[..n - 2] + [DomSpec.Frame(fs[n - 2].tag, fs[n - 2].kids + [tree])], fs[..n - 1])
  {
    var n := |g.stack|;
    var stack, s := g.stack, g.stack[n - 1];
    var stack' := stack[..n - 1];
    LinkedPop(stack, fs, g.kids, tree);
    FinishedPop(g.kids, fs, g.done);
    forall j | 0 <= j < n - 1
      ensures stack'[j] !in g.done + {s, s.children} && stack'[j].children !in g.done + {s, s.children}
    {
      assert stack[j] != s && stack[j].children != s.children;
    }
  }

  /** The builder state after an end tag that closed s, an element that
      was the last child of the new top, given the heap after s was finished. */
  twostate lemma CloseKeeps(g: Snapshot, new fs: seq<DomSpec.Frame>, new fs0: seq<DomSpec.Frame>, new tree: DomSpec.Tree)
    requires old(Popping(g, fs, fs0)) && 0 < |fs0|
    requires fs == fs0[..|fs0| - 1] + [DomSpec.Frame(fs0[|fs0| - 1].tag, fs0[|fs0| - 1].kids + [tree])]
    requires forall j :: 0 <= j < |g.stack| - 1 ==> unchanged(g.stack[j]) && unchanged(old(g.stack[j].children))
    requires unchanged(g.done)
    requires
      var s := g.stack[|g.stack| - 1];
      s.children == old(s.children) && s.Valid() && s.Tree == tree && s.Repr <= g.done + {s, s.children}
    ensures
      var n := |g.stack|;
      var s := g.stack[n - 1];
      Building(g.root, g.stack[..n - 1], DomSpec.Open(fs), g.kids[..n - 2] + [g.kids[n - 2] + [s]], g.done + {s, s.children})
  {
    var m := |g.stack| - 1;
    var stack, s, done := g.stack[..m], g.stack[m], g.done;
    var kids, kids' := g.kids[..m], g.kids[..m - 1] + [g.kids[m - 1] + [s]];
    assert old(Popping(g, fs, fs0));
    assert Below(stack, fs, kids') by {
      assert old(Below(stack, fs, kids'));
    }
    assert OpenAt(stack[m - 1], fs[m - 1], kids'[m - 1], null) by {
      assert old(OpenAt(stack[m - 1], fs[m - 1], kids'[m - 1], null));
    }
    assert Distinct(stack) by {
      assert old(Distinct(stack));
    }
    assert Finished(kids, fs0, done) by {
      assert old(Finished(kids, fs0, done));
    }
    assert Apart(stack, done + {s, s.children}) by {
      assert old(Apart(stack, done + {s, s.children}));
    }
    assert kids[..m - 1] + [kids[m - 1] + [s]] == kids';
    FinishedAdd(kids, fs0, done, s, tree, done + {s, s.children});
  }

  /** The top of the stack and its child array: what one token may change. */
  ghost function TopObjects(stack: seq<Node>): set<object>
    reads if stack == [] then {} else {stack[|stack| - 1]}
  {
    if stack == [] then {} else {stack[|stack| - 1], stack[|stack| - 1].children}
  }

  /** One iteration of build_dom's loop: the heap follows DomSpec.Step. */
  method Apply(root: Node, stack: seq<Node>, ghost b: DomSpec.Builder, ghost kids: seq<seq<Node>>, ghost done: set<object>, ghost objs: set<object>, t: Token)
    returns (stack': seq<Node>, ghost kids': seq<seq<Node>>, ghost done': set<object>, ghost objs': set<object>)
    requires Building(root, stack, b, kids, done) && (t.EndTag? || b.Open?)
    requires Separate(Gathered(kids), done) && Within(stack, done, objs)
    modifies TopObjects(stack)
    ensures Building(root, stack', DomSpec.Step(b, t), kids', done')
    ensures Separate(Gathered(kids'), done')
    ensures Within(stack', done', objs') && fresh(objs' - objs)
  {
    if t.StartTag? {
      stack', kids', done', objs' := PushElement(root, stack, b, kids, done, objs, t);
    } else if t.Text? {
      var node;
      stack', node, kids', done', objs' := AppendText(root, stack, b, kids, done, objs, t);
    } else if |stack| > 0 {
      stack' := stack[..|stack| - 1];
      ghost var rest;
      rest, kids', done' := CloseTop(root, stack, b, kids, done, objs, t);
      objs' := objs;
    } else {
      stack', kids', done', objs' := stack, kids, done, objs;
    }
  }

  /** Closes every element still open; only the ghost bookkeeping changes,
      since each already is the last child of the one below. */
  ghost method CloseAll(root: Node, stack: seq<Node>, b: DomSpec.Builder, kids: seq<seq<Node>>, done: set<object>, objs: set<object>)
    requires Building(root, stack, b, kids, done) && Separate(Gathered(kids), done) && Within(stack, done, objs)
    modifies OpenObjects(stack)
    ensures root.Valid() && root.Tree == DomSpec.Current(b) && root.Repr <= objs
    decreases |stack|
  {
    var n := |stack|;
    if n > 0 {
      var stack', kids', done' := CloseTop(root, stack, b, kids, done, objs, EndTag(""));
      DomSpec.EndKeepsTree(b, "");
      CloseAll(root, stack', DomSpec.Step(b, EndTag("")), kids', done', objs);
    }
  }

  /** build_dom: the node tree built from tokens with a stack of open
      elements, rooted at a "document" element. Every node of the tree is new. */
  method BuildDom(tokens: seq<Token>) returns (root: Node)
    requires DomSpec.NoUnderflow(1, tokens)
    ensures root.Valid() && root.Tree == DomSpec.BuildTree(tokens)
    ensures fresh(root.Repr)
  {
    var stack;
    ghost var b, kids, done, objs;
    root, stack, b, kids, done, objs := Consume(tokens);
    CloseAll(root, stack, b, kids, done, objs);
  }

  /** The start of build_dom: the stack holds only the "document" root. */
  method Begin() returns (root: Node, stack: seq<Node>, ghost b: DomSpec.Builder, ghost kids: seq<seq<Node>>, ghost done: set<object>, ghost objs: set<object>)
    ensures Building(root, stack, b, kids, done) && b == DomSpec.Init()
    ensures Separate(Gathered(kids), done) && Within(stack, done, objs) && fresh(objs)
  {
    root := new Node("document", false);
    stack := [root];
    b := DomSpec.Init();
    kids := [[]];
    done := {};
    objs := {root, root.children};
    assert OpenAt(root, DomSpec.Init().frames[0], [], null);
  }

  /** The loop of build_dom: every token in turn, from the stack holding
      only the "document" root. objs are the objects made so far. */
  method Consume(tokens: seq<Token>)
    returns (root: Node, stack: seq<Node>, ghost b: DomSpec.Builder, ghost kids: seq<seq<Node>>, ghost done: set<object>, ghost objs: set<object>)
    requires DomSpec.NoUnderflow(1, tokens)
    ensures Building(root, stack, b, kids, done) && b == DomSpec.Run(DomSpec.Init(), tokens)
    ensures Separate(Gathered(kids), done) && Within(stack, done, objs) && fresh(objs)
  {
    root, stack, b, kids, done, objs := Begin();
    ghost var trace := DomSpec.TraceSteps(tokens);
    var i := 0;
    while i < |tokens|
      invariant 0 <= i <= |tokens|
      invariant b == trace[i]
      // kept as one fact (== true), so that the verifier does not check it conjunct by conjunct
      invariant Building(root, stack, b, kids, done) == true
      invariant Separate(Gathered(kids), done) && Within(stack, done, objs) && fresh(objs)
    {
      assert TopObjects(stack) <= objs;
      stack, kids, done, objs := Apply(root, stack, b, kids, done, objs, tokens[i]);
      b := DomSpec.Step(b, tokens[i]);
      i := i + 1;
    }
  }
}
