// The tree that build_dom in html_parser.c builds, as a pure function of the
// token sequence, and the properties of that tree: its root, its pre-order,
// its size and the height of the stack of open elements.

module DomSpec {
  import opened TokenSpec

  /** A node of the document tree: an element with its children, or text. */
  datatype Tree = Element(tag: string, kids: seq<Tree>) | TextNode(text: string)

  /** An open element: its tag and the children it has had closed so far. */
  datatype Frame = Frame(tag: string, kids: seq<Tree>)

  /** The builder's state: the stack of open elements, bottom first, or the
      finished root once an end tag has popped the last open element. */
  datatype Builder = Open(frames: seq<Frame>) | Closed(root: Tree)

  /** The state before the first token: only the synthetic "document" root is open. */
  function Init(): (b: Builder)
    ensures Wf(b) && Height(b) == 1
  {
    Open([Frame("document", [])])
  }

  /** An open builder has at least one frame. */
  predicate Wf(b: Builder)
  {
    b.Open? ==> |b.frames| > 0
  }

  /** The number of entries on the stack of open elements. */
  function Height(b: Builder): nat
  {
    if b.Open? then |b.frames| else 0
  }

  /** The stack height after a token, starting from height h: a start tag
      pushes, an end tag pops unless the stack is empty, text leaves it. */
  function HeightAfter(h: nat, t: Token): (r: nat)
    ensures r == Max0(h + Count([t], (t: Token) => t.StartTag?) - Count([t], (t: Token) => t.EndTag?))
  {
    match t
    case StartTag(_) => h + 1
    case EndTag(_) => if h > 0 then h - 1 else 0
    case Text(_) => h
  }

  /** No start tag or text arrives while the stack is empty (it would be
      attached to the entry below the bottom of the stack). */
  predicate NoUnderflow(h: nat, ts: seq<Token>)
    decreases |ts|
  {
    ts == [] || ((ts[0].EndTag? || h > 0) && NoUnderflow(HeightAfter(h, ts[0]), ts[1..]))
  }

  /** One token of build_dom. A start tag opens an element above the current
      one; text becomes the last child of the current element; an end tag
      closes the current element, whatever its name, and makes it the last
      child of the element below, or the finished root when it was the last
      one open. */
  function Step(b: Builder, t: Token): (r: Builder)
    requires Wf(b) && (t.EndTag? || b.Open?)
    ensures Wf(r) && Height(r) == HeightAfter(Height(b), t)
  {
    match t
    case StartTag(name) =>
      Open(b.frames + [Frame(name, [])])
    case Text(x) =>
      var n := |b.frames|;
      Open(b.frames[..n - 1] + [Frame(b.frames[n - 1].tag, b.frames[n - 1].kids + [TextNode(x)])])
    case EndTag(_) =>
      if b.Closed? then b
      else
        var n := |b.frames|;
        var done := Element(b.frames[n - 1].tag, b.frames[n - 1].kids);
        if n == 1 then Closed(done)
        else Open(b.frames[..n - 2] + [Frame(b.frames[n - 2].tag, b.frames[n - 2].kids + [done])])
  }

  /** The open elements, bottom first; none once the root has been closed. */
  function Frames(b: Builder): (fs: seq<Frame>)
    ensures |fs| == Height(b)
  {
    if b.Open? then b.frames else []
  }

  /** The builder after the tokens ts, in order. Once the root is closed
      only end tags may follow, and they change nothing. */
  function Run(b: Builder, ts: seq<Token>): (r: Builder)
    requires Wf(b) && NoUnderflow(Height(b), ts)
    ensures Wf(r)
    ensures b.Closed? ==> r == b
    decreases |ts|
  {
    if ts == [] then b else Run(Step(b, ts[0]), ts[1..])
  }

  /** The builder states met taking the tokens ts one at a time from b:
      b first and Run(b, ts) last. */
  function Trace(b: Builder, ts: seq<Token>): (r: seq<Builder>)
    requires Wf(b) && NoUnderflow(Height(b), ts)
    ensures |r| == |ts| + 1 && r[0] == b
    decreases |ts|
  {
    [b] + if ts == [] then [] else Trace(Step(b, ts[0]), ts[1..])
  }

  /** bs holds the states met taking the tokens ts one at a time. */
  predicate Steps(bs: seq<Builder>, ts: seq<Token>)
  {
    && |bs| == |ts| + 1
    && forall i {:trigger ts[i]} :: 0 <= i < |ts| ==>
         Wf(bs[i]) && (ts[i].EndTag? || bs[i].Open?) && bs[i + 1] == Step(bs[i], ts[i])
  }

  /** The states build_dom's loop goes through, from Init() to the result
      of Run. */
  lemma TraceSteps(ts: seq<Token>) returns (bs: seq<Builder>)
    requires NoUnderflow(1, ts)
    ensures Steps(bs, ts) && bs[0] == Init() && bs[|ts|] == Run(Init(), ts)
  {
    bs := Trace(Init(), ts);
    TraceLast(Init(), ts);
    forall i | 0 <= i < |ts|
      ensures Wf(bs[i]) && (ts[i].EndTag? || bs[i].Open?) && bs[i + 1] == Step(bs[i], ts[i])
    {
      TraceNext(Init(), ts, i);
    }
  }

  /** The last state of the trace is the one Run reaches. */
  lemma {:induction false} TraceLast(b: Builder, ts: seq<Token>)
    requires Wf(b) && NoUnderflow(Height(b), ts)
    ensures Trace(b, ts)[|ts|] == Run(b, ts)
    decreases |ts|
  {
    if ts != [] {
      TraceLast(Step(b, ts[0]), ts[1..]);
    }
  }

  /** Each state of the trace is well formed, meets the next token with a
      non-empty stack unless it is an end tag, and steps to the next state. */
  lemma {:induction false} TraceNext(b: Builder, ts: seq<Token>, i: nat)
    requires Wf(b) && NoUnderflow(Height(b), ts) && i < |ts|
    ensures Wf(Trace(b, ts)[i]) && (ts[i].EndTag? || Trace(b, ts)[i].Open?)
    ensures Trace(b, ts)[i + 1] == Step(Trace(b, ts)[i], ts[i])
    decreases i
  {
    if i > 0 {
      TraceNext(Step(b, ts[0]), ts[1..], i - 1);
    }
  }

  /** The tree the open frames stand for: each open element already holds the
      element above it as its last child. */
  function Plug(frames: seq<Frame>): Tree
    requires |frames| > 0
    decreases |frames|
  {
    if |frames| == 1 then Element(frames[0].tag, frames[0].kids)
    else Element(frames[0].tag, frames[0].kids + [Plug(frames[1..])])
  }

  /** The tree reachable from the root at any point of the build. */
  function Current(b: Builder): Tree
    requires Wf(b)
  {
    if b.Open? then Plug(b.frames) else b.root
  }

  /** The tree build_dom returns for the tokens ts. A pre-order walk of it
      lists the root "document" element and then exactly the start tag and
      text tokens, in input order. */
  function BuildTree(ts: seq<Token>): (r: Tree)
    requires NoUnderflow(1, ts)
    ensures Preorder(r) == [StartTag("document")] + Created(ts)
  {
    CurrentPreorder(Run(Init(), ts));
    RunPreorder(Init(), ts);
    FramesPreorderSnoc([], Frame("document", []));
    assert Flat(Init()) == FramesPreorder([] + [Frame("document", [])]);
    Current(Run(Init(), ts))
  }

  // ---------------------------------------------------------------------
  // Pre-order

  /** The nodes of t in pre-order, an element written as its start tag. */
  function Preorder(t: Tree): seq<Token>
    decreases t, 1
  {
    match t
    case TextNode(x) => [Text(x)]
    case Element(tag, kids) => [StartTag(tag)] + PreorderAll(kids)
  }

  /** The pre-order of a sequence of sibling trees. */
  function PreorderAll(ts: seq<Tree>): seq<Token>
    decreases ts, 0
  {
    if ts == [] then [] else PreorderAll(ts[..|ts| - 1]) + Preorder(ts[|ts| - 1])
  }

  /** The pre-order of the open frames, bottom frame first. */
  function FramesPreorder(fs: seq<Frame>): seq<Token>
    decreases |fs|
  {
    if fs == [] then [] else FramesPreorder(fs[..|fs| - 1]) + ([StartTag(fs[|fs| - 1].tag)] + PreorderAll(fs[|fs| - 1].kids))
  }

  /** The pre-order of everything built so far. */
  function Flat(b: Builder): seq<Token>
  {
    if b.Open? then FramesPreorder(b.frames) else Preorder(b.root)
  }

  /** The tokens that create a node: every token but the end tags. */
  function Created(ts: seq<Token>): (r: seq<Token>)
    ensures forall i :: 0 <= i < |r| ==> !r[i].EndTag?
    decreases |ts|
  {
    if ts == [] then [] else (if ts[0].EndTag? then [] else [ts[0]]) + Created(ts[1..])
  }

  /** The number of tokens of ts that satisfy the kind test k. */
  function Count(ts: seq<Token>, k: Token -> bool): (n: nat)
    ensures n <= |ts|
    decreases |ts|
  {
    if ts == [] then 0 else (if k(ts[0]) then 1 else 0) + Count(ts[1..], k)
  }

  /** x, or 0 when x is negative. */
  function Max0(x: int): nat
  {
    if x > 0 then x else 0
  }

  // ---------------------------------------------------------------------
  // Lemmas

  /** A sibling added last adds its pre-order last. */
  lemma PreorderAllSnoc(ts: seq<Tree>, t: Tree)
    ensures PreorderAll(ts + [t]) == PreorderAll(ts) + Preorder(t)
  {
    assert (ts + [t])[..|ts|] == ts;
  }

  /** A frame added on top adds its pre-order last. */
  lemma FramesPreorderSnoc(fs: seq<Frame>, f: Frame)
    ensures FramesPreorder(fs + [f]) == FramesPreorder(fs) + ([StartTag(f.tag)] + PreorderAll(f.kids))
  {
    assert (fs + [f])[..|fs|] == fs;
  }

  /** FramesPreorder read from the bottom frame. */
  lemma {:induction false} FramesPreorderCons(fs: seq<Frame>)
    requires |fs| > 0
    ensures FramesPreorder(fs) == ([StartTag(fs[0].tag)] + PreorderAll(fs[0].kids)) + FramesPreorder(fs[1..])
    decreases |fs|
  {
    if |fs| > 1 {
      var n := |fs|;
      var head := [StartTag(fs[0].tag)] + PreorderAll(fs[0].kids);
      var last := [StartTag(fs[n - 1].tag)] + PreorderAll(fs[n - 1].kids);
      FramesPreorderCons(fs[..n - 1]);
      assert fs[..n - 1][0] == fs[0] && fs[..n - 1][1..] == fs[1..][..n - 2];
      assert FramesPreorder(fs[1..]) == FramesPreorder(fs[1..][..n - 2]) + last;
      Assoc(head, FramesPreorder(fs[1..][..n - 2]), last);
    } else {
      assert fs[..0] == [] && fs[1..] == [];
    }
  }

  /** The pre-order of the tree the open frames stand for is the frames' pre-order. */
  lemma {:induction false} PlugPreorder(fs: seq<Frame>)
    requires |fs| > 0
    ensures Preorder(Plug(fs)) == FramesPreorder(fs)
    decreases |fs|
  {
    FramesPreorderCons(fs);
    if |fs| == 1 {
      assert fs[1..] == [];
    } else {
      PlugPreorder(fs[1..]);
      PreorderAllSnoc(fs[0].kids, Plug(fs[1..]));
      Assoc([StartTag(fs[0].tag)], PreorderAll(fs[0].kids), Preorder(Plug(fs[1..])));
    }
  }

  /** The pre-order seen from the builder is the pre-order of the current tree. */
  lemma CurrentPreorder(b: Builder)
    requires Wf(b)
    ensures Preorder(Current(b)) == Flat(b)
  {
    if b.Open? {
      PlugPreorder(b.frames);
    }
  }

  /** A start tag or text token adds itself at the end of the pre-order; an
      end tag leaves the pre-order as it was. */
  lemma StepPreorder(b: Builder, t: Token)
    requires Wf(b) && (t.EndTag? || b.Open?)
    ensures Flat(Step(b, t)) == Flat(b) + (if t.EndTag? then [] else [t])
  {
    match t
    case StartTag(name) =>
      FramesPreorderSnoc(b.frames, Frame(name, []));
    case Text(x) =>
      TextPreorder(b.frames, x);
    case EndTag(_) =>
      if b.Open? {
        var n := |b.frames|;
        if n == 1 {
          assert b.frames == [] + [b.frames[0]];
          FramesPreorderSnoc([], b.frames[0]);
        } else {
          EndPreorder(b.frames);
        }
      }
  }

  /** Text added to the top frame adds its token last to the pre-order. */
  lemma TextPreorder(fs: seq<Frame>, x: string)
    requires |fs| > 0
    ensures FramesPreorder(fs[..|fs| - 1] + [Frame(fs[|fs| - 1].tag, fs[|fs| - 1].kids + [TextNode(x)])])
         == FramesPreorder(fs) + [Text(x)]
  {
    var n := |fs|;
    var top := fs[n - 1];
    var below := FramesPreorder(fs[..n - 1]);
    FramesPreorderSnoc(fs[..n - 1], Frame(top.tag, top.kids + [TextNode(x)]));
    PreorderAllSnoc(top.kids, TextNode(x));
    Assoc([StartTag(top.tag)], PreorderAll(top.kids), [Text(x)]);
    Assoc(below, [StartTag(top.tag)] + PreorderAll(top.kids), [Text(x)]);
  }

  /** A sequence of two or more splits before its last two elements. */
  lemma SplitLastTwo<T>(s: seq<T>)
    requires |s| > 1
    ensures s == s[..|s| - 2] + [s[|s| - 2]] + [s[|s| - 1]]
  {
  }

  /** Closing the top frame into the one below keeps the pre-order. */
  lemma EndPreorder(fs: seq<Frame>)
    requires |fs| > 1
    ensures FramesPreorder(fs[..|fs| - 2] + [Frame(fs[|fs| - 2].tag, fs[|fs| - 2].kids + [Element(fs[|fs| - 1].tag, fs[|fs| - 1].kids)])])
         == FramesPreorder(fs)
  {
    var n := |fs|;
    var top := fs[n - 1];
    var topPre := [StartTag(top.tag)] + PreorderAll(top.kids);
    var parent := fs[n - 2];
    var parentPre := [StartTag(parent.tag)] + PreorderAll(parent.kids);
    var below := FramesPreorder(fs[..n - 2]);
    var done := Element(top.tag, top.kids);
    SplitLastTwo(fs);
    FramesPreorderSnoc(fs[..n - 2] + [parent], top);
    FramesPreorderSnoc(fs[..n - 2], parent);
    FramesPreorderSnoc(fs[..n - 2], Frame(parent.tag, parent.kids + [done]));
    PreorderAllSnoc(parent.kids, done);
    Assoc([StartTag(parent.tag)], PreorderAll(parent.kids), topPre);
    Assoc(below, parentPre, topPre);
  }

  /** Created read one token at a time from the front. */
  lemma CreatedCons(ts: seq<Token>)
    requires ts != []
    ensures Created(ts) == (if ts[0].EndTag? then [] else [ts[0]]) + Created(ts[1..])
  {
  }

  /** Running the tokens ts appends exactly the node-creating tokens of ts,
      in order, to the pre-order. */
  lemma {:induction false} RunPreorder(b: Builder, ts: seq<Token>)
    requires Wf(b) && NoUnderflow(Height(b), ts)
    ensures Flat(Run(b, ts)) == Flat(b) + Created(ts)
    decreases |ts|
  {
    if ts == [] {
      assert Flat(b) + [] == Flat(b);
    } else {
      var made := if ts[0].EndTag? then [] else [ts[0]];
      StepPreorder(b, ts[0]);
      RunPreorder(Step(b, ts[0]), ts[1..]);
      CreatedCons(ts);
      Assoc(Flat(b), made, Created(ts[1..]));
    }
  }

  /** The root of the built tree is an element named "document". */
  lemma BuildTreeRoot(ts: seq<Token>)
    requires NoUnderflow(1, ts)
    ensures BuildTree(ts).Element? && BuildTree(ts).tag == "document"
  {
    assert Preorder(BuildTree(ts))[0] == StartTag("document");
  }

  /** The node-creating tokens are the start tags and the text tokens. */
  lemma CreatedCount(ts: seq<Token>)
    ensures |Created(ts)| == Count(ts, (t: Token) => t.StartTag?) + Count(ts, (t: Token) => t.Text?)
  {
  }

  /** The tree has one node for the root and one for each start tag and
      each text token. */
  lemma BuildTreeSize(ts: seq<Token>)
    requires NoUnderflow(1, ts)
    ensures |Preorder(BuildTree(ts))| == 1 + Count(ts, (t: Token) => t.StartTag?) + Count(ts, (t: Token) => t.Text?)
  {
    CreatedCount(ts);
  }

  /** Before each start tag or text of ts, c plus the start tags before it
      outnumber the end tags before it. */
  predicate Balanced(c: int, ts: seq<Token>)
  {
    forall k :: 0 <= k < |ts| && !ts[k].EndTag? ==>
      c + Count(ts[..k], (t: Token) => t.StartTag?) > Count(ts[..k], (t: Token) => t.EndTag?)
  }

  /** Balanced, one token at a time. */
  lemma BalancedCons(c: int, ts: seq<Token>)
    requires ts != []
    ensures Balanced(c, ts) <==>
      && (!ts[0].EndTag? ==> c > 0)
      && Balanced(c + (if ts[0].StartTag? then 1 else 0) - (if ts[0].EndTag? then 1 else 0), ts[1..])
  {
    var d := c + (if ts[0].StartTag? then 1 else 0) - (if ts[0].EndTag? then 1 else 0);
    var rest := ts[1..];
    forall k | 1 <= k <= |ts|
      ensures Count(ts[..k], (t: Token) => t.StartTag?) == (if ts[0].StartTag? then 1 else 0) + Count(rest[..k - 1], (t: Token) => t.StartTag?)
      ensures Count(ts[..k], (t: Token) => t.EndTag?) == (if ts[0].EndTag? then 1 else 0) + Count(rest[..k - 1], (t: Token) => t.EndTag?)
    {
      assert ts[..k][0] == ts[0] && ts[..k][1..] == rest[..k - 1];
    }
    if Balanced(c, ts) {
      forall k | 0 <= k < |rest| && !rest[k].EndTag?
        ensures d + Count(rest[..k], (t: Token) => t.StartTag?) > Count(rest[..k], (t: Token) => t.EndTag?)
      {
        assert ts[k + 1] == rest[k] && ts[..k + 1][1..] == rest[..k];
      }
    }
    if (!ts[0].EndTag? ==> c > 0) && Balanced(d, rest) {
      forall k | 0 <= k < |ts| && !ts[k].EndTag?
        ensures c + Count(ts[..k], (t: Token) => t.StartTag?) > Count(ts[..k], (t: Token) => t.EndTag?)
      {
        if k > 0 {
          assert rest[k - 1] == ts[k];
        }
      }
    }
  }

  /** With nothing to spare (c <= 0), ts is balanced exactly when it is all
      end tags. */
  lemma {:induction false} BalancedEnds(c: int, ts: seq<Token>)
    requires c <= 0
    ensures Balanced(c, ts) <==> forall k :: 0 <= k < |ts| ==> ts[k].EndTag?
    decreases |ts|
  {
    if ts != [] {
      BalancedCons(c, ts);
      if ts[0].EndTag? {
        BalancedEnds(c - 1, ts[1..]);
        assert forall k :: 1 <= k < |ts| ==> ts[k] == ts[1..][k - 1];
      }
    }
  }

  /** build_dom never reads below its stack (stack[stack_size - 1] with
      stack_size == 0) exactly when, before each start tag and text, the h
      entries it starts with plus the start tags so far outnumber the end
      tags so far. */
  lemma {:induction false} NoUnderflowCounts(h: nat, ts: seq<Token>)
    ensures NoUnderflow(h, ts) <==> Balanced(h, ts)
    decreases |ts|
  {
    if ts != [] {
      BalancedCons(h, ts);
      var h' := HeightAfter(h, ts[0]);
      NoUnderflowCounts(h', ts[1..]);
      if ts[0].EndTag? && h == 0 {
        BalancedEnds(0, ts[1..]);
        BalancedEnds(-1, ts[1..]);
      }
    }
  }

  /** Once the stack is empty only end tags may follow, and they leave it empty. */
  lemma {:induction false} EmptyStackOnlyEnds(ts: seq<Token>)
    requires NoUnderflow(0, ts)
    ensures Count(ts, (t: Token) => t.StartTag?) == 0 && Count(ts, (t: Token) => t.Text?) == 0
    decreases |ts|
  {
    if ts != [] {
      EmptyStackOnlyEnds(ts[1..]);
    }
  }

  /** The stack height after ts is 1 + #StartTag - #EndTag, or 0 once more end
      tags than that have popped even the root. */
  lemma {:induction false} RunHeight(b: Builder, ts: seq<Token>)
    requires Wf(b) && NoUnderflow(Height(b), ts)
    ensures Height(Run(b, ts)) == Max0(Height(b) + Count(ts, (t: Token) => t.StartTag?) - Count(ts, (t: Token) => t.EndTag?))
    decreases |ts|
  {
    if ts != [] {
      RunHeight(Step(b, ts[0]), ts[1..]);
      if ts[0].EndTag? && Height(b) == 0 {
        EmptyStackOnlyEnds(ts[1..]);
      }
    }
  }

  /** Closing the current element does not change the tree: it already was
      the last child of the element below. */
  lemma {:induction false} PlugPop(fs: seq<Frame>)
    requires |fs| > 1
    ensures Plug(fs[..|fs| - 2] + [Frame(fs[|fs| - 2].tag, fs[|fs| - 2].kids + [Element(fs[|fs| - 1].tag, fs[|fs| - 1].kids)])])
         == Plug(fs)
    decreases |fs|
  {
    var n := |fs|;
    var popped := fs[..n - 2] + [Frame(fs[n - 2].tag, fs[n - 2].kids + [Element(fs[n - 1].tag, fs[n - 1].kids)])];
    if n == 2 {
      assert popped == [Frame(fs[0].tag, fs[0].kids + [Element(fs[1].tag, fs[1].kids)])];
      assert fs[1..] == [fs[1]];
    } else {
      var tail := fs[1..];
      PlugPop(tail);
      assert popped[0] == fs[0];
      assert popped[1..] == tail[..|tail| - 2] + [Frame(tail[|tail| - 2].tag, tail[|tail| - 2].kids + [Element(tail[|tail| - 1].tag, tail[|tail| - 1].kids)])];
    }
  }

  /** An end tag changes the state but never the current tree, unless it
      arrives after the root was closed, when it changes nothing. */
  lemma EndKeepsTree(b: Builder, name: string)
    requires Wf(b)
    ensures Current(Step(b, EndTag(name))) == Current(b)
  {
    if b.Open? && |b.frames| > 1 {
      PlugPop(b.frames);
    }
  }

  /** An end tag pops the current element whatever name it carries. */
  lemma EndTagIgnoresName(b: Builder, x: string, y: string)
    requires Wf(b)
    ensures Step(b, EndTag(x)) == Step(b, EndTag(y))
  {
  }

  // ---------------------------------------------------------------------
  // The guard of the end-tag branch

  /** With only the root open, an end tag pops the root, and text after it
      finds no open element to go into. */
  lemma RootPopped()
    ensures Step(Init(), EndTag("a")) == Closed(Element("document", []))
    ensures !NoUnderflow(1, [EndTag("a"), Text("x")])
  {
    assert [EndTag("a"), Text("x")][1..] == [Text("x")];
  }

  /** The step with the guard stack_size > 1: an end tag never pops the
      root, so every token has an open element to go into. */
  function GuardedStep(fs: seq<Frame>, t: Token): (r: seq<Frame>)
    requires |fs| > 0
    ensures |r| > 0 && r[0].tag == fs[0].tag
    ensures |r| == if t.StartTag? then |fs| + 1 else if t.EndTag? && |fs| > 1 then |fs| - 1 else |fs|
  {
    if t.EndTag? && |fs| == 1 then fs else Step(Open(fs), t).frames
  }

  /** The guarded builder after the tokens ts: defined for every token
      sequence, with the bottom frame never replaced. */
  function GuardedRun(fs: seq<Frame>, ts: seq<Token>): (r: seq<Frame>)
    requires |fs| > 0
    ensures |r| > 0 && r[0].tag == fs[0].tag
    decreases |ts|
  {
    if ts == [] then fs else GuardedRun(GuardedStep(fs, ts[0]), ts[1..])
  }

  /** Where the root is never popped the guard makes no difference: the
      guarded builder reaches the same open elements as build_dom. */
  lemma {:induction false} GuardedAgrees(fs: seq<Frame>, ts: seq<Token>)
    requires |fs| > 0 && NoUnderflow(|fs|, ts)
    requires Run(Open(fs), ts).Open?
    ensures GuardedRun(fs, ts) == Run(Open(fs), ts).frames
    decreases |ts|
  {
    if ts != [] {
      var b := Step(Open(fs), ts[0]);
      if b.Open? {
        GuardedAgrees(b.frames, ts[1..]);
      }
    }
  }
}
