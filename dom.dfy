/**
 * The page's element tree as the content scripts observe it, and the
 * `download-btn` controls they inject into it.
 *
 * The host page's own elements form a value `Tree`; the injected controls are
 * leaves kept apart, in the order they were appended, in `Page.buttons`. The
 * scripts never move or remove host elements, so a control only ever changes
 * the answer of the "is there already a `download-btn` below this node" query.
 */
module Dom {
  import opened Basics

  /** Node identity: the key of the scripts' `Set`, `WeakSet` and `Map`. */
  type NodeId = nat

  /** The element kinds the scripts tell apart. */
  datatype Tag = ImgTag | VideoTag | OtherTag

  /** The kind of media a control is created for. */
  datatype MediaType = Image | Video

  /** The `type` string a control puts in its download message. */
  function TypeName(m: MediaType): string
  {
    match m
    case Image => "image"
    case Video => "video"
  }

  /**
   * A snapshot of the host page: each element's tag, its `parentElement`
   * (absent for a root), its `src` property (an element without an entry has
   * the empty `src`), and the elements in document order.
   */
  datatype Tree = Tree(tag: map<NodeId, Tag>, parent: map<NodeId, NodeId>,
                       src: map<NodeId, string>, order: seq<NodeId>)

  /** `element.src`, the empty string when the element has none. */
  function Src(t: Tree, n: NodeId): string
  {
    if n in t.src then t.src[n] else ""
  }

  /** `a` is reached from `n` by following between one and `fuel` parent links. */
  predicate AncestorWithin(parent: map<NodeId, NodeId>, a: NodeId, n: NodeId, fuel: nat)
    decreases fuel
  {
    fuel > 0 && n in parent && (parent[n] == a || AncestorWithin(parent, a, parent[n], fuel - 1))
  }

  /**
   * `n` is a proper descendant of `a`. On an acyclic parent map no chain of
   * parent links is longer than the map itself, so the fuel is exact there.
   */
  predicate Descends(parent: map<NodeId, NodeId>, n: NodeId, a: NodeId)
  {
    AncestorWithin(parent, a, n, |parent|)
  }

  /** `n` is a `g` element below `root`: what `root.querySelectorAll(g)` selects. */
  predicate Matches(tag: map<NodeId, Tag>, parent: map<NodeId, NodeId>, root: NodeId, g: Tag, n: NodeId)
  {
    n in tag && tag[n] == g && Descends(parent, n, root)
  }

  /** The elements of `ns`, in order, that `Matches` selects. */
  function Select(tag: map<NodeId, Tag>, parent: map<NodeId, NodeId>, root: NodeId, g: Tag,
                  ns: seq<NodeId>): (r: seq<NodeId>)
    ensures |r| <= |ns|
    ensures forall n :: n in r <==> n in ns && Matches(tag, parent, root, g, n)
    ensures IsSubseq(r, ns)
    ensures forall n | Matches(tag, parent, root, g, n) :: multiset(r)[n] == multiset(ns)[n]
  {
    if ns == [] then []
    else
      var rest := Select(tag, parent, root, g, ns[1..]);
      assert ns == [ns[0]] + ns[1..];
      if Matches(tag, parent, root, g, ns[0]) then
        assert ([ns[0]] + rest)[1..] == rest;
        [ns[0]] + rest
      else rest
  }

  /** `root.querySelectorAll(g)`: the `g` elements below `root`, in document order. */
  function QueryAll(t: Tree, root: NodeId, g: Tag): seq<NodeId>
  {
    Select(t.tag, t.parent, root, g, t.order)
  }

  /** `root.querySelector(g)`: the first `g` element below `root`, if any. */
  function QueryFirst(t: Tree, root: NodeId, g: Tag): Option<NodeId>
  {
    var all := QueryAll(t, root, g);
    if all == [] then None else Some(all[0])
  }

  /** The first element of `ns` that `Matches` selects is the head of `Select`. */
  lemma {:induction false} SelectFirst(tag: map<NodeId, Tag>, parent: map<NodeId, NodeId>, root: NodeId, g: Tag,
                                        ns: seq<NodeId>, k: nat)
    requires k < |ns| && Matches(tag, parent, root, g, ns[k])
    requires forall j | 0 <= j < k :: !Matches(tag, parent, root, g, ns[j])
    ensures Select(tag, parent, root, g, ns) != [] && Select(tag, parent, root, g, ns)[0] == ns[k]
    decreases k
  {
    if k > 0 {
      SelectFirst(tag, parent, root, g, ns[1..], k - 1);
    }
  }

  /** The set of elements of a sequence. */
  function Elems(s: seq<NodeId>): set<NodeId>
  {
    set n | n in s
  }

  /** An injected `download-btn` control: the element it was appended to, and what its click handler is bound to. */
  datatype Button<H> = Button(parent: NodeId, handler: H)

  /** Control `b` lies below node `c` (it is `c`'s child or a deeper descendant). */
  predicate Under<H>(t: Tree, b: Button<H>, c: NodeId)
  {
    b.parent == c || Descends(t.parent, b.parent, c)
  }

  /** `c.querySelector('.download-btn')` finds a control. */
  predicate HasControl<H>(t: Tree, bs: seq<Button<H>>, c: NodeId)
  {
    exists i | 0 <= i < |bs| :: Under(t, bs[i], c)
  }

  /** No element has received two controls. */
  predicate DistinctParents<H>(bs: seq<Button<H>>)
  {
    forall i, j | 0 <= i < j < |bs| :: bs[i].parent != bs[j].parent
  }

  /** Appending one more control adds exactly the nodes above it to those that have a control. */
  lemma HasControlAppend<H>(t: Tree, bs: seq<Button<H>>, b: Button<H>, c: NodeId)
    ensures HasControl(t, bs + [b], c) <==> HasControl(t, bs, c) || Under(t, b, c)
  {
    var bs' := bs + [b];
    if HasControl(t, bs, c) {
      var i :| 0 <= i < |bs| && Under(t, bs[i], c);
      assert bs'[i] == bs[i];
    }
    if Under(t, b, c) {
      assert bs'[|bs|] == b;
    }
    if HasControl(t, bs', c) {
      var i :| 0 <= i < |bs'| && Under(t, bs'[i], c);
      if i < |bs| {
        assert bs'[i] == bs[i];
      }
    }
  }

  /** Controls are only ever appended, so a node that has a control keeps it. */
  lemma HasControlPrefix<H>(t: Tree, bs: seq<Button<H>>, bs': seq<Button<H>>, c: NodeId)
    requires bs <= bs'
    ensures HasControl(t, bs, c) ==> HasControl(t, bs', c)
  {
    if HasControl(t, bs, c) {
      var i :| 0 <= i < |bs| && Under(t, bs[i], c);
      assert bs'[i] == bs[i];
    }
  }

  /** A control appended to an element with no control below it keeps every element at one control. */
  lemma AppendKeepsDistinct<H>(t: Tree, bs: seq<Button<H>>, b: Button<H>)
    requires DistinctParents(bs)
    requires !HasControl(t, bs, b.parent)
    ensures DistinctParents(bs + [b])
  {
    var bs' := bs + [b];
    forall i, j | 0 <= i < j < |bs'| ensures bs'[i].parent != bs'[j].parent {
      if j == |bs| {
        assert bs'[i] == bs[i];
        assert !Under(t, bs[i], b.parent);
      } else {
        assert bs'[i] == bs[i] && bs'[j] == bs[j];
      }
    }
  }

  /** The live document: the host's elements and the controls appended to them. */
  class Page<H> {
    var tree: Tree
    var buttons: seq<Button<H>>

    constructor (tree: Tree)
      ensures this.tree == tree && buttons == []
    {
      this.tree := tree;
      buttons := [];
    }

    /** `parent.appendChild(button)` for a freshly created control. */
    method AppendChild(parent: NodeId, handler: H)
      modifies this
      ensures tree == old(tree)
      ensures buttons == old(buttons) + [Button(parent, handler)]
    {
      buttons := buttons + [Button(parent, handler)];
    }
  }
}
