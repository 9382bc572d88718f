/**
 * The older content script, content.js: one document-wide pass that gives the
 * parent of every matched `<img>` and `<video>` one `download-btn` control,
 * rerun whenever a mutation adds nodes, and a click handler that sends the URL
 * captured when the control was created, with the image resolution token
 * rewritten.
 *
 * The three selector groups of the pass (`.masonry-layout img, …` and the same
 * for `video`) are given as their matches in document order. Every match of a
 * descendant selector has an ancestor, so every match has a parent element.
 */
module LegacyContent {
  import opened Basics
  import opened Dom
  import Resolution
  import Runtime

  /** What `createDownloadButton(url, type)` binds its click handler to. */
  datatype Captured = Captured(url: string, mediaType: MediaType)

  type Control = Button<Captured>

  /** Every node of `ms` has a `parentElement`. */
  predicate HasParents(t: Tree, ms: seq<NodeId>)
  {
    forall m | m in ms :: m in t.parent
  }

  /** The control appended for match `m` of type `mt`: on `m`'s parent, with `m`'s `src` as it is now. */
  function NewControl(t: Tree, m: NodeId, mt: MediaType): Control
    requires m in t.parent
  {
    Button(t.parent[m], Captured(Src(t, m), mt))
  }

  /** One turn of a `forEach`: a control for `m` unless its parent already holds one. */
  function AddOne(t: Tree, bs: seq<Control>, m: NodeId, mt: MediaType): seq<Control>
    requires m in t.parent
  {
    if HasControl(t, bs, t.parent[m]) then bs else bs + [NewControl(t, m, mt)]
  }

  /** One `forEach` over the matches `ms`, in order, creating controls of type `mt`. */
  function AddPass(t: Tree, bs: seq<Control>, ms: seq<NodeId>, mt: MediaType): seq<Control>
    requires HasParents(t, ms)
    decreases |ms|
  {
    if ms == [] then bs else AddPass(t, AddOne(t, bs, ms[0], mt), ms[1..], mt)
  }

  /** `addDownloadButtons()`: the image loop, then the video loop. */
  function Pass(t: Tree, bs: seq<Control>, images: seq<NodeId>, videos: seq<NodeId>): seq<Control>
    requires HasParents(t, images) && HasParents(t, videos)
  {
    AddPass(t, AddPass(t, bs, images, Image), videos, Video)
  }

  /** `handleDownload(url, type)`: the message it sends; for an image the resolution token is rewritten first. */
  function HandleDownload(url: string, mt: MediaType): Runtime.Message
  {
    Runtime.Message("download", if mt == Image then Resolution.Rewrite(url) else url, TypeName(mt))
  }

  /** The message one click of control `b` sends: it depends on the captured URL only, not on the page. */
  function Click(b: Control): Runtime.Message
  {
    HandleDownload(b.handler.url, b.handler.mediaType)
  }

  // ------------------------------------------------------------- pass facts

  /** A pass only appends controls. */
  lemma {:induction false} AddPassExtends(t: Tree, bs: seq<Control>, ms: seq<NodeId>, mt: MediaType)
    requires HasParents(t, ms)
    ensures bs <= AddPass(t, bs, ms, mt)
    decreases |ms|
  {
    if ms != [] {
      var bs1 := AddOne(t, bs, ms[0], mt);
      AddPassExtends(t, bs1, ms[1..], mt);
      assert bs <= bs1;
    }
  }

  /**
   * `b` is a control a pass over `ms` may append to `bs`: it sits on the
   * parent of one of the matches, which held no control in `bs`, and carries
   * that match's `src` at the time of the pass and the pass's type.
   */
  ghost predicate Justified(t: Tree, bs: seq<Control>, ms: seq<NodeId>, mt: MediaType, b: Control)
  {
    exists m :: m in ms && m in t.parent && b == NewControl(t, m, mt) && !HasControl(t, bs, t.parent[m])
  }

  /** Every control a pass appends is justified by one of its matches. */
  lemma {:induction false} AddPassSound(t: Tree, bs: seq<Control>, ms: seq<NodeId>, mt: MediaType)
    requires HasParents(t, ms)
    ensures var r := AddPass(t, bs, ms, mt);
      forall k | |bs| <= k < |r| :: Justified(t, bs, ms, mt, r[k])
    decreases |ms|
  {
    if ms != [] {
      var m0 := ms[0];
      var bs1 := AddOne(t, bs, m0, mt);
      var r := AddPass(t, bs, ms, mt);
      assert r == AddPass(t, bs1, ms[1..], mt);
      AddPassSound(t, bs1, ms[1..], mt);
      AddPassExtends(t, bs1, ms[1..], mt);
      forall k | |bs| <= k < |r| ensures Justified(t, bs, ms, mt, r[k]) {
        if k < |bs1| {
          assert bs1 != bs && r[k] == bs1[k];
          assert r[k] == NewControl(t, m0, mt);
        } else {
          assert Justified(t, bs1, ms[1..], mt, r[k]);
          var m :| m in ms[1..] && m in t.parent && r[k] == NewControl(t, m, mt) && !HasControl(t, bs1, t.parent[m]);
          HasControlPrefix(t, bs, bs1, t.parent[m]);
          assert m in ms;
        }
      }
    }
  }

  /** After a pass, the parent of every match holds a control. */
  lemma {:induction false} AddPassComplete(t: Tree, bs: seq<Control>, ms: seq<NodeId>, mt: MediaType)
    requires HasParents(t, ms)
    ensures var r := AddPass(t, bs, ms, mt);
      forall m | m in ms :: HasControl(t, r, t.parent[m])
    decreases |ms|
  {
    if ms != [] {
      var m0 := ms[0];
      var bs1 := AddOne(t, bs, m0, mt);
      var r := AddPass(t, bs, ms, mt);
      AddPassComplete(t, bs1, ms[1..], mt);
      AddPassExtends(t, bs1, ms[1..], mt);
      if !HasControl(t, bs, t.parent[m0]) {
        HasControlAppend(t, bs, NewControl(t, m0, mt), t.parent[m0]);
      }
      HasControlPrefix(t, bs1, r, t.parent[m0]);
      forall m | m in ms ensures HasControl(t, r, t.parent[m]) {
        if m != m0 {
          assert m in ms[1..];
        }
      }
    }
  }

  /** A pass never gives an element a second control. */
  lemma {:induction false} AddPassDistinct(t: Tree, bs: seq<Control>, ms: seq<NodeId>, mt: MediaType)
    requires HasParents(t, ms) && DistinctParents(bs)
    ensures DistinctParents(AddPass(t, bs, ms, mt))
    decreases |ms|
  {
    if ms != [] {
      var m := ms[0];
      if !HasControl(t, bs, t.parent[m]) {
        AppendKeepsDistinct(t, bs, NewControl(t, m, mt));
      }
      AddPassDistinct(t, AddOne(t, bs, m, mt), ms[1..], mt);
    }
  }

  /** A pass over matches whose parents all hold a control already changes nothing. */
  lemma {:induction false} AddPassIdle(t: Tree, bs: seq<Control>, ms: seq<NodeId>, mt: MediaType)
    requires HasParents(t, ms)
    requires forall m | m in ms :: HasControl(t, bs, t.parent[m])
    ensures AddPass(t, bs, ms, mt) == bs
    decreases |ms|
  {
    if ms != [] {
      assert AddOne(t, bs, ms[0], mt) == bs;
      AddPassIdle(t, bs, ms[1..], mt);
    }
  }

  /**
   * `addDownloadButtons()`: it only appends; every new control sits on the
   * parent of an image or a video match that held no control before, typed
   * by the loop that appended it; afterwards every match's parent holds a
   * control; no element ends up with two; and a second pass over the same
   * page adds nothing.
   */
  lemma PassSpec(t: Tree, bs: seq<Control>, images: seq<NodeId>, videos: seq<NodeId>)
    requires HasParents(t, images) && HasParents(t, videos)
    ensures var r := Pass(t, bs, images, videos);
      && bs <= r
      && (forall k | |bs| <= k < |r| ::
            Justified(t, bs, images, Image, r[k]) || Justified(t, bs, videos, Video, r[k]))
      && (forall m | m in images || m in videos :: HasControl(t, r, t.parent[m]))
      && (DistinctParents(bs) ==> DistinctParents(r))
      && Pass(t, r, images, videos) == r
  {
    var r1 := AddPass(t, bs, images, Image);
    var r := AddPass(t, r1, videos, Video);
    AddPassExtends(t, bs, images, Image);
    AddPassExtends(t, r1, videos, Video);
    AddPassSound(t, bs, images, Image);
    AddPassSound(t, r1, videos, Video);
    forall k | |bs| <= k < |r| ensures Justified(t, bs, images, Image, r[k]) || Justified(t, bs, videos, Video, r[k]) {
      if k < |r1| {
        assert r[k] == r1[k];
      } else {
        var m :| m in videos && m in t.parent && r[k] == NewControl(t, m, Video) && !HasControl(t, r1, t.parent[m]);
        HasControlPrefix(t, bs, r1, t.parent[m]);
      }
    }
    AddPassComplete(t, bs, images, Image);
    AddPassComplete(t, r1, videos, Video);
    forall m | m in images ensures HasControl(t, r, t.parent[m]) {
      HasControlPrefix(t, r1, r, t.parent[m]);
    }
    if DistinctParents(bs) {
      AddPassDistinct(t, bs, images, Image);
      AddPassDistinct(t, r1, videos, Video);
    }
    AddPassIdle(t, r, images, Image);
    AddPassIdle(t, r, videos, Video);
  }

  /** A second pass over an unchanged page adds nothing. */
  lemma PassTwice(t: Tree, bs: seq<Control>, images: seq<NodeId>, videos: seq<NodeId>)
    requires HasParents(t, images) && HasParents(t, videos)
    ensures Pass(t, Pass(t, bs, images, videos), images, videos) == Pass(t, bs, images, videos)
  {
    PassSpec(t, bs, images, videos);
  }

  // ---------------------------------------------------------- click facts

  /**
   * A click sends one `download` message with the control's original type;
   * a video URL goes out as captured, an image URL with its leftmost token
   * replaced by `2400:2400` and everything around it kept, or unchanged when
   * it has no token; and the URL sent for an image is already at the high
   * resolution, so rewriting it again changes nothing.
   */
  lemma HandleDownloadSpec(url: string, mt: MediaType)
    ensures var r := HandleDownload(url, mt);
      && r.action == "download"
      && r.mediaType == TypeName(mt)
      && (mt == Video ==> r.url == url)
      && (mt == Image && Resolution.NoTokenBefore(url, |url| + 1) ==> r.url == url)
      && (forall i: nat, j: nat | mt == Image && Resolution.LeftmostMatch(url, i, j) ::
            r.url == url[..i] + Resolution.HighRes + url[j..])
      && (mt == Image ==> HandleDownload(r.url, mt) == r)
  {
    if mt == Image {
      if Resolution.NoTokenBefore(url, |url| + 1) {
        Resolution.RewriteWithoutToken(url);
      }
      forall i: nat, j: nat | Resolution.LeftmostMatch(url, i, j)
        ensures Resolution.Rewrite(url) == url[..i] + Resolution.HighRes + url[j..]
      {
        Resolution.RewriteReplacesLeftmost(url, i, j);
      }
      Resolution.RewriteIdempotent(url);
    }
  }

  /**
   * The URL a control sends is the `src` its media element had when the pass
   * created the control, whatever the page looks like at click time.
   */
  lemma ClickUsesCapturedSource(t: Tree, bs: seq<Control>, images: seq<NodeId>, videos: seq<NodeId>)
    requires HasParents(t, images) && HasParents(t, videos)
    ensures var r := Pass(t, bs, images, videos);
      forall k | |bs| <= k < |r| ::
        (exists m :: m in images && m in t.parent && r[k].parent == t.parent[m] && Click(r[k]) == HandleDownload(Src(t, m), Image))
        || (exists m :: m in videos && m in t.parent && r[k].parent == t.parent[m] && Click(r[k]) == HandleDownload(Src(t, m), Video))
  {
    PassSpec(t, bs, images, videos);
  }

  // ----------------------------------------------------------------- in place

  /** `addDownloadButtons()` on the live page. */
  method AddDownloadButtons(page: Page<Captured>, images: seq<NodeId>, videos: seq<NodeId>)
    requires HasParents(page.tree, images) && HasParents(page.tree, videos)
    modifies page
    ensures page.tree == old(page.tree)
    ensures page.buttons == Pass(old(page.tree), old(page.buttons), images, videos)
  {
    ForEach(page, images, Image);
    ForEach(page, videos, Video);
  }

  /** One `forEach` of `addDownloadButtons` on the live page. */
  method ForEach(page: Page<Captured>, ms: seq<NodeId>, mt: MediaType)
    requires HasParents(page.tree, ms)
    modifies page
    ensures page.tree == old(page.tree)
    ensures page.buttons == AddPass(old(page.tree), old(page.buttons), ms, mt)
  {
    var i := 0;
    while i < |ms|
      invariant 0 <= i <= |ms|
      invariant page.tree == old(page.tree)
      invariant AddPass(page.tree, page.buttons, ms[i..], mt) == AddPass(page.tree, old(page.buttons), ms, mt)
    {
      var m := ms[i];
      assert ms[i..][1..] == ms[i + 1..];
      var parent := page.tree.parent[m];
      if !HasControl(page.tree, page.buttons, parent) {
        page.AppendChild(parent, CreateDownloadButton(Src(page.tree, m), mt));
      }
      i := i + 1;
    }
  }

  /** `createDownloadButton(url, type)`: the handler captures both arguments. */
  function CreateDownloadButton(url: string, mt: MediaType): Captured
  {
    Captured(url, mt)
  }

  /** A control's `onclick`: one message to the background script. */
  method OnClick(b: Control, outbox: Runtime.Outbox)
    modifies outbox
    ensures outbox.sent == old(outbox.sent) + [Click(b)]
  {
    outbox.SendMessage(HandleDownload(b.handler.url, b.handler.mediaType));
  }

  /**
   * The body observer's callback with the `addedNodes.length` of each record:
   * one `addDownloadButtons()` per record that added nodes. The page's own
   * elements do not change while the callback runs, so however many records
   * there are, the controls end up as after a single pass, or unchanged when
   * no record added a node.
   */
  method OnMutations(page: Page<Captured>, addedNodes: seq<nat>, images: seq<NodeId>, videos: seq<NodeId>)
    requires HasParents(page.tree, images) && HasParents(page.tree, videos)
    modifies page
    ensures page.tree == old(page.tree)
    ensures page.buttons == if exists k | 0 <= k < |addedNodes| :: addedNodes[k] > 0
                            then Pass(old(page.tree), old(page.buttons), images, videos)
                            else old(page.buttons)
  {
    ghost var once := Pass(page.tree, page.buttons, images, videos);
    PassTwice(page.tree, page.buttons, images, videos);
    ghost var seen := false;
    var i := 0;
    while i < |addedNodes|
      invariant 0 <= i <= |addedNodes|
      invariant page.tree == old(page.tree)
      invariant seen <==> exists k | 0 <= k < i :: addedNodes[k] > 0
      invariant page.buttons == if seen then once else old(page.buttons)
    {
      if addedNodes[i] > 0 {
        AddDownloadButtons(page, images, videos);
        seen := true;
      }
      i := i + 1;
    }
  }

}
