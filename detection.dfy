/**
 * The detection and de-duplication engine of src/content.js, as values: what
 * one pass of `checkForContainers` / `checkForVideoContainers` does to the
 * engine's processed set, its observer map and the page's controls, what a
 * container watcher's callback does, and what a control sends when clicked.
 * The `MediaDownloader` class in module ContentScript runs these steps in place.
 */
module Detection {
  import opened Basics
  import opened Dom
  import Debounce
  import Runtime

  /** `CONTAINERS`: the layout-container selectors, queried in this order. */
  const Containers: seq<string> := [".masonry-layout", "[class^=\"scroll-list-\"]", ".lv-modal-wrapper"]

  /** The debounce window of every observer, in milliseconds. */
  const ObserverDebounceMs: nat := 200

  /** A `DownloadButton`: the media element its click resolves the URL from, and its type. */
  datatype DownloadButton = DownloadButton(mediaElement: NodeId, mediaType: MediaType)

  type Control = Button<DownloadButton>

  /** A mutation record a container watcher receives. */
  datatype Mutation = ChildList(addedNodes: nat) | Attributes(attributeName: string)

  /** A container watcher: its `MutationObserver`'s debounced callback and what it has pending. */
  datatype Watcher = Watcher(callback: Debounce.Timer<seq<Mutation>>)

  /** A watcher just set up: nothing pending. */
  const FreshWatcher := Watcher(Debounce.Idle)

  /** The engine's `checkedElements`, its `observers` and the controls on the page. */
  datatype State = State(checked: set<NodeId>, observers: map<NodeId, Watcher>, buttons: seq<Control>)

  // ---------------------------------------------------------------- injection

  /**
   * `addVideoDownloadButton(container)`: nothing for a null container or one
   * that already holds a control; otherwise one `'video'` control for it.
   */
  function AddVideoButton(t: Tree, bs: seq<Control>, container: Option<NodeId>): seq<Control>
  {
    if container.None? || HasControl(t, bs, container.value) then bs
    else bs + [Button(container.value, DownloadButton(container.value, Video))]
  }

  /** `shouldAddButton(image)`: it has a parent, the parent holds no control, and its `src` is not empty. */
  predicate ShouldAddButton(t: Tree, bs: seq<Control>, image: NodeId)
  {
    image in t.parent && !HasControl(t, bs, t.parent[image]) && Src(t, image) != ""
  }

  /** The control `addDownloadButtonsToElement` appends for `image`: on the image's parent, bound to the image. */
  predicate ImageControl(t: Tree, b: Control, image: NodeId)
  {
    image in t.parent && b == Button(t.parent[image], DownloadButton(image, Image))
  }

  /** One turn of the `images.forEach` loop. */
  function AddImageButton(t: Tree, bs: seq<Control>, image: NodeId): seq<Control>
  {
    if ShouldAddButton(t, bs, image) then bs + [Button(t.parent[image], DownloadButton(image, Image))] else bs
  }

  /** The `images.forEach` loop over `images`, in order. */
  function ImagePass(t: Tree, bs: seq<Control>, images: seq<NodeId>): seq<Control>
    decreases |images|
  {
    if images == [] then bs else ImagePass(t, AddImageButton(t, bs, images[0]), images[1..])
  }

  /** `addDownloadButtonsToElement(container)`: the image loop over `container.querySelectorAll('img')`. */
  function AddImageButtons(t: Tree, bs: seq<Control>, container: Option<NodeId>): seq<Control>
  {
    match container
    case None => bs
    case Some(c) => ImagePass(t, bs, QueryAll(t, c, ImgTag))
  }

  // ----------------------------------------------------------------- scanning

  /** `setupObserverForElement(e)`: a fresh watcher unless `e` already has one. */
  function SetupObserver(obs: map<NodeId, Watcher>, e: NodeId): map<NodeId, Watcher>
  {
    if e in obs then obs else obs[e := FreshWatcher]
  }

  /** The body of the scan's `if`: mark, watch, then inject (video path or image path). */
  function Process(t: Tree, s: State, c: NodeId, video: bool): State
  {
    State(s.checked + {c}, SetupObserver(s.observers, c),
          if video then AddVideoButton(t, s.buttons, Some(c)) else AddImageButtons(t, s.buttons, Some(c)))
  }

  /** One turn of a scan's `forEach`: skip a node already in `checkedElements`. */
  function Visit(t: Tree, s: State, c: NodeId, video: bool): State
  {
    if c in s.checked then s else Process(t, s, c, video)
  }

  /** One ordered pass over a selector's matches; `video` picks `checkForVideoContainers`'s body. */
  function Scan(t: Tree, s: State, cs: seq<NodeId>, video: bool): State
    decreases |cs|
  {
    if cs == [] then s else Scan(t, Visit(t, s, cs[0], video), cs[1..], video)
  }

  /** `checkForContainers()`: one pass per `CONTAINERS` selector, given each selector's matches. */
  function ScanContainers(t: Tree, s: State, matches: seq<seq<NodeId>>): State
    decreases |matches|
  {
    if matches == [] then s else ScanContainers(t, Scan(t, s, matches[0], false), matches[1..])
  }

  /** What every trigger runs: `checkForContainers()` then `checkForVideoContainers()`. */
  function Round(t: Tree, s: State, matches: seq<seq<NodeId>>, videoContainers: seq<NodeId>): State
  {
    Scan(t, ScanContainers(t, s, matches), videoContainers, true)
  }

  /** All nodes any `CONTAINERS` selector matched. */
  function AllElems(matches: seq<seq<NodeId>>): set<NodeId>
    decreases |matches|
  {
    if matches == [] then {} else Elems(matches[0]) + AllElems(matches[1..])
  }

  /** The nodes a pass over `cs` processes, in the order it processes them. */
  function Processed(checked: set<NodeId>, cs: seq<NodeId>): (r: seq<NodeId>)
    ensures forall n :: n in r <==> n in cs && n !in checked
    ensures forall i, j | 0 <= i < j < |r| :: r[i] != r[j]
    ensures IsSubseq(r, cs)
    decreases |cs|
  {
    if cs == [] then []
    else if cs[0] in checked then Processed(checked, cs[1..])
    else [cs[0]] + Processed(checked + {cs[0]}, cs[1..])
  }

  /**
   * A pass processes nodes in the order of their first match: a node
   * processed before another occurs in the matches before every occurrence
   * of that other node.
   */
  lemma ProcessedOrder(checked: set<NodeId>, cs: seq<NodeId>)
    ensures var r := Processed(checked, cs);
      forall i, j, k | 0 <= i < j < |r| && 0 <= k < |cs| && cs[k] == r[j] :: r[i] in cs[..k]
  {
    var r := Processed(checked, cs);
    forall i, j, k | 0 <= i < j < |r| && 0 <= k < |cs| && cs[k] == r[j] ensures r[i] in cs[..k] {
      ProcessedOrderAt(checked, cs, i, j, k);
    }
  }

  /** `ProcessedOrder` for one pair of processed nodes and one occurrence of the later one. */
  lemma {:induction false} ProcessedOrderAt(checked: set<NodeId>, cs: seq<NodeId>, i: nat, j: nat, k: nat)
    requires i < j < |Processed(checked, cs)| && k < |cs| && cs[k] == Processed(checked, cs)[j]
    ensures Processed(checked, cs)[i] in cs[..k]
    decreases |cs|
  {
    var c := cs[0];
    var r := Processed(checked, cs);
    if c in checked {
      var rest := Processed(checked, cs[1..]);
      assert r == rest;
      assert k != 0;
      assert cs[1..][k - 1] == cs[k];
      ProcessedOrderAt(checked, cs[1..], i, j, k - 1);
      assert cs[1..][..k - 1] == cs[..k][1..];
    } else {
      var rest := Processed(checked + {c}, cs[1..]);
      assert r == [c] + rest;
      assert r[j] == rest[j - 1] && r[j] != c;
      assert k != 0;
      if i == 0 {
        assert cs[..k][0] == c;
      } else {
        assert cs[1..][k - 1] == cs[k];
        ProcessedOrderAt(checked + {c}, cs[1..], i - 1, j - 1, k - 1);
        assert cs[1..][..k - 1] == cs[..k][1..];
      }
    }
  }

  /** Processing each of `ps` in turn, with no membership test. */
  function ProcessAll(t: Tree, s: State, ps: seq<NodeId>, video: bool): State
    decreases |ps|
  {
    if ps == [] then s else ProcessAll(t, Process(t, s, ps[0], video), ps[1..], video)
  }

  // ------------------------------------------------------------------ watcher

  /** The callback's test: some record added child nodes or changed `src`. */
  predicate Relevant(ms: seq<Mutation>)
  {
    exists i | 0 <= i < |ms| ::
      (ms[i].ChildList? && ms[i].addedNodes > 0) || (ms[i].Attributes? && ms[i].attributeName == "src")
  }

  /**
   * A container watcher's debounced callback with records `ms`: re-check only
   * this element, by the video path exactly when it matches `VIDEO_CONTAINER_SELECTOR`.
   */
  function Recheck(t: Tree, bs: seq<Control>, element: NodeId, ms: seq<Mutation>, matchesVideo: bool): seq<Control>
  {
    if !Relevant(ms) then bs
    else if matchesVideo then AddVideoButton(t, bs, Some(element))
    else AddImageButtons(t, bs, Some(element))
  }

  // ----------------------------------------------------------------- dispatch

  /**
   * The URL `download()` reads at click time: the `src` of the first `<video>`
   * below the bound container for a video control (empty if there is none),
   * the bound image's own `src` otherwise.
   */
  function ResolveUrl(t: Tree, b: DownloadButton): string
  {
    match b.mediaType
    case Video => (match QueryFirst(t, b.mediaElement, VideoTag)
                   case Some(v) => Src(t, v)
                   case None => "")
    case Image => Src(t, b.mediaElement)
  }

  /** The messages one click of control `b` sends, read against the page as it is at click time. */
  function Download(t: Tree, b: DownloadButton): seq<Runtime.Message>
  {
    var url := ResolveUrl(t, b);
    if url == "" then [] else [Runtime.Message("download", url, TypeName(b.mediaType))]
  }

  // ------------------------------------------------------- image-pass facts

  /** An image pass only appends controls. */
  lemma {:induction false} ImagePassExtends(t: Tree, bs: seq<Control>, images: seq<NodeId>)
    ensures bs <= ImagePass(t, bs, images)
    decreases |images|
  {
    if images != [] {
      var bs1 := AddImageButton(t, bs, images[0]);
      ImagePassExtends(t, bs1, images[1..]);
      assert bs <= bs1;
    }
  }

  /**
   * `b` is a control an image pass over `images` may append to `bs`: bound to
   * one of the images, on its parent, with a non-empty `src`, and the parent
   * held no control in `bs`.
   */
  ghost predicate JustifiedImageControl(t: Tree, bs: seq<Control>, images: seq<NodeId>, b: Control)
  {
    exists m :: m in images && ImageControl(t, b, m) && Src(t, m) != "" && !HasControl(t, bs, t.parent[m])
  }

  /**
   * Every control an image pass appends is bound to one of its images, sits on
   * that image's parent, and was appended only because that image's `src` was
   * not empty and its parent held no control before the pass.
   */
  lemma {:induction false} ImagePassSound(t: Tree, bs: seq<Control>, images: seq<NodeId>)
    ensures var r := ImagePass(t, bs, images);
      forall k | |bs| <= k < |r| :: JustifiedImageControl(t, bs, images, r[k])
    decreases |images|
  {
    if images != [] {
      var m0 := images[0];
      var bs1 := AddImageButton(t, bs, m0);
      var r := ImagePass(t, bs, images);
      assert r == ImagePass(t, bs1, images[1..]);
      ImagePassSound(t, bs1, images[1..]);
      ImagePassExtends(t, bs1, images[1..]);
      forall k | |bs| <= k < |r| ensures JustifiedImageControl(t, bs, images, r[k]) {
        if k < |bs1| {
          assert bs1 != bs && r[k] == bs1[k];
          assert ImageControl(t, r[k], m0);
        } else {
          assert JustifiedImageControl(t, bs1, images[1..], r[k]);
          var m :| m in images[1..] && ImageControl(t, r[k], m) && Src(t, m) != "" && !HasControl(t, bs1, t.parent[m]);
          HasControlPrefix(t, bs, bs1, t.parent[m]);
          assert m in images;
        }
      }
    }
  }

  /** After an image pass, the parent of every image of the pass with a non-empty `src` holds a control. */
  lemma {:induction false} ImagePassComplete(t: Tree, bs: seq<Control>, images: seq<NodeId>)
    ensures var r := ImagePass(t, bs, images);
      forall m | m in images && m in t.parent && Src(t, m) != "" :: HasControl(t, r, t.parent[m])
    decreases |images|
  {
    if images != [] {
      var m0 := images[0];
      var bs1 := AddImageButton(t, bs, m0);
      var r := ImagePass(t, bs, images);
      ImagePassComplete(t, bs1, images[1..]);
      ImagePassExtends(t, bs1, images[1..]);
      if m0 in t.parent && Src(t, m0) != "" {
        if !HasControl(t, bs, t.parent[m0]) {
          HasControlAppend(t, bs, Button(t.parent[m0], DownloadButton(m0, Image)), t.parent[m0]);
        }
        HasControlPrefix(t, bs1, r, t.parent[m0]);
      }
      forall m | m in images && m in t.parent && Src(t, m) != "" ensures HasControl(t, r, t.parent[m]) {
        if m != m0 {
          assert m in images[1..];
        }
      }
    }
  }

  /** An image pass never gives an element a second control. */
  lemma {:induction false} ImagePassDistinct(t: Tree, bs: seq<Control>, images: seq<NodeId>)
    requires DistinctParents(bs)
    ensures DistinctParents(ImagePass(t, bs, images))
    decreases |images|
  {
    if images != [] {
      var m := images[0];
      if ShouldAddButton(t, bs, m) {
        AppendKeepsDistinct(t, bs, Button(t.parent[m], DownloadButton(m, Image)));
      }
      ImagePassDistinct(t, AddImageButton(t, bs, m), images[1..]);
    }
  }

  /** An image pass over images whose parents all hold a control already changes nothing. */
  lemma {:induction false} ImagePassIdle(t: Tree, bs: seq<Control>, images: seq<NodeId>)
    requires forall m | m in images && m in t.parent && Src(t, m) != "" :: HasControl(t, bs, t.parent[m])
    ensures ImagePass(t, bs, images) == bs
    decreases |images|
  {
    if images != [] {
      assert !ShouldAddButton(t, bs, images[0]);
      ImagePassIdle(t, bs, images[1..]);
    }
  }

  /**
   * `addDownloadButtonsToElement(container)`: nothing for a null container;
   * otherwise every new control is bound to an `<img>` below the container
   * whose `src` is not empty and sits on that image's parent, which held no
   * control before; afterwards every such image's parent holds a control; no
   * element ends up with two; and running it again changes nothing.
   */
  lemma AddImageButtonsSpec(t: Tree, bs: seq<Control>, container: Option<NodeId>)
    ensures container.None? ==> AddImageButtons(t, bs, container) == bs
    ensures var r := AddImageButtons(t, bs, container);
      && bs <= r
      && (forall k | |bs| <= k < |r| :: JustifiedImageControl(t, bs, QueryAll(t, container.value, ImgTag), r[k]))
      && (forall m | container.Some? && m in QueryAll(t, container.value, ImgTag) && m in t.parent && Src(t, m) != ""
            :: HasControl(t, r, t.parent[m]))
      && (DistinctParents(bs) ==> DistinctParents(r))
      && AddImageButtons(t, r, container) == r
  {
    if container.Some? {
      var images := QueryAll(t, container.value, ImgTag);
      var r := ImagePass(t, bs, images);
      ImagePassExtends(t, bs, images);
      ImagePassSound(t, bs, images);
      ImagePassComplete(t, bs, images);
      ImagePassIdle(t, r, images);
      if DistinctParents(bs) {
        ImagePassDistinct(t, bs, images);
      }
    }
  }

  /**
   * `addVideoDownloadButton(container)`: afterwards the container holds a
   * control; if it held one already nothing changed, otherwise exactly one
   * `'video'` control bound to it was appended to it; no element ends up with
   * two; and running it again changes nothing.
   */
  lemma AddVideoButtonSpec(t: Tree, bs: seq<Control>, c: NodeId)
    ensures AddVideoButton(t, bs, None) == bs
    ensures var r := AddVideoButton(t, bs, Some(c));
      && HasControl(t, r, c)
      && (HasControl(t, bs, c) ==> r == bs)
      && (!HasControl(t, bs, c) ==> r == bs + [Button(c, DownloadButton(c, Video))])
      && (DistinctParents(bs) ==> DistinctParents(r))
      && AddVideoButton(t, r, Some(c)) == r
  {
    var b := Button(c, DownloadButton(c, Video));
    HasControlAppend(t, bs, b, c);
    if !HasControl(t, bs, c) && DistinctParents(bs) {
      AppendKeepsDistinct(t, bs, b);
    }
  }

  // ------------------------------------------------------------- scan facts

  /** A pass adds every node it was given to `checkedElements`, and nothing else. */
  lemma {:induction false} ScanMarks(t: Tree, s: State, cs: seq<NodeId>, video: bool)
    ensures Scan(t, s, cs, video).checked == s.checked + Elems(cs)
    decreases |cs|
  {
    if cs != [] {
      ScanMarks(t, Visit(t, s, cs[0], video), cs[1..], video);
      assert Elems(cs) == {cs[0]} + Elems(cs[1..]);
    }
  }

  /** A pass over nodes that are all in `checkedElements` changes nothing. */
  lemma {:induction false} ScanIdle(t: Tree, s: State, cs: seq<NodeId>, video: bool)
    requires Elems(cs) <= s.checked
    ensures Scan(t, s, cs, video) == s
    decreases |cs|
  {
    if cs != [] {
      assert cs[0] in Elems(cs) && Elems(cs[1..]) <= Elems(cs);
      ScanIdle(t, s, cs[1..], video);
    }
  }

  /** A pass only appends controls. */
  lemma {:induction false} ScanExtends(t: Tree, s: State, cs: seq<NodeId>, video: bool)
    ensures s.buttons <= Scan(t, s, cs, video).buttons
    decreases |cs|
  {
    if cs != [] {
      var c := cs[0];
      var s1 := Visit(t, s, c, video);
      if c !in s.checked {
        if video {
          AddVideoButtonSpec(t, s.buttons, c);
        } else {
          AddImageButtonsSpec(t, s.buttons, Some(c));
        }
      }
      ScanExtends(t, s1, cs[1..], video);
    }
  }

  /**
   * A pass processes exactly the nodes it was given that were not yet in
   * `checkedElements`, each once, in match order (`Processed` has no
   * repetition), and leaves every other node alone.
   */
  lemma {:induction false} ScanProcessesOnlyNew(t: Tree, s: State, cs: seq<NodeId>, video: bool)
    ensures Scan(t, s, cs, video) == ProcessAll(t, s, Processed(s.checked, cs), video)
    decreases |cs|
  {
    if cs != [] {
      var c := cs[0];
      if c in s.checked {
        ScanProcessesOnlyNew(t, s, cs[1..], video);
      } else {
        var s1 := Process(t, s, c, video);
        ScanProcessesOnlyNew(t, s1, cs[1..], video);
        var ps := Processed(s.checked, cs);
        assert ps[0] == c && ps[1..] == Processed(s.checked + {c}, cs[1..]);
      }
    }
  }

  /** Running a pass over `a + b` is running it over `a`, then over `b`. */
  lemma {:induction false} ScanAppend(t: Tree, s: State, a: seq<NodeId>, b: seq<NodeId>, video: bool)
    ensures Scan(t, s, a + b, video) == Scan(t, Scan(t, s, a, video), b, video)
    decreases |a|
  {
    if a == [] {
      assert a + b == b;
    } else {
      assert (a + b)[0] == a[0] && (a + b)[1..] == a[1..] + b;
      ScanAppend(t, Visit(t, s, a[0], video), a[1..], b, video);
    }
  }

  /** All selectors' matches, in the order `checkForContainers` walks them. */
  function Flatten(matches: seq<seq<NodeId>>): seq<NodeId>
    decreases |matches|
  {
    if matches == [] then [] else matches[0] + Flatten(matches[1..])
  }

  /**
   * `checkForContainers` is one ordered pass over all selectors' matches, so
   * a node matched by several `CONTAINERS` selectors is processed once.
   */
  lemma {:induction false} ScanContainersIsOnePass(t: Tree, s: State, matches: seq<seq<NodeId>>)
    ensures ScanContainers(t, s, matches) == Scan(t, s, Flatten(matches), false)
    ensures Elems(Flatten(matches)) == AllElems(matches)
    decreases |matches|
  {
    if matches != [] {
      ScanContainersIsOnePass(t, Scan(t, s, matches[0], false), matches[1..]);
      ScanAppend(t, s, matches[0], Flatten(matches[1..]), false);
      assert Elems(matches[0] + Flatten(matches[1..])) == Elems(matches[0]) + Elems(Flatten(matches[1..]));
    }
  }

  /** A full round marks every node any selector matched. */
  lemma RoundMarks(t: Tree, s: State, matches: seq<seq<NodeId>>, videoContainers: seq<NodeId>)
    ensures Round(t, s, matches, videoContainers).checked == s.checked + AllElems(matches) + Elems(videoContainers)
  {
    ScanContainersIsOnePass(t, s, matches);
    ScanMarks(t, s, Flatten(matches), false);
    ScanMarks(t, ScanContainers(t, s, matches), videoContainers, true);
  }

  /**
   * A second round with no change to the document processes nothing, adds
   * no control and sets up no watcher: it returns the state unchanged.
   */
  lemma RoundTwice(t: Tree, s: State, matches: seq<seq<NodeId>>, videoContainers: seq<NodeId>)
    ensures Round(t, Round(t, s, matches, videoContainers), matches, videoContainers)
            == Round(t, s, matches, videoContainers)
  {
    var r := Round(t, s, matches, videoContainers);
    RoundMarks(t, s, matches, videoContainers);
    ScanContainersIsOnePass(t, r, matches);
    ScanIdle(t, r, Flatten(matches), false);
    ScanIdle(t, r, videoContainers, true);
  }

  /**
   * Within one engine lifetime a node is processed at most once: whatever
   * a pass processed, no later pass of either family processes again, from
   * any state whose checked set `later` still holds what this pass marked.
   * Every step but `destroy()` only adds to the checked set.
   */
  lemma NeverTwice(t: Tree, s: State, cs1: seq<NodeId>, video1: bool, later: set<NodeId>, cs2: seq<NodeId>)
    requires Scan(t, s, cs1, video1).checked <= later
    ensures forall n | n in Processed(s.checked, cs1) :: n !in Processed(later, cs2)
  {
    ScanMarks(t, s, cs1, video1);
  }

  /**
   * In a round, a node matched by a `CONTAINERS` selector and by the video
   * selector is processed by the container pass only.
   */
  lemma SharedNodeTakesContainerPath(t: Tree, s: State, matches: seq<seq<NodeId>>, videoContainers: seq<NodeId>)
    ensures Processed(ScanContainers(t, s, matches).checked, videoContainers)
            == Processed(s.checked + AllElems(matches), videoContainers)
    ensures forall n | n in AllElems(matches) :: n !in Processed(ScanContainers(t, s, matches).checked, videoContainers)
  {
    ScanContainersIsOnePass(t, s, matches);
    ScanMarks(t, s, Flatten(matches), false);
  }

  /**
   * A pass gives every node it marks exactly one watcher: afterwards the
   * watched nodes are the marked nodes, every watcher that existed is kept
   * with its pending callback, and every new one is fresh.
   */
  lemma {:induction false} ScanPairs(t: Tree, s: State, cs: seq<NodeId>, video: bool)
    requires s.observers.Keys == s.checked
    ensures var r := Scan(t, s, cs, video);
      && r.observers.Keys == r.checked
      && (forall e | e in s.observers :: e in r.observers && r.observers[e] == s.observers[e])
      && (forall e | e in r.observers && e !in s.observers :: r.observers[e] == FreshWatcher)
    decreases |cs|
  {
    if cs != [] {
      var s1 := Visit(t, s, cs[0], video);
      ScanPairs(t, s1, cs[1..], video);
    }
  }

  /** One turn of a scan keeps every element at one control at most and watchers paired with checked nodes. */
  lemma VisitKeepsInvariant(t: Tree, s: State, c: NodeId, video: bool)
    requires DistinctParents(s.buttons) && s.observers.Keys == s.checked
    ensures var r := Visit(t, s, c, video);
      DistinctParents(r.buttons) && r.observers.Keys == r.checked
  {
    if c !in s.checked {
      if video {
        AddVideoButtonSpec(t, s.buttons, c);
      } else {
        AddImageButtonsSpec(t, s.buttons, Some(c));
      }
    }
  }

  /** A pass never gives an element a second control. */
  lemma {:induction false} ScanDistinct(t: Tree, s: State, cs: seq<NodeId>, video: bool)
    requires DistinctParents(s.buttons)
    ensures DistinctParents(Scan(t, s, cs, video).buttons)
    decreases |cs|
  {
    if cs != [] {
      var c := cs[0];
      if c !in s.checked {
        if video {
          AddVideoButtonSpec(t, s.buttons, c);
        } else {
          AddImageButtonsSpec(t, s.buttons, Some(c));
        }
      }
      ScanDistinct(t, Visit(t, s, c, video), cs[1..], video);
    }
  }

  /** A round keeps every element at no more than one control, and pairs watchers with marked nodes. */
  lemma RoundKeepsInvariant(t: Tree, s: State, matches: seq<seq<NodeId>>, videoContainers: seq<NodeId>)
    requires DistinctParents(s.buttons) && s.observers.Keys == s.checked
    ensures var r := Round(t, s, matches, videoContainers);
      DistinctParents(r.buttons) && r.observers.Keys == r.checked && s.buttons <= r.buttons
  {
    var s1 := ScanContainers(t, s, matches);
    ScanContainersIsOnePass(t, s, matches);
    ScanDistinct(t, s, Flatten(matches), false);
    ScanPairs(t, s, Flatten(matches), false);
    ScanExtends(t, s, Flatten(matches), false);
    ScanDistinct(t, s1, videoContainers, true);
    ScanPairs(t, s1, videoContainers, true);
    ScanExtends(t, s1, videoContainers, true);
  }

  /** After a video pass, every container it processed holds a control. */
  lemma {:induction false} VideoScanCovers(t: Tree, s: State, cs: seq<NodeId>)
    ensures forall c | c in cs && c !in s.checked :: HasControl(t, Scan(t, s, cs, true).buttons, c)
    decreases |cs|
  {
    if cs != [] {
      var c0 := cs[0];
      var s1 := Visit(t, s, c0, true);
      var r := Scan(t, s, cs, true);
      VideoScanCovers(t, s1, cs[1..]);
      ScanExtends(t, s1, cs[1..], true);
      if c0 !in s.checked {
        AddVideoButtonSpec(t, s.buttons, c0);
        HasControlPrefix(t, s1.buttons, r.buttons, c0);
      }
      forall c | c in cs && c !in s.checked ensures HasControl(t, r.buttons, c) {
        if c != c0 {
          assert c in cs[1..] && c !in s1.checked;
        }
      }
    }
  }

  /**
   * After a container pass, every image below a container it processed that
   * has a parent and a non-empty `src` has a control in its parent.
   */
  lemma {:induction false} ContainerScanCovers(t: Tree, s: State, cs: seq<NodeId>)
    ensures var r := Scan(t, s, cs, false);
      forall c, m | c in cs && c !in s.checked && m in QueryAll(t, c, ImgTag) && m in t.parent && Src(t, m) != ""
        :: HasControl(t, r.buttons, t.parent[m])
    decreases |cs|
  {
    if cs != [] {
      var c0 := cs[0];
      var s1 := Visit(t, s, c0, false);
      var r := Scan(t, s, cs, false);
      ContainerScanCovers(t, s1, cs[1..]);
      ScanExtends(t, s1, cs[1..], false);
      if c0 !in s.checked {
        AddImageButtonsSpec(t, s.buttons, Some(c0));
        forall m | m in QueryAll(t, c0, ImgTag) && m in t.parent && Src(t, m) != ""
          ensures HasControl(t, r.buttons, t.parent[m])
        {
          HasControlPrefix(t, s1.buttons, r.buttons, t.parent[m]);
        }
      }
      forall c, m | c in cs && c !in s.checked && m in QueryAll(t, c, ImgTag) && m in t.parent && Src(t, m) != ""
        ensures HasControl(t, r.buttons, t.parent[m])
      {
        if c != c0 {
          assert c in cs[1..] && c !in s1.checked;
        }
      }
    }
  }

  // ---------------------------------------------------------- watcher facts

  /**
   * A watcher's callback changes nothing unless some record added nodes or
   * changed `src`; then it re-checks its element by the video path exactly
   * when the element matches the video selector, and a repeat changes nothing.
   */
  lemma RecheckSpec(t: Tree, bs: seq<Control>, e: NodeId, ms: seq<Mutation>, matchesVideo: bool)
    ensures !Relevant(ms) ==> Recheck(t, bs, e, ms, matchesVideo) == bs
    ensures Relevant(ms) && matchesVideo ==> Recheck(t, bs, e, ms, matchesVideo) == AddVideoButton(t, bs, Some(e))
    ensures Relevant(ms) && !matchesVideo ==> Recheck(t, bs, e, ms, matchesVideo) == AddImageButtons(t, bs, Some(e))
    ensures Relevant(ms) && matchesVideo ==> HasControl(t, Recheck(t, bs, e, ms, matchesVideo), e)
    ensures Recheck(t, Recheck(t, bs, e, ms, matchesVideo), e, ms, matchesVideo) == Recheck(t, bs, e, ms, matchesVideo)
  {
    AddVideoButtonSpec(t, bs, e);
    AddImageButtonsSpec(t, bs, Some(e));
  }

  // --------------------------------------------------------- dispatch facts

  /** `v` is the first `<video>` below `c` in document order. */
  predicate FirstVideo(t: Tree, c: NodeId, v: NodeId, k: nat)
  {
    k < |t.order| && t.order[k] == v && Matches(t.tag, t.parent, c, VideoTag, v)
    && forall j | 0 <= j < k :: !Matches(t.tag, t.parent, c, VideoTag, t.order[j])
  }

  /**
   * A click sends at most one message: none when the URL it resolves is
   * empty, otherwise one `download` request with that URL unmodified and the
   * control's type.
   */
  lemma DownloadSpec(t: Tree, b: DownloadButton)
    ensures |Download(t, b)| <= 1
    ensures Download(t, b) == [] <==> ResolveUrl(t, b) == ""
    ensures Download(t, b) != [] ==> Download(t, b)[0] == Runtime.Message("download", ResolveUrl(t, b), TypeName(b.mediaType))
  {
  }

  /**
   * A video control sends the `src` of the first `<video>` below its
   * container in document order; an image control sends its image's `src`;
   * either sends nothing when that `src` is empty, and nothing at all when
   * the container holds no `<video>`.
   */
  lemma ClickSendsCurrentSource(t: Tree, c: NodeId, v: NodeId, k: nat)
    ensures FirstVideo(t, c, v, k) ==>
      Download(t, DownloadButton(c, Video)) == (if Src(t, v) == "" then [] else [Runtime.Message("download", Src(t, v), "video")])
    ensures (forall n | n in t.order :: !Matches(t.tag, t.parent, c, VideoTag, n)) ==> Download(t, DownloadButton(c, Video)) == []
    ensures Download(t, DownloadButton(c, Image)) == (if Src(t, c) == "" then [] else [Runtime.Message("download", Src(t, c), "image")])
  {
    if FirstVideo(t, c, v, k) {
      SelectFirst(t.tag, t.parent, c, VideoTag, t.order, k);
    }
    var all := QueryAll(t, c, VideoTag);
    if all != [] {
      assert all[0] in all;
    }
  }

  /**
   * The URL is resolved at click time: when the first `<video>` of a
   * container gets a new `src` after its control was created, the click sends
   * the new `src`.
   */
  lemma ClickResolvesLazily(t: Tree, c: NodeId, v: NodeId, k: nat, u: string)
    requires FirstVideo(t, c, v, k) && u != ""
    ensures Download(t.(src := t.src[v := u]), DownloadButton(c, Video)) == [Runtime.Message("download", u, "video")]
  {
    var t' := t.(src := t.src[v := u]);
    ClickSendsCurrentSource(t', c, v, k);
  }
}
