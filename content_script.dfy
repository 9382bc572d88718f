/**
 * src/content.js run in place: the `MediaDownloader` engine with its
 * `checkedElements` set, `observers` map and `checkInterval` handle, and the
 * click handler of a `DownloadButton`. Host events (the polling interval
 * firing, mutation records arriving, a debounce timeout falling due) are
 * methods the host calls; selector matches are passed in as ordered sequences.
 */
module ContentScript {
  import opened Basics
  import opened Dom
  import opened Detection
  import Debounce
  import Runtime

  /** `new DownloadButton(mediaElement, type)` then the click: `handleClick` calls `download`. */
  method HandleClick(page: Page<DownloadButton>, b: DownloadButton, outbox: Runtime.Outbox)
    modifies outbox
    ensures outbox.sent == old(outbox.sent) + Download(page.tree, b)
  {
    var url := ResolveUrl(page.tree, b);
    if url == "" {
      return;
    }
    outbox.SendMessage(Runtime.Message("download", url, TypeName(b.mediaType)));
  }

  class MediaDownloader {
    /** The document the engine works on. */
    const page: Page<DownloadButton>
    var observers: map<NodeId, Watcher>
    var checkedElements: set<NodeId>
    /** The handle `setInterval` returned, or `null`. */
    var checkInterval: Option<nat>
    /** Whether the host still runs that interval (`clearInterval` stops it). */
    var intervalRunning: bool
    /** The page-wide observer's debounced callback; that observer is never disconnected. */
    var pageCallback: Debounce.Timer<seq<Mutation>>

    /** Every processed node has exactly one watcher, and no element holds two controls. */
    ghost predicate Valid()
      reads this, page
    {
      observers.Keys == checkedElements && DistinctParents(page.buttons)
      && (intervalRunning ==> checkInterval.Some?)
    }

    /** The engine's state and the page's controls, as one value. */
    function Snapshot(): State
      reads this, page
    {
      State(checkedElements, observers, page.buttons)
    }

    /**
     * `new MediaDownloader()`: the constructor runs `init()`, which scans once
     * (`matches` are the `CONTAINERS` selectors' matches, `videoContainers`
     * the video selector's), starts the interval (the host returns
     * `intervalHandle`) and connects the page-wide observer.
     */
    constructor (page: Page<DownloadButton>, intervalHandle: nat, matches: seq<seq<NodeId>>, videoContainers: seq<NodeId>)
      requires |matches| == |Containers|
      requires DistinctParents(page.buttons)
      modifies page
      ensures Valid() && this.page == page && page.tree == old(page.tree)
      ensures Snapshot() == Round(page.tree, State({}, map[], old(page.buttons)), matches, videoContainers)
      ensures checkInterval == Some(intervalHandle) && intervalRunning && pageCallback == Debounce.Idle
    {
      this.page := page;
      observers := map[];
      checkedElements := {};
      checkInterval := None;
      intervalRunning := false;
      pageCallback := Debounce.Idle;
      new;
      Init(intervalHandle, matches, videoContainers);
    }

    /** `init()`: the first round, then `setInterval`, then `setupPageObserver()`. */
    method Init(intervalHandle: nat, matches: seq<seq<NodeId>>, videoContainers: seq<NodeId>)
      requires Valid() && |matches| == |Containers|
      modifies this, page
      ensures Valid() && page.tree == old(page.tree)
      ensures Snapshot() == Round(page.tree, old(Snapshot()), matches, videoContainers)
      ensures checkInterval == Some(intervalHandle) && intervalRunning && pageCallback == Debounce.Idle
    {
      CheckForContainers(matches);
      CheckForVideoContainers(videoContainers);
      checkInterval := Some(intervalHandle);
      intervalRunning := true;
      SetupPageObserver();
    }

    /** `setupPageObserver()`: a page-wide observer whose debounced callback has nothing pending. */
    method SetupPageObserver()
      modifies this`pageCallback
      ensures pageCallback == Debounce.Idle
    {
      pageCallback := Debounce.Idle;
    }

    /** `checkForVideoContainers()` over the video selector's matches, in document order. */
    method CheckForVideoContainers(videoContainers: seq<NodeId>)
      requires Valid()
      modifies this, page
      ensures Valid() && page.tree == old(page.tree)
      ensures Snapshot() == Scan(page.tree, old(Snapshot()), videoContainers, true)
      ensures checkInterval == old(checkInterval) && intervalRunning == old(intervalRunning)
      ensures pageCallback == old(pageCallback)
    {
      ScanMatches(videoContainers, true);
    }

    /** One selector's `querySelectorAll(...).forEach(...)`, by the video or the image path. */
    method ScanMatches(found: seq<NodeId>, video: bool)
      requires Valid()
      modifies this, page
      ensures Valid() && page.tree == old(page.tree)
      ensures Snapshot() == Scan(page.tree, old(Snapshot()), found, video)
      ensures checkInterval == old(checkInterval) && intervalRunning == old(intervalRunning)
      ensures pageCallback == old(pageCallback)
    {
      var i := 0;
      while i < |found|
        invariant 0 <= i <= |found|
        invariant Valid() && page.tree == old(page.tree)
        invariant Scan(page.tree, old(Snapshot()), found, video) == Scan(page.tree, Snapshot(), found[i..], video)
        invariant checkInterval == old(checkInterval) && intervalRunning == old(intervalRunning)
        invariant pageCallback == old(pageCallback)
      {
        VisitContainer(found[i], video);
        assert found[i..][1..] == found[i + 1..];
        i := i + 1;
      }
    }

    /** `checkForContainers()`: one pass per `CONTAINERS` selector, in order, over its matches. */
    method CheckForContainers(matches: seq<seq<NodeId>>)
      requires Valid() && |matches| == |Containers|
      modifies this, page
      ensures Valid() && page.tree == old(page.tree)
      ensures Snapshot() == ScanContainers(page.tree, old(Snapshot()), matches)
      ensures checkInterval == old(checkInterval) && intervalRunning == old(intervalRunning)
      ensures pageCallback == old(pageCallback)
    {
      var s := 0;
      while s < |matches|
        invariant 0 <= s <= |matches|
        invariant Valid() && page.tree == old(page.tree)
        invariant ScanContainers(page.tree, old(Snapshot()), matches) == ScanContainers(page.tree, Snapshot(), matches[s..])
        invariant checkInterval == old(checkInterval) && intervalRunning == old(intervalRunning)
        invariant pageCallback == old(pageCallback)
      {
        ScanMatches(matches[s], false);
        assert matches[s..][1..] == matches[s + 1..];
        s := s + 1;
      }
    }

    /**
     * The `forEach` callback of both scans: skip a node already in
     * `checkedElements`; otherwise mark it, watch it, and inject by the
     * video path (`video`) or the image path.
     */
    method VisitContainer(container: NodeId, video: bool)
      requires Valid()
      modifies this, page
      ensures Valid() && page.tree == old(page.tree)
      ensures Snapshot() == Visit(page.tree, old(Snapshot()), container, video)
      ensures checkInterval == old(checkInterval) && intervalRunning == old(intervalRunning)
      ensures pageCallback == old(pageCallback)
    {
      VisitKeepsInvariant(page.tree, Snapshot(), container, video);
      if container !in checkedElements {
        checkedElements := checkedElements + {container};
        SetupObserverForElement(container);
        if video {
          AddVideoDownloadButton(Some(container));
        } else {
          AddDownloadButtonsToElement(Some(container));
        }
      }
    }

    /** `setupObserverForElement(element)`: a fresh watcher unless the element has one. */
    method SetupObserverForElement(element: NodeId)
      modifies this`observers
      ensures observers == SetupObserver(old(observers), element)
    {
      if element !in observers {
        observers := observers[element := FreshWatcher];
      }
    }

    /** `addVideoDownloadButton(container)`. */
    method AddVideoDownloadButton(container: Option<NodeId>)
      modifies page
      ensures page.tree == old(page.tree)
      ensures page.buttons == AddVideoButton(page.tree, old(page.buttons), container)
    {
      if container.None? || HasControl(page.tree, page.buttons, container.value) {
        return;
      }
      page.AppendChild(container.value, DownloadButton(container.value, Video));
    }

    /** `addDownloadButtonsToElement(container)`: the `images.forEach` loop. */
    method AddDownloadButtonsToElement(container: Option<NodeId>)
      modifies page
      ensures page.tree == old(page.tree)
      ensures page.buttons == AddImageButtons(page.tree, old(page.buttons), container)
    {
      if container.None? {
        return;
      }
      var images := QueryAll(page.tree, container.value, ImgTag);
      var i := 0;
      while i < |images|
        invariant 0 <= i <= |images|
        invariant page.tree == old(page.tree)
        invariant ImagePass(page.tree, old(page.buttons), images) == ImagePass(page.tree, page.buttons, images[i..])
      {
        var image := images[i];
        ghost var before := page.buttons;
        if ShouldAddButton(page.tree, page.buttons, image) {
          page.AppendChild(page.tree.parent[image], DownloadButton(image, Image));
        }
        assert page.buttons == AddImageButton(page.tree, before, image);
        assert images[i..][1..] == images[i + 1..];
        i := i + 1;
      }
    }

    /** The interval fires: a round, unless `destroy()` cleared it. */
    method OnInterval(matches: seq<seq<NodeId>>, videoContainers: seq<NodeId>)
      requires Valid() && |matches| == |Containers|
      modifies this, page
      ensures Valid() && page.tree == old(page.tree)
      ensures Snapshot() == if old(intervalRunning) then Round(page.tree, old(Snapshot()), matches, videoContainers) else old(Snapshot())
      ensures checkInterval == old(checkInterval) && intervalRunning == old(intervalRunning)
      ensures pageCallback == old(pageCallback)
    {
      if intervalRunning {
        CheckForContainers(matches);
        CheckForVideoContainers(videoContainers);
      }
    }

    /** The page-wide observer receives records at time `now`: its debounced callback is re-armed. */
    method OnPageMutations(records: seq<Mutation>, now: int)
      modifies this`pageCallback
      ensures pageCallback == Debounce.Invoke(old(pageCallback), records, now, ObserverDebounceMs)
    {
      pageCallback := Debounce.Pending(records, now + ObserverDebounceMs);
    }

    /** The clock reaches `now`: if the page-wide callback falls due, a round. */
    method OnPageTimer(now: int, matches: seq<seq<NodeId>>, videoContainers: seq<NodeId>)
      requires Valid() && |matches| == |Containers|
      modifies this, page
      ensures Valid() && page.tree == old(page.tree)
      ensures pageCallback == Debounce.Elapse(old(pageCallback), now).0
      ensures Snapshot() == if Debounce.Elapse(old(pageCallback), now).1.Some?
                            then Round(page.tree, old(Snapshot()), matches, videoContainers) else old(Snapshot())
      ensures checkInterval == old(checkInterval) && intervalRunning == old(intervalRunning)
    {
      var (next, fired) := Debounce.Elapse(pageCallback, now);
      pageCallback := next;
      if fired.Some? {
        CheckForContainers(matches);
        CheckForVideoContainers(videoContainers);
      }
    }

    /** A watched element's observer receives records at time `now`: its debounced callback is re-armed. */
    method OnElementMutations(element: NodeId, records: seq<Mutation>, now: int)
      requires Valid()
      modifies this`observers
      ensures Valid()
      ensures observers == if element in old(observers)
        then old(observers)[element := Watcher(Debounce.Invoke(old(observers)[element].callback, records, now, ObserverDebounceMs))]
        else old(observers)
    {
      if element in observers {
        observers := observers[element := Watcher(Debounce.Invoke(observers[element].callback, records, now, ObserverDebounceMs))];
      }
    }

    /**
     * The clock reaches `now`: if `element`'s callback falls due, it re-checks
     * that element alone; `matchesVideo` is `element.matches(VIDEO_CONTAINER_SELECTOR)`.
     */
    method OnElementTimer(element: NodeId, now: int, matchesVideo: bool)
      requires Valid()
      modifies this`observers, page
      ensures Valid() && page.tree == old(page.tree) && checkedElements == old(checkedElements)
      ensures element in old(observers) ==>
        var (next, fired) := Debounce.Elapse(old(observers)[element].callback, now);
        && observers == old(observers)[element := Watcher(next)]
        && page.buttons == (if fired.Some? then Recheck(page.tree, old(page.buttons), element, fired.value, matchesVideo)
                            else old(page.buttons))
      ensures element !in old(observers) ==> observers == old(observers) && page.buttons == old(page.buttons)
    {
      if element in observers {
        var (next, fired) := Debounce.Elapse(observers[element].callback, now);
        observers := observers[element := Watcher(next)];
        if fired.Some? {
          var records := fired.value;
          RecheckSpec(page.tree, page.buttons, element, records, matchesVideo);
          if Relevant(records) {
            if matchesVideo {
              AddVideoButtonSpec(page.tree, page.buttons, element);
              AddVideoDownloadButton(Some(element));
            } else {
              AddImageButtonsSpec(page.tree, page.buttons, Some(element));
              AddDownloadButtonsToElement(Some(element));
            }
          }
        }
      }
    }

    /**
     * `destroy()`: clears the interval if the handle is truthy (set, and not
     * the number 0, which browsers never hand out), disconnects and forgets
     * every watcher, and empties `checkedElements`. The page-wide observer is
     * left connected.
     */
    method Destroy()
      requires Valid()
      modifies this
      ensures Valid()
      ensures observers == map[] && checkedElements == {}
      ensures intervalRunning == (old(intervalRunning) && !(old(checkInterval).Some? && old(checkInterval).value != 0))
      ensures checkInterval == old(checkInterval) && pageCallback == old(pageCallback)
    {
      if checkInterval.Some? && checkInterval.value != 0 {
        intervalRunning := false;
      }
      observers := map[];
      checkedElements := {};
    }
  }
}
