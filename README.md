# jimeng_no_watermark in Dafny

A browser extension for the Jimeng image and video site. It puts a
`download-btn` control next to every generated image and video. A click on a
control sends a `download` message to the background script. The background
script saves the file with `chrome.downloads.download` under a `jimeng_…`
name.

The repository holds two generations of the extension. This project models
both:

- **src/content.js and src/background.js.** This is the current generation.
  A `MediaDownloader` engine scans three layout-container selectors and a
  video-container selector. A `checkedElements` set makes sure each container
  is processed only once. A `observers` map gives every processed container
  one debounced `MutationObserver`. A one-second interval and a page-wide
  debounced observer re-run the scan. Controls resolve their URL when they
  are clicked. The background script picks the extension and prefix from a
  `FILE_TYPES` table and stamps the name with the ISO time, with `:` and `.`
  replaced by `-`.
- **content.js and background.js.** This is the older generation. One
  document-wide pass gives the parent of every matched `img` and `video` one
  control. The pass runs again whenever a mutation adds nodes. A control
  captures its element's `src` when it is created. Before an image URL is
  sent, its first `\d+:\d+` token is replaced by `2400:2400`. The background
  script names the file after the millisecond clock.

The modules:

- `Basics`: `Option`, predicates for where a character occurs in a string,
  and `IsSubseq`, "these elements, in this order, with some left out".
- `Dom`: the host page as a value `Tree` (tags, parents, `src`, document
  order), `querySelectorAll` as `Select`, and the injected controls as
  `Button`s kept in a `Page` in the order they were appended. "Has a
  `download-btn` below it" is `HasControl`.
- `Runtime`: the message and download-options objects, and the
  `sendMessage` channel as an `Outbox`.
- `Debounce`: `debounce(func, wait)` as a timer state machine. The `timeout`
  each debounced closure captures is a field of the engine that the engine's
  methods update: `pageCallback` for the page observer, and each watcher's
  `callback` in the `observers` map. `later` runs `func` with the arguments
  of the last call only (src/content.js:20), so a watcher or the page
  observer that receives several record batches before it falls due acts
  on the last batch alone.
- `Detection`: the src/content.js engine as functions on a `State` value,
  with the lemmas about it.
- `ContentScript`: the `MediaDownloader` class. Its methods update its fields
  in place and are proved equal to the `Detection` functions.
- `Resolution`: `url.replace(/\d+:\d+/, '2400:2400')`, proved against a
  declarative definition of the regular expression's leftmost match.
- `LegacyContent`: content.js.
- `Background`: src/background.js.
- `LegacyBackground`: background.js.
- `EndToEnd`: a click on a control, followed by what its background script saves.

Host events are methods that the host calls:

- the interval firing;
- mutation records arriving;
- a debounce timeout falling due.

Inputs to the model:

- Selector matches are ordered sequences.
- `element.matches(VIDEO_CONTAINER_SELECTOR)` is a boolean.
- The clock reading is a parameter.
- Whether the download call fails is a parameter.

Points where the code behaves differently from what a reader might expect.
The model follows the code:

- `destroy()` never disconnects the page-wide observer. That observer lives
  in a local of `setupPageObserver` (src/content.js:97-109). So a page
  mutation after `destroy()` still runs a full scan. Because
  `checkedElements` was emptied, that scan processes everything again.
- The engine's watchers re-check only the element they watch. Nothing re-binds
  a control when a modal's content changes. A control for a video resolves
  the first `<video>` under its container at click time
  (src/content.js:50-53).
- For a type it does not know, src/background.js falls back to `.png`
  (src/background.js:15). background.js falls back to `.mp4`
  (background.js:9).

## Model

| member | source | states |
|---|---|---|
| `Debounce.BurstKeepsLast` | src/content.js:13-23 | a burst of calls, with any clock ticks between them that come before the latest call's deadline, leaves exactly the last call's arguments due `wait` after it, whatever was pending, and runs nothing |
| `Debounce.LastCallWins` | src/content.js:15-21 | after such a burst (ticks before the deadline allowed) and a tick at least `wait` after the last call, `func` has run once with the last call's arguments, nothing stays scheduled, and a later tick runs nothing |
| `Debounce.AtMostOncePerCall` | src/content.js:16-21 | `func` runs no more often than the debounced function is called, plus one for a call pending at the start |
| `Debounce.Invoke` | src/content.js:15-22 | definition only (no contract): `executedFunction` clears the pending timeout and arms one with its own arguments, due `wait` later. `Debounce.BurstKeepsLast` states its meaning |
| `Debounce.Elapse` | src/content.js:16-19 | definition only (no contract): a due `later` clears the timeout and runs `func` with the arguments it holds. `Debounce.LastCallWins` and `Debounce.AtMostOncePerCall` state its meaning |
| `Dom.Select` | src/content.js:187 | `querySelectorAll` returns exactly the matching nodes below the root, with no extra nodes, as a subsequence of the document order, each as often as it occurs there, so exactly the document order filtered to the matches |
| `Dom.QueryAll` | src/content.js:187 | definition only (no contract): `querySelectorAll` below an element, over the document order. `Dom.Select`'s contract states its meaning |
| `Dom.QueryFirst` | src/content.js:52 | definition only (no contract): `querySelector`, the head of `QueryAll`. `Dom.SelectFirst` states its meaning |
| `Dom.SelectFirst` | src/content.js:52 | `querySelector` returns the first matching node in document order |
| `Dom.HasControl` | src/content.js:212 | definition only (no contract): the `.download-btn` query below an element finds a control. `Dom.HasControlAppend` states how appending changes it |
| `Dom.HasControlAppend` | src/content.js:180 | appending a control adds exactly the nodes above it to those that have a `download-btn` below them |
| `Dom.AppendKeepsDistinct` | src/content.js:170 | appending a control where none lies below keeps every element at one control at most |
| `Dom.Page.AppendChild` | src/content.js:192 | `appendChild` adds one control at the end and leaves the host's elements alone |
| `Runtime.Outbox.SendMessage` | src/content.js:60-64 | `sendMessage` appends exactly one message to what was sent |
| `Detection.Processed` | src/content.js:114-120 | the nodes a pass processes are exactly the given nodes not yet checked, with no repetition, as a subsequence of the matches; `Detection.ProcessedOrder` pins the order when a node is matched twice |
| `Detection.ProcessedOrder` | src/content.js:114-120 | nodes are processed in the order of their first match: a node processed before another occurs among the matches before every occurrence of that other node, also when a node is matched twice |
| `Detection.ShouldAddButton` | src/content.js:209-215 | definition only (no contract): the image has a parent, the parent holds no control, and the `src` is not empty. `Detection.ImagePassSound` and `Detection.ImagePassComplete` state what the image loop does with it |
| `Detection.AddVideoButton` | src/content.js:169-181 | definition only (no contract); `Detection.AddVideoButtonSpec` states its meaning |
| `Detection.AddImageButtons` | src/content.js:183-195 | definition only (no contract); `Detection.AddImageButtonsSpec` states its meaning |
| `Detection.Scan` | src/content.js:114-120 | definition only (no contract): one ordered pass over a selector's matches. `Detection.ScanMarks`, `ScanIdle`, `ScanExtends`, `ScanProcessesOnlyNew`, `ScanPairs` and `ScanDistinct` state its meaning |
| `Detection.ScanContainers` | src/content.js:123-135 | definition only (no contract); `Detection.ScanContainersIsOnePass` states its meaning |
| `Detection.Round` | src/content.js:86-89 | definition only (no contract): `checkForContainers` then `checkForVideoContainers`. `Detection.RoundMarks`, `RoundTwice` and `RoundKeepsInvariant` state its meaning |
| `Detection.Recheck` | src/content.js:140-155 | definition only (no contract); `Detection.RecheckSpec` states its meaning |
| `Detection.ResolveUrl` | src/content.js:50-53 | definition only (no contract); `Detection.ClickSendsCurrentSource` and `Detection.ClickResolvesLazily` state its meaning |
| `Detection.Download` | src/content.js:47-64 | definition only (no contract); `Detection.DownloadSpec` states its meaning |
| `Detection.ImagePassSound` | src/content.js:188-194 | every control the image loop appends sits on the parent of one of the images, is bound to that image, and needed a non-empty `src` and a parent with no control before the loop |
| `Detection.AddImageButton` | src/content.js:189-193 | definition only (no contract): one turn of the image loop. `Detection.ImagePassSound` and `Detection.ImagePassComplete` state its meaning |
| `Detection.ImagePass` | src/content.js:188-194 | definition only (no contract): the image loop in order. `Detection.ImagePassSound`, `ImagePassComplete`, `ImagePassDistinct` and `ImagePassIdle` state its meaning |
| `Detection.ImagePassComplete` | src/content.js:188-194 | after the image loop, the parent of every image with a parent and a non-empty `src` holds a control |
| `Detection.ImagePassDistinct` | src/content.js:188-194 | the image loop never gives an element a second control, so images that share a parent get one control |
| `Detection.ImagePassIdle` | src/content.js:209-215 | the image loop over images whose parents all hold a control changes nothing |
| `Detection.AddImageButtonsSpec` | src/content.js:183-195 | `addDownloadButtonsToElement` does nothing for a null container; otherwise it only appends justified controls, covers every eligible image, keeps one control per element, and a repeat changes nothing |
| `Detection.SetupObserver` | src/content.js:137-166 | definition only (no contract): a fresh watcher unless the element has one. `Detection.ScanPairs` states its meaning |
| `Detection.Process` | src/content.js:116-118 | definition only (no contract): mark, watch, then inject by the video or the image path. `Detection.ScanProcessesOnlyNew` and `Detection.VideoScanCovers` state its meaning |
| `Detection.Visit` | src/content.js:115-119 | definition only (no contract): one `forEach` turn with the `checkedElements` guard. `Detection.VisitKeepsInvariant` states its meaning |
| `Detection.Relevant` | src/content.js:142-147 | definition only (no contract): some record added nodes or changed `src`. `Detection.RecheckSpec` states its meaning |
| `Detection.AddVideoButtonSpec` | src/content.js:169-181 | `addVideoDownloadButton` does nothing for null or for a container that already holds a control; otherwise it appends exactly one `video` control bound to the container. Afterwards the container holds a control, and a repeat changes nothing |
| `Detection.ScanMarks` | src/content.js:114-120 | a pass adds exactly the nodes it was given to `checkedElements` |
| `Detection.ScanIdle` | src/content.js:115 | a pass over nodes all already checked changes nothing |
| `Detection.ScanExtends` | src/content.js:112-135 | a pass only appends controls |
| `Detection.ScanProcessesOnlyNew` | src/content.js:114-120 | a pass processes exactly the not-yet-checked nodes, each once, in the order of their first match (`Detection.ProcessedOrder`) |
| `Detection.ScanAppend` | src/content.js:124-134 | a pass over `a + b` is a pass over `a` followed by a pass over `b` |
| `Detection.ScanContainersIsOnePass` | src/content.js:123-135 | `checkForContainers` is one ordered pass over all three selectors' matches, so a node that several selectors match is processed once |
| `Detection.RoundMarks` | src/content.js:82-83 | a round marks every node that any selector matched |
| `Detection.RoundTwice` | src/content.js:86-89 | a second round over an unchanged document returns the state unchanged: no processing, no control, no watcher |
| `Detection.NeverTwice` | src/content.js:115-116 | a node one pass processed is not processed again by any later pass of either family, from any state whose checked set still holds what that pass marked (every step but `destroy()` only adds to it) |
| `Detection.SharedNodeTakesContainerPath` | src/content.js:82-83 | a node that both families match is processed by the container pass only |
| `Detection.ScanPairs` | src/content.js:137-166 | after a pass, the watched nodes are exactly the checked nodes. Existing watchers are kept with their pending callback, and the new ones are fresh |
| `Detection.ScanDistinct` | src/content.js:169-195 | a pass never gives an element a second control |
| `Detection.VisitKeepsInvariant` | src/content.js:115-119 | one callback turn keeps at most one control per element and keeps watchers paired with checked nodes |
| `Detection.RoundKeepsInvariant` | src/content.js:80-89 | a round keeps at most one control per element and keeps watchers paired with checked nodes, and it only appends controls |
| `Detection.VideoScanCovers` | src/content.js:112-121 | after a video pass, every container it processed holds a control |
| `Detection.ContainerScanCovers` | src/content.js:123-135 | after a container pass, every eligible image below a processed container has a control in its parent |
| `Detection.RecheckSpec` | src/content.js:140-155 | a watcher's callback does nothing unless a record added nodes or changed `src`. Then it takes the video path exactly when the element matches the video selector, and a repeat changes nothing |
| `Detection.DownloadSpec` | src/content.js:47-64 | a click sends one `download` message with the resolved URL and the control's type, or nothing exactly when that URL is empty |
| `Detection.ClickSendsCurrentSource` | src/content.js:50-53 | a video control sends the `src` of the first `<video>` below its container, or nothing if there is none. An image control sends its image's `src` unmodified |
| `Detection.ClickResolvesLazily` | src/content.js:49-53 | what a click sends depends on the page at click time, not at creation time |
| `ContentScript.HandleClick` | src/content.js:41-64 | a click appends exactly the messages `Detection.Download` gives for the page as it is |
| `ContentScript.MediaDownloader.constructor` | src/content.js:73-78 | a new engine has run one round from empty state, holds the interval handle, and its page callback has nothing pending |
| `ContentScript.MediaDownloader.Init` | src/content.js:80-93 | `init` runs one round, then records the interval and arms the page observer |
| `ContentScript.MediaDownloader.SetupPageObserver` | src/content.js:95-110 | the page observer starts with nothing pending |
| `ContentScript.MediaDownloader.CheckForVideoContainers` | src/content.js:112-121 | the video pass leaves the engine in the state of the `Scan` function over the video matches, and keeps its invariant |
| `ContentScript.MediaDownloader.ScanMatches` | src/content.js:114-120 | the `forEach` loop over one selector's matches leaves the engine in the state of `Scan` over them, keeps its invariant, and leaves the interval and the page callback alone |
| `ContentScript.MediaDownloader.VisitContainer` | src/content.js:115-119 | one callback turn leaves the engine in the state `Visit` gives: a node already checked is skipped; otherwise it is marked, watched and given controls |
| `ContentScript.MediaDownloader.CheckForContainers` | src/content.js:123-135 | the loop over the selectors leaves the engine in the state of `ScanContainers` over the three selectors' matches |
| `ContentScript.MediaDownloader.SetupObserverForElement` | src/content.js:137-167 | an element gets a fresh watcher unless it already has one |
| `ContentScript.MediaDownloader.AddVideoDownloadButton` | src/content.js:169-181 | the page's controls become those of `AddVideoButton` |
| `ContentScript.MediaDownloader.AddDownloadButtonsToElement` | src/content.js:183-195 | the image loop leaves the page's controls as `AddImageButtons` gives them |
| `ContentScript.MediaDownloader.OnInterval` | src/content.js:86-89 | while the interval runs, each tick is one round; after it has been cleared, ticks do nothing |
| `ContentScript.MediaDownloader.OnPageMutations` | src/content.js:97-102 | page records re-arm the page callback with the newest records |
| `ContentScript.MediaDownloader.OnPageTimer` | src/content.js:98-101 | when the page callback falls due, one round runs; otherwise nothing changes |
| `ContentScript.MediaDownloader.OnElementMutations` | src/content.js:139-156 | records for a watched element re-arm only that element's callback; an unwatched element's records change nothing |
| `ContentScript.MediaDownloader.OnElementTimer` | src/content.js:140-155 | when a watcher's callback falls due, its element is re-checked as `Recheck` says, and other watchers and the checked set are unchanged |
| `ContentScript.MediaDownloader.Destroy` | src/content.js:218-230 | afterwards there are no watchers and no checked nodes. The interval stops only if its handle was truthy. The page observer stays armed |
| `Resolution.DigitRun` | content.js:54 | the greedy `\d+` from a position covers only digits and stops at a non-digit or the end |
| `Resolution.MatchAt` | content.js:54 | a match anchored at a position ends after it and within the string |
| `Resolution.FindFrom` | content.js:54 | the search returns the first position with a match, and no earlier position has one |
| `Resolution.FindToken` | content.js:54 | definition only (no contract): the search from the start. `Resolution.FindTokenSpec` states its meaning |
| `Resolution.Rewrite` | content.js:53-55 | definition only (no contract): `url.replace(/\d+:\d+/, '2400:2400')`. `Resolution.RewriteReplacesLeftmost`, `RewriteWithoutToken` and `RewriteIdempotent` state its meaning |
| `Resolution.MatchAtIsToken` | content.js:54 | a found match is digits, `:`, digits, and its end cannot be extended |
| `Resolution.TokenShape` | content.js:54 | in any token, the colon sits where the leading digit run ends |
| `Resolution.TokenIsMatched` | content.js:54 | wherever a token starts, the anchored matcher finds a match |
| `Resolution.FindTokenSpec` | content.js:54 | the search returns exactly the leftmost greedy token, or reports that the string holds no token |
| `Resolution.GreedyEndUnique` | content.js:54 | two tokens that start at the same place and cannot be extended are the same token |
| `Resolution.LeftmostMatchIsFound` | content.js:54 | any leftmost greedy token is the one the search returns |
| `Resolution.RewriteReplacesLeftmost` | content.js:54 | the rewrite replaces the leftmost token by `2400:2400` and keeps everything before and after it, later tokens included |
| `Resolution.RewriteWithoutToken` | content.js:54 | a URL with no token comes back unchanged |
| `Resolution.EarlyToken` | content.js:54 | a token that starts before the replaced one in the rewritten URL would give a token of the original URL starting before its leftmost match |
| `Resolution.RewriteIdempotent` | content.js:54 | rewriting an already rewritten URL changes nothing |
| `Resolution.RewriteAfterDigitFree` | content.js:54 | after a prefix without digits, a token whose end is not followed by a digit is the match, and it alone is replaced |
| `LegacyContent.AddPassSound` | content.js:20-25 | every control a loop appends sits on the parent of one of its matches, which had no control before. It carries that match's `src` at that moment and the loop's type |
| `LegacyContent.AddPass` | content.js:20-25 | definition only (no contract): one `forEach` loop of `addDownloadButtons`. `LegacyContent.AddPassSound`, `AddPassComplete`, `AddPassDistinct` and `AddPassIdle` state its meaning |
| `LegacyContent.NewControl` | content.js:22-23 | definition only (no contract): the control on a match's parent, capturing its `src` and the loop's type. `LegacyContent.AddPassSound` states its meaning |
| `LegacyContent.AddOne` | content.js:21-24 | definition only (no contract): one loop turn with the `.download-btn` guard. `LegacyContent.AddPassSound` and `LegacyContent.AddPassComplete` state its meaning |
| `LegacyContent.Pass` | content.js:17-35 | definition only (no contract); `LegacyContent.PassSpec` and `LegacyContent.PassTwice` state its meaning |
| `LegacyContent.HandleDownload` | content.js:51-63 | definition only (no contract); `LegacyContent.HandleDownloadSpec` states its meaning |
| `LegacyContent.Click` | content.js:42-46 | definition only (no contract); `LegacyContent.ClickUsesCapturedSource` states its meaning |
| `LegacyContent.AddPassComplete` | content.js:20-25 | after a loop, every match's parent holds a control |
| `LegacyContent.AddPassDistinct` | content.js:20-34 | a loop never gives a parent a second control |
| `LegacyContent.AddPassIdle` | content.js:21 | a loop over matches whose parents all hold a control changes nothing |
| `LegacyContent.PassSpec` | content.js:17-35 | `addDownloadButtons` only appends justified image or video controls, covers every match's parent, keeps one control per parent, and a repeat adds nothing |
| `LegacyContent.HandleDownloadSpec` | content.js:51-63 | one `download` message with the original type. A video URL is sent as captured. An image URL has its leftmost token replaced and the rest kept, or is unchanged without a token. A sent image URL is a fixed point of the rewrite |
| `LegacyContent.ClickUsesCapturedSource` | content.js:38-47 | a control sends the `src` its element had when the pass created it, rewritten for images |
| `LegacyContent.CreateDownloadButton` | content.js:38-48 | definition only (no contract): the handler holds the URL and type it was created with. `LegacyContent.ClickUsesCapturedSource` states its meaning |
| `LegacyContent.ForEach` | content.js:20-25 | the loop leaves the page's controls as `AddPass` gives them |
| `LegacyContent.AddDownloadButtons` | content.js:17-35 | the two loops leave the page's controls as `Pass` gives them |
| `LegacyContent.OnClick` | content.js:42-46 | each click sends exactly one message, the one `Click` gives |
| `LegacyContent.PassTwice` | content.js:17-35 | a second pass over an unchanged page adds nothing |
| `LegacyContent.OnMutations` | content.js:2-8 | however many records add nodes, the controls end up as after one pass, and unchanged if no record adds a node |
| `Background.Lookup` | src/background.js:2-15 | `image` and `video` give their table entries. An inherited property name gives `undefined` for both parts. Any other type falls back to the image entry |
| `Background.ReplaceSeparators` | src/background.js:16 | every `:` and `.` becomes `-`; every other character and the length are kept |
| `Background.Template` | src/background.js:17 | definition only (no contract); `Background.TemplateShape` states its meaning |
| `Background.GenerateFilename` | src/background.js:14-18 | definition only (no contract); `Background.FilenameShape` and `Background.FallbackIsImage` state its meaning |
| `Background.HandleDownload` | src/background.js:21-34 | definition only (no contract); `Background.OnMessageSpec` states its meaning |
| `Background.OnMessage` | src/background.js:37-49 | definition only (no contract); `Background.OnMessageSpec` states its meaning |
| `Background.LookupShape` | src/background.js:2-11 | every prefix is free of separators; every table extension is `.` plus three other characters |
| `Background.TemplateShape` | src/background.js:17 | with a separator-free prefix and timestamp, the name starts with `jimeng_` and the prefix, ends with the extension, and every separator it holds lies in the extension |
| `Background.FilenameShape` | src/background.js:14-18 | for any clock reading, the name starts with `jimeng_` and the prefix and holds no `:`. For a type that is not an inherited property name, its only `.` opens the extension, which ends the name. An inherited property name yields no `.` at all |
| `Background.FallbackIsImage` | src/background.js:15 | a type that is neither in the table nor an inherited property name gets exactly the name an image gets |
| `Background.OnMessageSpec` | src/background.js:21-48 | only `download` requests are acted on. Each makes one `saveAs` download call with the generated name, keeps the channel open, and answers `success` exactly when the call neither threw nor rejected |
| `LegacyBackground.Extension` | background.js:9 | `image` gives `.png`; every other type gives `.mp4` |
| `LegacyBackground.DecimalString` | background.js:8-10 | the timestamp prints as decimal digits without a leading zero |
| `LegacyBackground.DecimalRoundTrip` | background.js:8-10 | the printed timestamp reads back as the same number |
| `LegacyBackground.Filename` | background.js:8-10 | definition only (no contract); `LegacyBackground.FilenameShape` states its meaning |
| `LegacyBackground.OnMessage` | background.js:2-19 | definition only (no contract); `LegacyBackground.OnMessageSpec` states its meaning |
| `LegacyBackground.FilenameShape` | background.js:8-10 | the name is `jimeng_`, the timestamp (which can be read back), then the extension. It holds no `:` and exactly one `.` |
| `LegacyBackground.OnMessageSpec` | background.js:2-19 | only `download` requests lead to a call, of the requested URL with the generated name and `saveAs` |
| `LegacyBackground.FallbacksDiffer` | background.js:9 | the two background scripts agree on `image` and `video`, but an unknown type is saved as `.png` by one and `.mp4` by the other |
| `EndToEnd.SrcClickIsSaved` | src/background.js:37-48 | a message from a src control leads to one download of the URL resolved at click time, under a name ending in the type's extension, answered with the call's success |
| `EndToEnd.LegacyClickIsSaved` | background.js:2-19 | every legacy click leads to one download of the captured (image: rewritten) URL, under a `jimeng_` name ending in the type's extension |

## Left out

- CSS selector matching. The matches of `CONTAINERS`, of
  `VIDEO_CONTAINER_SELECTOR` and of content.js's selector groups are inputs
  in document order. So is `element.matches(…)`. `querySelectorAll('img')`
  and `querySelector('video')` below an element are modelled on the tree.
  The selector strings themselves, `VIDEO_CONTAINER_SELECTOR` among them,
  are not part of the model; only the number of `CONTAINERS` selectors and
  their order are.
- `getComputedStyle` and the `position: relative` tweak
  (src/content.js:173-176 and 201-204). They only affect presentation.
  `ensureProperWrapper` is kept only as "the image's parent".
- Button text, `className`, `preventDefault` and `stopPropagation`. They have
  no effect on what is downloaded.
- The `WeakSet`'s garbage-collection behaviour. `checkedElements` is a set.
- The host's scheduling. `setInterval`, `setTimeout` and the `MutationObserver`
  deliveries are events that the host calls. Concurrency between them is not
  modelled. The interval's period, `CHECK_INTERVAL` (1000 ms), only sets when the host
  fires it, so the model has no constant for it.
- The host removing or moving an injected control. The host may change
  its own elements between any two calls: every function takes the tree as
  an argument, and the engine reads `page.tree` afresh in each call. But
  `Page.buttons` only grows. A control that a re-render throws away while
  keeping its parent still counts for `HasControl`, so the model does not
  capture `shouldAddButton` (src/content.js:209-215) or content.js's guard
  (content.js:21 and 30) adding a fresh control after such a removal.
- Watcher timeouts still pending at `destroy()`. In the source they fire
  after `destroy()`. The model drops the watchers together with their pending
  callbacks.
- The top-level `try`/`catch` and the `unload` listener (src/content.js:234-246).
  So is a failure part-way through initialisation, and the `try` inside
  `download()`.
- `console` output.
- The chrome APIs, which appear in the model as an `Outbox`, a `fails`
  outcome and a `Reaction` value:
  - the asynchronous timing of `sendResponse`;
  - an exception thrown by `sendMessage` itself;
  - a `sendResponse` that throws, for example because the sending tab is
    gone when the download settles. `handleDownload` catches every failure
    of the download itself, so the listener's `.catch` branch
    (src/background.js:43-46) runs only when `sendResponse({ success })`
    throws inside the `.then` callback. It would then answer
    `{ success: false, error }`; the model has no such answer.
- The clock. `new Date().toISOString()` and `getTime()` are parameters.
- The timestamp's range. `LegacyBackground.DecimalString`: the timestamp is a
  `nat`. So a clock before 1970 is not modelled, and neither is the exponent
  notation `Number` prints for values of 10^21 and above.
- Request `type` values that are not strings. Every content script sends
  `'image'` or `'video'`.
- `LegacyContent.AddPass`: its requirement that every match have a parent
  element always holds. Each of content.js's selectors is a descendant
  selector, so every match has an ancestor. The script's `TypeError` on an
  orphan is therefore not modelled.
- Descendant search. `Dom.Descends` follows at most as many parent links as
  the tree has elements, which is exact for an acyclic parent map.
