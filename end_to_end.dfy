/**
 * Each content script with the background script it ships with: what a click
 * on a control finally asks `chrome.downloads.download` for.
 */
module EndToEnd {
  import opened Basics
  import opened Dom
  import Runtime
  import Resolution
  import Detection
  import LegacyContent
  import Background
  import LegacyBackground

  /** The extension a control of type `mt` is saved with, by either background script. */
  function SavedExtension(mt: MediaType): string
  {
    match mt
    case Image => ".png"
    case Video => ".mp4"
  }

  /** `f` ends in `ext`. */
  predicate EndsWith(f: string, ext: string)
  {
    |ext| <= |f| && f[|f| - |ext|..] == ext
  }

  /**
   * src/content.js with src/background.js: a click that sends a message
   * leads to one download of the URL resolved at click time, under a
   * `jimeng_` name that ends in the extension of the control's type, and the
   * answer reports whether the download call went through.
   */
  lemma SrcClickIsSaved(t: Tree, b: Detection.DownloadButton, iso: string, fails: bool)
    ensures forall m | m in Detection.Download(t, b) ::
      && Background.OnMessage(m, iso, fails).call.Some?
      && Background.OnMessage(m, iso, fails).call.value.url == Detection.ResolveUrl(t, b)
      && Background.OnMessage(m, iso, fails).call.value.saveAs
      && Background.OnMessage(m, iso, fails).response == Some(Background.Response(!fails))
      && EndsWith(Background.OnMessage(m, iso, fails).call.value.filename, SavedExtension(b.mediaType))
  {
    Detection.DownloadSpec(t, b);
    Background.FilenameShape(TypeName(b.mediaType), iso);
  }

  /**
   * content.js with background.js: every click leads to one download of the
   * URL captured when the control was created, with the resolution token of
   * an image URL rewritten, under a `jimeng_` name that ends in the
   * extension of the control's type.
   */
  lemma LegacyClickIsSaved(b: LegacyContent.Control, ms: nat)
    ensures var r := LegacyBackground.OnMessage(LegacyContent.Click(b), ms);
      && r.Some?
      && r.value.url == (if b.handler.mediaType == Image then Resolution.Rewrite(b.handler.url) else b.handler.url)
      && r.value.saveAs
      && r.value.filename[..7] == "jimeng_"
      && EndsWith(r.value.filename, SavedExtension(b.handler.mediaType))
  {
    var mt := b.handler.mediaType;
    LegacyBackground.FilenameShape(TypeName(mt), ms);
  }
}
