/**
 * The background script src/background.js: the filename rule and the
 * message listener. The clock reading `new Date().toISOString()` and whether
 * `chrome.downloads.download` fails are parameters.
 */
module Background {
  import opened Basics
  import opened Runtime

  /** An entry of `FILE_TYPES`. */
  datatype FileType = FileType(extension: string, prefix: string)

  /** `FILE_TYPES`. */
  const FileTypes: map<string, FileType> :=
    map["image" := FileType(".png", "image"), "video" := FileType(".mp4", "video")]

  /**
   * The property names every object literal inherits from `Object.prototype`.
   * `FILE_TYPES[type]` yields a truthy non-entry for these, whose missing
   * `prefix` and `extension` a template literal prints as `undefined`.
   */
  const InheritedKeys: set<string> :=
    {"constructor", "hasOwnProperty", "isPrototypeOf", "propertyIsEnumerable", "toLocaleString",
     "toString", "valueOf", "__proto__", "__defineGetter__", "__defineSetter__",
     "__lookupGetter__", "__lookupSetter__"}

  /** `FILE_TYPES[type] || FILE_TYPES.image`, as the two strings the template prints. */
  function Lookup(ty: string): (r: FileType)
    ensures ty in FileTypes ==> r == FileTypes[ty]
    ensures ty !in FileTypes && ty !in InheritedKeys ==> r == FileType(".png", "image")
    ensures ty in InheritedKeys ==> r == FileType("undefined", "undefined")
  {
    if ty in FileTypes then FileTypes[ty]
    else if ty in InheritedKeys then FileType("undefined", "undefined")
    else FileTypes["image"]
  }

  predicate IsSeparator(c: char)
  {
    c == ':' || c == '.'
  }

  /** `s.replace(/[:.]/g, '-')`. */
  function ReplaceSeparators(s: string): (r: string)
    ensures |r| == |s|
    ensures forall k | 0 <= k < |s| :: r[k] == if IsSeparator(s[k]) then '-' else s[k]
    ensures forall k | 0 <= k < |r| :: !IsSeparator(r[k])
    decreases |s|
  {
    if s == [] then [] else [if IsSeparator(s[0]) then '-' else s[0]] + ReplaceSeparators(s[1..])
  }

  /** The template `jimeng_${prefix}_${timestamp}${extension}`. */
  function Template(ft: FileType, timestamp: string): string
  {
    "jimeng_" + ft.prefix + "_" + timestamp + ft.extension
  }

  /** `generateFilename(type)` at the clock reading `iso`. */
  function GenerateFilename(ty: string, iso: string): string
  {
    Template(Lookup(ty), ReplaceSeparators(iso))
  }

  /** The `{ success }` object the listener responds with. */
  datatype Response = Response(success: bool)

  /**
   * What the listener does with one request: the download call it makes, what
   * it returns (`true` keeps the channel open for the asynchronous answer;
   * `undefined` is `false`), and the response it eventually sends.
   */
  datatype Reaction = Reaction(call: Option<DownloadOptions>, keepOpen: bool, response: Option<Response>)

  /** `handleDownload(url, type)`: the call it makes, and its result when the call throws or rejects (`fails`) or not. */
  function HandleDownload(url: string, ty: string, iso: string, fails: bool): (DownloadOptions, bool)
  {
    (DownloadOptions(url, GenerateFilename(ty, iso), true), !fails)
  }

  /** The `onMessage` listener on one request. */
  function OnMessage(request: Message, iso: string, fails: bool): (r: Reaction)
  {
    if request.action == "download" then
      var (call, success) := HandleDownload(request.url, request.mediaType, iso, fails);
      Reaction(Some(call), true, Some(Response(success)))
    else Reaction(None, false, None)
  }

  // ----------------------------------------------------------------- facts

  /**
   * A name built from a separator-free prefix and timestamp: it starts with
   * `jimeng_` and the prefix, ends with the extension, and every separator it
   * holds lies in the extension.
   */
  lemma TemplateShape(ft: FileType, ts: string)
    requires forall k | 0 <= k < |ft.prefix| :: !IsSeparator(ft.prefix[k])
    requires forall k | 0 <= k < |ts| :: !IsSeparator(ts[k])
    ensures var r := Template(ft, ts);
      && r[..7] == "jimeng_"
      && r[7..7 + |ft.prefix|] == ft.prefix
      && r[|r| - |ft.extension|..] == ft.extension
      && (forall k | 0 <= k < |r| - |ft.extension| :: !IsSeparator(r[k]))
      && (forall k | |r| - |ft.extension| <= k < |r| :: r[k] == ft.extension[k - (|r| - |ft.extension|)])
  {
    var head := "jimeng_" + ft.prefix + "_";
    var r := head + ts + ft.extension;
    assert Template(ft, ts) == r;
    forall k | 0 <= k < |r| - |ft.extension| ensures !IsSeparator(r[k]) {
      if k < |head| {
        assert r[k] == head[k];
        if 7 <= k < 7 + |ft.prefix| {
          assert head[k] == ft.prefix[k - 7];
        }
      } else {
        assert r[k] == ts[k - |head|];
      }
    }
    assert r[..7] == head[..7];
    assert r[7..7 + |ft.prefix|] == head[7..7 + |ft.prefix|];
  }

  /**
   * Every entry `Lookup` can return has a separator-free prefix. A table
   * entry's extension is a `.` and three characters that are not separators;
   * the inherited-key entry's extension holds no separator at all.
   */
  lemma LookupShape(ty: string)
    ensures var ft := Lookup(ty);
      && (forall k | 0 <= k < |ft.prefix| :: !IsSeparator(ft.prefix[k]))
      && (ty in InheritedKeys ==> forall k | 0 <= k < |ft.extension| :: !IsSeparator(ft.extension[k]))
      && (ty !in InheritedKeys ==>
            |ft.extension| == 4 && ft.extension[0] == '.' && forall k | 1 <= k < 4 :: !IsSeparator(ft.extension[k]))
  {
    var ft := Lookup(ty);
    assert ft == FileType(".png", "image") || ft == FileType(".mp4", "video") || ft == FileType("undefined", "undefined");
  }

  /**
   * For any clock reading, the filename starts with `jimeng_` and the type's
   * prefix and holds no `:`. For a type that is not an inherited key its only
   * `.` is the one that opens the four-character extension at its end; for
   * an inherited key it holds no `.` at all.
   */
  lemma FilenameShape(ty: string, iso: string)
    ensures var r := GenerateFilename(ty, iso);
      && r[..7] == "jimeng_"
      && r[7..7 + |Lookup(ty).prefix|] == Lookup(ty).prefix
      && Lacks(r, ':')
      && (ty !in InheritedKeys ==> OnlyAt(r, '.', |r| - 4) && r[|r| - 4..] == Lookup(ty).extension)
      && (ty in InheritedKeys ==> Lacks(r, '.'))
  {
    var ft := Lookup(ty);
    var r := GenerateFilename(ty, iso);
    LookupShape(ty);
    TemplateShape(ft, ReplaceSeparators(iso));
    var e := |r| - |ft.extension|;
    forall k | 0 <= k < |r| ensures r[k] != ':' && (r[k] == '.' ==> ty !in InheritedKeys && k == e) {
      if k >= e {
        assert r[k] == ft.extension[k - e];
      }
    }
  }

  /** A type that is neither in the table nor inherited is named exactly like an image. */
  lemma FallbackIsImage(ty: string, iso: string)
    requires ty !in FileTypes && ty !in InheritedKeys
    ensures GenerateFilename(ty, iso) == GenerateFilename("image", iso)
  {
    assert Lookup(ty) == Lookup("image");
  }

  /**
   * Only a `download` request is acted on: it makes exactly one download
   * call, of the requested URL with the generated filename and the save-as
   * dialog, keeps the channel open, and answers `success` exactly when the
   * call neither threw nor rejected. Any other request gets no call, no
   * answer and an undefined return.
   */
  lemma OnMessageSpec(request: Message, iso: string, fails: bool)
    ensures var r := OnMessage(request, iso, fails);
      && (r.call.Some? <==> request.action == "download")
      && (r.keepOpen <==> request.action == "download")
      && (r.response.Some? <==> request.action == "download")
      && (r.call.Some? ==> r.call.value == DownloadOptions(request.url, GenerateFilename(request.mediaType, iso), true))
      && (r.response.Some? ==> (r.response.value.success <==> !fails))
  {
  }
}
