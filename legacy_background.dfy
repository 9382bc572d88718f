/**
 * The older background script, background.js: its listener downloads every
 * `download` request under `jimeng_<milliseconds><extension>`. The clock
 * reading `new Date().getTime()` is a parameter.
 */
module LegacyBackground {
  import opened Basics
  import opened Runtime
  import Background

  /** `type === 'image' ? '.png' : '.mp4'`. */
  function Extension(ty: string): (e: string)
    ensures ty == "image" ==> e == ".png"
    ensures ty != "image" ==> e == ".mp4"
  {
    if ty == "image" then ".png" else ".mp4"
  }

  /** The character of decimal digit `d`. */
  function DigitChar(d: nat): (c: char)
    requires d < 10
    ensures '0' <= c <= '9' && c as int - '0' as int == d
  {
    ('0' as int + d) as char
  }

  /** The decimal text of `n`, as a template literal prints an integral number. */
  function DecimalString(n: nat): (s: string)
    ensures 1 <= |s| && forall k | 0 <= k < |s| :: '0' <= s[k] <= '9'
    ensures |s| > 1 ==> s[0] != '0'
  {
    if n < 10 then [DigitChar(n)] else DecimalString(n / 10) + [DigitChar(n % 10)]
  }

  /** The number a string of decimal digits denotes. */
  function ParseDecimal(s: string): nat
    requires forall k | 0 <= k < |s| :: '0' <= s[k] <= '9'
  {
    if s == [] then 0 else 10 * ParseDecimal(s[..|s| - 1]) + (s[|s| - 1] as int - '0' as int)
  }

  /** The filename for a request of type `ty` at millisecond `ms`. */
  function Filename(ty: string, ms: nat): string
  {
    "jimeng_" + DecimalString(ms) + Extension(ty)
  }

  /** The listener on one request: the download call it makes, if any. */
  function OnMessage(request: Message, ms: nat): Option<DownloadOptions>
  {
    if request.action == "download" then Some(DownloadOptions(request.url, Filename(request.mediaType, ms), true))
    else None
  }

  // ----------------------------------------------------------------- facts

  /** The decimal text reads back as the same number. */
  lemma {:induction false} DecimalRoundTrip(n: nat)
    ensures ParseDecimal(DecimalString(n)) == n
  {
    var s := DecimalString(n);
    if n >= 10 {
      DecimalRoundTrip(n / 10);
      assert s[..|s| - 1] == DecimalString(n / 10);
    }
  }

  /**
   * The filename is `jimeng_`, the timestamp's digits and the extension,
   * so the timestamp can be read back from it, it holds no `:`, and its only
   * `.` opens the extension.
   */
  lemma FilenameShape(ty: string, ms: nat)
    ensures var r := Filename(ty, ms);
      && r[..7] == "jimeng_"
      && ParseDecimal(r[7..|r| - 4]) == ms
      && r[|r| - 4..] == Extension(ty)
      && Lacks(r, ':')
      && OnlyAt(r, '.', |r| - 4)
  {
    var d := DecimalString(ms);
    var e := Extension(ty);
    var r := Filename(ty, ms);
    assert r[7..|r| - 4] == d;
    assert r[|r| - 4..] == e;
    DecimalRoundTrip(ms);
    forall k | 0 <= k < |r| ensures r[k] != ':' && (r[k] == '.' ==> k == |r| - 4) {
      if 7 <= k < |r| - 4 {
        assert r[k] == d[k - 7];
      } else if k >= |r| - 4 {
        assert r[k] == e[k - (|r| - 4)];
      }
    }
  }

  /**
   * Only a `download` request leads to a call: of the requested URL, with the
   * generated filename and the save-as dialog.
   */
  lemma OnMessageSpec(request: Message, ms: nat)
    ensures OnMessage(request, ms).Some? <==> request.action == "download"
    ensures OnMessage(request, ms).Some? ==>
      OnMessage(request, ms).value == DownloadOptions(request.url, Filename(request.mediaType, ms), true)
  {
  }

  /**
   * The two background scripts agree on `image` and `video` but fall back in
   * opposite directions: a type neither knows is saved as `.png` by
   * src/background.js and as `.mp4` here.
   */
  lemma FallbacksDiffer(ty: string)
    ensures ty == "image" || ty == "video" ==>
      Extension(ty) == Background.Lookup(ty).extension
    ensures ty !in Background.FileTypes && ty !in Background.InheritedKeys ==>
      Background.Lookup(ty).extension == ".png" && Extension(ty) == ".mp4"
  {
  }
}
