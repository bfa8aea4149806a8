// The standalone player's URL preparation: a relative data-url is made
// absolute, a direct file URL is resolved to an attachment and replaced by
// its direct URL or its play route, and a play route yields its id.

module PlayerStandalone {
  import opened Wrappers
  import opened Text
  import opened Http
  import Frontend

  /** The extensions the file pattern accepts, compared in lower case. */
  const FileExtensions: set<string> := {"mp3", "wav", "ogg", "m4a", "flac"}

  /** `[\w-]`: an ASCII letter, a digit, '_' or '-'. */
  predicate WordChar(c: char) { IsAsciiLetter(c) || IsDigit(c) || c == '_' || c == '-' }

  /** The longest run of word characters that ends the string (maximal: the character before it is no word character). */
  function TrailingWord(s: string): (r: string)
    ensures |r| <= |s| && r == s[|s| - |r|..]
    ensures |r| < |s| ==> !WordChar(s[|s| - |r| - 1])
    decreases |s|
  {
    if s != [] && WordChar(s[|s| - 1]) then TrailingWord(s[..|s| - 1]) + [s[|s| - 1]] else []
  }

  /** The trailing run consists of word characters only. */
  lemma {:induction false} TrailingWordChars(s: string)
    ensures forall i | 0 <= i < |TrailingWord(s)| :: WordChar(TrailingWord(s)[i])
    decreases |s|
  {
    if s != [] && WordChar(s[|s| - 1]) {
      TrailingWordChars(s[..|s| - 1]);
      TrailingWordStep(s);
    }
  }

  /** The two named groups of a file match. */
  datatype FileName = FileName(name: string, ext: string)

  /**
   * `/\/(?<filename>[\w-]+)\.(?<ext>mp3|wav|ogg|m4a|flac)$/i`: the extension
   * follows the last dot, and the name is the word run before it, which a
   * '/' must precede.
   */
  function FileMatch(url: string): (r: Option<FileName>)
    ensures r.Some? ==> EndsWith(url, "/" + r.value.name + "." + r.value.ext)
    ensures r.Some? ==> r.value.name != [] && Lower(r.value.ext) in FileExtensions
  {
    match LastIndexOf(url, '.')
    case None => None
    case Some(dot) =>
      var before, ext := url[..dot], url[dot + 1..];
      var name := TrailingWord(before);
      if name == [] || |name| == |before| || before[|before| - |name| - 1] != '/' || Lower(ext) !in FileExtensions then None
      else
        SuffixAtDot(url, dot, name);
        Some(FileName(name, ext))
  }

  /** The name group of a file match is made of word characters. */
  lemma FileMatchName(url: string)
    ensures FileMatch(url).Some? ==> forall i | 0 <= i < |FileMatch(url).value.name| :: WordChar(FileMatch(url).value.name[i])
  {
    match LastIndexOf(url, '.')
    case None =>
    case Some(dot) => TrailingWordChars(url[..dot]);
  }

  lemma SuffixAtDot(url: string, dot: nat, name: string)
    requires dot < |url| && |name| < dot && url[dot] == '.'
    requires url[..dot][dot - |name|..] == name && url[..dot][dot - |name| - 1] == '/'
    ensures EndsWith(url, "/" + name + "." + url[dot + 1..])
  {
    var tail := "/" + name + "." + url[dot + 1..];
    var p := dot - |name| - 1;
    var before := url[..dot];
    assert before[p..] == [before[p]] + before[p + 1..];
    assert url[p..dot] == before[p..] == "/" + name;
    assert url[p..] == url[p..dot] + url[dot..];
    assert url[dot..] == [url[dot]] + url[dot + 1..];
    assert url[p..] == tail;
  }

  /** Every URL that ends in '/', a word name, a dot and a listed extension matches, with those groups. */
  lemma FileMatchOf(dir: string, name: string, ext: string)
    requires name != [] && forall i | 0 <= i < |name| :: WordChar(name[i])
    requires Lower(ext) in FileExtensions
    ensures FileMatch(dir + "/" + name + "." + ext) == Some(FileName(name, ext))
  {
    var head := dir + "/" + name;
    var url := head + "." + ext;
    assert LastIndexOf(url, '.') == Some(|head|) by {
      forall k | 0 <= k < |ext| ensures ext[k] != '.' {
        LoweredExtensionHasNoDot(ext, k);
      }
      LastDotOf(head, ext);
    }
    assert url[..|head|] == head && url[|head| + 1..] == ext;
    assert TrailingWord(head) == name && head[|head| - |name| - 1] == '/' by {
      TrailingWordOf(dir + "/", name);
    }
  }

  lemma LastDotOf(head: string, ext: string)
    requires forall k | 0 <= k < |ext| :: ext[k] != '.'
    ensures LastIndexOf(head + "." + ext, '.') == Some(|head|)
  {
    var url := (head + ".") + ext;
    assert head + "." + ext == url;
    var h := |head|;
    assert url[h] == '.';
    var r := LastIndexOf(url, '.');
    assert r.Some?;
    assert !(r.value < h);
    assert r.value == h;
  }

  lemma {:induction false} TrailingWordOf(a: string, name: string)
    requires a != [] && a[|a| - 1] == '/'
    requires forall i | 0 <= i < |name| :: WordChar(name[i])
    ensures TrailingWord(a + name) == name
    decreases |name|
  {
    if name == [] {
      assert a + name == a;
      assert !WordChar(a[|a| - 1]);
    } else {
      var s := a + name;
      var init, last := name[..|name| - 1], name[|name| - 1];
      assert s[..|s| - 1] == a + init;
      assert s[|s| - 1] == last && WordChar(last);
      TrailingWordStep(s);
      TrailingWordOf(a, init);
      assert init + [last] == name;
    }
  }

  lemma TrailingWordStep(s: string)
    requires s != [] && WordChar(s[|s| - 1])
    ensures TrailingWord(s) == TrailingWord(s[..|s| - 1]) + [s[|s| - 1]]
  {
  }

  /** A URL whose last segment has no dot is not a direct file URL. */
  lemma NoFileMatchWithoutDot(a: string, seg: string)
    requires forall i | 0 <= i < |seg| :: seg[i] != '.'
    ensures FileMatch(a + "/" + seg) == None
  {
    var url := a + "/" + seg;
    var p := SlashAfterLastDot(a, seg);
    var dot := LastIndexOf(url, '.');
    if dot.Some? {
      var ext := url[dot.value + 1..];
      assert Lower(ext)[p] == '/';
      SlashedNotExtension(Lower(ext), p);
    }
  }

  /** The last dot of such a URL lies before its final '/', so the text after it holds that '/'. */
  lemma SlashAfterLastDot(a: string, seg: string) returns (p: nat)
    requires forall i | 0 <= i < |seg| :: seg[i] != '.'
    ensures var url := a + "/" + seg; var dot := LastIndexOf(url, '.');
      dot.Some? ==> p < |url| - dot.value - 1 && url[dot.value + 1..][p] == '/'
  {
    var url := a + "/" + seg;
    var dot := LastIndexOf(url, '.');
    p := 0;
    if dot.Some? {
      forall j | |a| <= j < |url| ensures url[j] != '.' {
        if j == |a| { assert url[j] == '/'; } else { assert url[j] == seg[j - |a| - 1]; }
      }
      p := |a| - dot.value - 1;
      assert url[|a|] == '/';
    }
  }

  lemma LoweredExtensionHasNoDot(ext: string, k: nat)
    requires Lower(ext) in FileExtensions && k < |ext|
    ensures ext[k] != '.'
  {
    assert Lower(ext)[k] == LowerChar(ext[k]);
    ExtensionHasNoDot(Lower(ext), k);
  }

  lemma ExtensionHasNoDot(e: string, k: nat)
    requires e in FileExtensions && k < |e|
    ensures e[k] != '.'
  {
  }

  lemma SlashedNotExtension(e: string, p: nat)
    requires p < |e| && e[p] == '/'
    ensures e !in FileExtensions
  {
  }

  /** `/\/play\/(\d+)/`: the decimal value of the digits after the leftmost "/play/" followed by one. */
  function PlayId(url: string): Option<nat> { DigitsAfter(url, "/play/", 0) }

  /** A play route with an id gives that id back and is not taken for a file URL. */
  lemma PlayRouteReparses(base: string, id: nat)
    requires forall j | 0 <= j < |base| :: !OccursAt(base + "/play/", "/play/", j)
    ensures PlayId(base + "/play/" + NatToString(id)) == Some(id)
    ensures FileMatch(base + "/play/" + NatToString(id)) == None
  {
    var n := NatToString(id);
    assert base + "/play/" + n + "" == base + "/play/" + n;
    DigitsAfterMarker(base, "/play/", id, "");
    assert base + "/play/" + n == (base + "/play") + "/" + n;
    NoFileMatchWithoutDot(base + "/play", n);
  }

  /** The resolver's answer once success and a non-zero id are confirmed. */
  datatype Attachment = Attachment(id: nat, url: string, mime: string, size: nat)

  /** resolveEndpoint: null for an empty name, a failed request, or an answer without success or id. */
  function ResolveEndpoint(filename: string, answer: string -> Option<Frontend.ResolveData>): (r: Option<Attachment>)
    ensures filename == [] ==> r.None?
    ensures r.Some? <==> filename != [] && answer(filename).Some? && answer(filename).value.success && answer(filename).value.id != 0
    ensures r.Some? ==> var d := answer(filename).value;
      r.value == Attachment(d.id, d.url, d.mime, d.size)
  {
    if filename == [] then None
    else match answer(filename)
      case None => None
      case Some(d) => if d.success && d.id != 0 then Some(Attachment(d.id, d.url, d.mime, d.size)) else None
  }

  /** The small-file test: a size below 10 MiB, a URL and an MP3 or WAV type. */
  predicate UseDirect(a: Attachment) {
    a.size != 0 && a.size < TenMiB && a.url != "" && (a.mime == "audio/mpeg" || a.mime == "audio/wav")
  }

  /** What one player ends with: an error shown, or the URL it loads and the attachment id it knows. */
  datatype Setup = Failed | Ready(url: string, attachmentId: Option<nat>)

  /**
   * One `.audio-player` in initializeWaveSurfers: the data-url made
   * absolute, a file URL replaced by the resolved direct URL or play route,
   * otherwise the id read from a play route.
   */
  method InitializeUrl(dataUrl: Option<string>, origin: string, playBase: string, answer: string -> Option<Frontend.ResolveData>)
    returns (r: Setup)
    ensures dataUrl.None? || dataUrl.value == [] ==> r == Failed
    ensures dataUrl.Some? && dataUrl.value != [] ==>
      var url := if StartsWith(dataUrl.value, "http") then dataUrl.value else origin + dataUrl.value;
      match FileMatch(url)
      case Some(f) =>
        var a := ResolveEndpoint(f.name, answer);
        (a.None? ==> r == Failed) &&
        (a.Some? ==> (r.Ready? && r.attachmentId == Some(a.value.id) &&
          (UseDirect(a.value) ==> r.url == a.value.url) &&
          (!UseDirect(a.value) ==> r.url == playBase + NatToString(a.value.id))))
      case None => r == Ready(url, PlayId(url))
  {
    if dataUrl.None? || dataUrl.value == [] {
      return Failed;
    }
    var audioUrl := dataUrl.value;
    var attachmentId: Option<nat> := None;
    if !StartsWith(audioUrl, "http") {
      audioUrl := origin + audioUrl;
    }
    var fileMatch := FileMatch(audioUrl);
    if fileMatch.Some? {
      var resolved := ResolveEndpoint(fileMatch.value.name, answer);
      if resolved.Some? {
        attachmentId := Some(resolved.value.id);
        if UseDirect(resolved.value) {
          audioUrl := resolved.value.url;
        } else {
          audioUrl := playBase + NatToString(resolved.value.id);
        }
      } else {
        return Failed;
      }
    } else {
      attachmentId := PlayId(audioUrl);
    }
    r := Ready(audioUrl, attachmentId);
  }

  /** A relative data-url is prefixed with the origin; an absolute one is kept. */
  lemma AbsoluteUrl(dataUrl: string, origin: string)
    requires StartsWith(origin, "http")
    ensures StartsWith(if StartsWith(dataUrl, "http") then dataUrl else origin + dataUrl, "http")
  {
    StartsWithAppend(origin, dataUrl, "http");
  }

  /**
   * A large or non-MP3/WAV file ends on its play route, and that route
   * would be read back as the same attachment: the id the player knows is
   * the one its URL names.
   */
  lemma StreamedIdAgrees(base: string, a: Attachment)
    requires forall j | 0 <= j < |base| :: !OccursAt(base + "/play/", "/play/", j)
    requires !UseDirect(a)
    ensures PlayId(base + "/play/" + NatToString(a.id)) == Some(a.id)
    ensures FileMatch(base + "/play/" + NatToString(a.id)) == None
  {
    PlayRouteReparses(base, a.id);
  }
}
