// The listing script: each audio link and audio element inside a JetEngine
// listing item is given the REST play URL of its post, found through a
// chain of fallbacks, and marked so that it is handled once.

module ListingScript {
  import opened Wrappers
  import opened Text
  import Frontend
  import ListingIntegration

  /** The REST play route as it appears in a link. */
  const RestMarker := Frontend.RestPlayPath

  /** The kinds of post a permalink names. */
  predicate RecordingKind(s: string) { s == "recording" || s == "audio-recording" }

  /**
   * `/\/(recording|audio-recording)\/([^\/]+)\/(\d+)\/?$/`: after one
   * trailing '/' is set aside, the last segment is all digits, the one
   * before it is non-empty, and the one before that names a recording kind
   * and follows a '/'.
   */
  function PermalinkId(href: string): (r: Option<nat>)
    ensures r.Some? ==> var segs := Split(TrimTrailingSlash(href), '/');
      |segs| >= 4 && RecordingKind(segs[|segs| - 3]) && segs[|segs| - 2] != [] &&
      segs[|segs| - 1] != [] && AllDigits(segs[|segs| - 1]) && r.value == DecimalValue(segs[|segs| - 1])
  {
    var segs := Split(TrimTrailingSlash(href), '/');
    var n := |segs|;
    if n < 4 || !RecordingKind(segs[n - 3]) || segs[n - 2] == [] || segs[n - 1] == [] || !AllDigits(segs[n - 1]) then None
    else Some(DecimalValue(segs[n - 1]))
  }

  /** `\/?$`: one final '/' is set aside. */
  function TrimTrailingSlash(href: string): string {
    if href != [] && href[|href| - 1] == '/' then href[..|href| - 1] else href
  }

  /** Setting aside a '/' that was appended to a string not ending in '/' gives the string back. */
  lemma TrimAppendedSlash(t: string, slash: bool)
    requires t != [] && t[|t| - 1] != '/'
    ensures TrimTrailingSlash(t + (if slash then "/" else "")) == t
  {
    var href := t + (if slash then "/" else "");
    assert !slash ==> href == t;
    assert slash ==> href[..|href| - 1] == t;
  }

  lemma {:induction false} SplitOfPermalink(prefix: string, kind: string, slug: string, digits: string)
    requires forall i | 0 <= i < |kind| :: kind[i] != '/'
    requires forall i | 0 <= i < |slug| :: slug[i] != '/'
    requires forall i | 0 <= i < |digits| :: digits[i] != '/'
    ensures Split(prefix + "/" + kind + "/" + slug + "/" + digits, '/') == Split(prefix, '/') + [kind] + [slug] + [digits]
  {
    SplitAppend(prefix, '/', kind);
    assert prefix + "/" + kind == prefix + ['/'] + kind;
    SplitAppend(prefix + "/" + kind, '/', slug);
    assert prefix + "/" + kind + "/" + slug == (prefix + "/" + kind) + ['/'] + slug;
    SplitAppend(prefix + "/" + kind + "/" + slug, '/', digits);
    assert prefix + "/" + kind + "/" + slug + "/" + digits == (prefix + "/" + kind + "/" + slug) + ['/'] + digits;
  }

  /** A recording permalink ending in an id, with or without a final '/', yields that id. */
  lemma PermalinkIdOf(prefix: string, kind: string, slug: string, id: nat, slash: bool)
    requires RecordingKind(kind)
    requires slug != [] && forall i | 0 <= i < |slug| :: slug[i] != '/'
    ensures PermalinkId(prefix + "/" + kind + "/" + slug + "/" + NatToString(id) + (if slash then "/" else "")) == Some(id)
  {
    var t := prefix + "/" + kind + "/" + slug + "/" + NatToString(id);
    PermalinkSegments(prefix, kind, slug, id);
    TrimAppendedSlash(t, slash);
  }

  /** The segments of a recording permalink ending in an id without a final '/'. */
  lemma PermalinkSegments(prefix: string, kind: string, slug: string, id: nat)
    requires RecordingKind(kind)
    requires slug != [] && forall i | 0 <= i < |slug| :: slug[i] != '/'
    ensures var t := prefix + "/" + kind + "/" + slug + "/" + NatToString(id);
      var segs := Split(t, '/');
      t[|t| - 1] != '/' && |segs| >= 4 && segs[|segs| - 3] == kind && segs[|segs| - 2] == slug &&
      segs[|segs| - 1] == NatToString(id) && AllDigits(NatToString(id)) && NatToString(id) != [] &&
      DecimalValue(NatToString(id)) == id
  {
    var digits := NatToString(id);
    var t := prefix + "/" + kind + "/" + slug + "/" + digits;
    assert t[|t| - 1] == digits[|digits| - 1];
    assert IsDigit(digits[|digits| - 1]);
    forall i | 0 <= i < |digits| ensures digits[i] != '/' {
      assert IsDigit(digits[i]);
    }
    SplitOfPermalink(prefix, kind, slug, digits);
    DecimalValueOfNatToString(id);
  }

  /**
   * extractPostId: the element's data-post-id, the item's, the id of a REST
   * play link, the id of a recording permalink, the id in a `jet-post-N`
   * item id, and null; a falsy data id is 0, and an absent attribute None.
   */
  function ExtractPostId(elementPostId: nat, itemPostId: nat, href: Option<string>, itemId: Option<string>): (r: Option<nat>)
    ensures elementPostId != 0 ==> r == Some(elementPostId)
    ensures elementPostId == 0 && itemPostId != 0 ==> r == Some(itemPostId)
    ensures elementPostId == 0 && itemPostId == 0 && Frontend.Truthy(href) && DigitsAfter(href.value, RestMarker, 0).Some? ==>
      r == DigitsAfter(href.value, RestMarker, 0)
    ensures r.None? <==> (elementPostId == 0 && itemPostId == 0 &&
      (!Frontend.Truthy(href) || (DigitsAfter(href.value, RestMarker, 0).None? && PermalinkId(href.value).None?)) &&
      (!Frontend.Truthy(itemId) || DigitsAfter(itemId.value, "jet-post-", 0).None?))
  {
    if elementPostId != 0 then Some(elementPostId)
    else if itemPostId != 0 then Some(itemPostId)
    else
      var fromHref :=
        if !Frontend.Truthy(href) then None
        else if DigitsAfter(href.value, RestMarker, 0).Some? then DigitsAfter(href.value, RestMarker, 0)
        else PermalinkId(href.value);
      if fromHref.Some? then fromHref
      else if Frontend.Truthy(itemId) then DigitsAfter(itemId.value, "jet-post-", 0)
      else None
  }

  /** The play URL the server writes into a listing is read back as the post's id. */
  lemma ExtractsServerUrl(origin: string, id: nat, itemId: Option<string>)
    requires forall j | 0 <= j < |origin| :: !OccursAt(origin + RestMarker, RestMarker, j)
    ensures ExtractPostId(0, 0, Some(ListingIntegration.StreamUrl(origin + "/wp-json/", id)), itemId) == Some(id)
  {
    var n := NatToString(id);
    var url := ListingIntegration.StreamUrl(origin + "/wp-json/", id);
    assert "/wp-json/" + ListingIntegration.PlayRoute == RestMarker;
    assert url == origin + ("/wp-json/" + ListingIntegration.PlayRoute) + n;
    assert url == origin + RestMarker + n + "";
    DigitsAfterMarker(origin, RestMarker, id, "");
  }

  /** Without data ids or a usable link, a `jet-post-N` item id gives N. */
  lemma ExtractsItemId(prefix: string, id: nat)
    requires forall j | 0 <= j < |prefix| :: !OccursAt(prefix + "jet-post-", "jet-post-", j)
    ensures ExtractPostId(0, 0, None, Some(prefix + "jet-post-" + NatToString(id))) == Some(id)
  {
    assert prefix + "jet-post-" + NatToString(id) + "" == prefix + "jet-post-" + NatToString(id);
    DigitsAfterMarker(prefix, "jet-post-", id, "");
  }

  /*
   * processListingItem
   */

  datatype Kind = Link | Audio

  /**
   * An `a` or `audio` element: its jQuery `post-id` data (0 when falsy), its
   * attributes, the `src` of its `source` children, its classes and its
   * streaming-processed flag.
   */
  datatype Element = Element(kind: Kind, postId: nat, attrs: map<string, string>, sources: seq<Option<string>>,
                             classes: set<string>, processed: bool)

  function Attr(e: Element, name: string): Option<string> { if name in e.attrs then Some(e.attrs[name]) else None }

  /** The listing item's own data-post-id (0 when falsy) and id attribute. */
  datatype Item = Item(postId: nat, id: Option<string>)

  /** The link selector: an href containing "recording" or "audio", or one of the two player classes; every audio element. */
  predicate Selected(e: Element) {
    match e.kind
    case Audio => true
    case Link =>
      (Attr(e, "href").Some? && (Contains(e.attrs["href"], "recording") || Contains(e.attrs["href"], "audio"))) ||
      "audio-link" in e.classes || "jet-audio-player-link" in e.classes
  }

  /** The post id an unprocessed element ends up with: its own data, else the fallback chain. */
  function PostIdFor(e: Element, item: Item): Option<nat> {
    if e.postId != 0 then Some(e.postId) else ExtractPostId(e.postId, item.postId, Attr(e, "href"), item.id)
  }

  /**
   * One element of processListingItem: skipped when not selected, already
   * processed or without a truthy id; otherwise pointed at restUrl + id and
   * marked processed.
   */
  function ProcessElement(e: Element, item: Item, restUrl: string): (r: Element)
    ensures !Selected(e) || e.processed ==> r == e
    ensures Selected(e) && !e.processed ==> (r.processed <==> PostIdFor(e, item).Some? && PostIdFor(e, item).value != 0)
    ensures r != e ==> r.processed && !e.processed && r.kind == e.kind && r.postId == e.postId
    ensures r != e ==> var id := PostIdFor(e, item);
      id.Some? && id.value != 0 &&
      var url := restUrl + NatToString(id.value);
      Attr(r, "data-url") == Some(url) && Attr(r, "data-post-id") == Some(NatToString(id.value)) &&
      (r.kind == Link ==> (Attr(r, "href") == Some(url) && Attr(r, "data-post-type") == Some("audio-recording") &&
        "jet-audio-player-link" in r.classes)) &&
      (r.kind == Audio ==> (Attr(r, "src") == Some(url) && |r.sources| == |e.sources| &&
        forall k | 0 <= k < |r.sources| :: r.sources[k] == Some(url)))
  {
    if !Selected(e) || e.processed then e
    else
      var id := PostIdFor(e, item);
      if id.None? || id.value == 0 then e
      else
        var url := restUrl + NatToString(id.value);
        match e.kind
        case Link =>
          e.(attrs := e.attrs["href" := url]["data-url" := url]["data-post-id" := NatToString(id.value)]["data-post-type" := "audio-recording"],
             classes := e.classes + {"jet-audio-player-link"}, processed := true)
        case Audio =>
          e.(attrs := e.attrs["src" := url]["data-url" := url]["data-post-id" := NatToString(id.value)],
             sources := seq(|e.sources|, _ => Some(url)), processed := true)
  }

  /** Processing an element a second time changes nothing. */
  lemma ProcessElementIdempotent(e: Element, item: Item, restUrl: string)
    ensures ProcessElement(ProcessElement(e, item, restUrl), item, restUrl) == ProcessElement(e, item, restUrl)
  {
    var r := ProcessElement(e, item, restUrl);
    if r != e {
      assert r.processed;
    }
  }

  /** Every element of an item processed once. */
  function ProcessAll(elements: seq<Element>, item: Item, restUrl: string): (r: seq<Element>)
    ensures |r| == |elements|
  {
    seq(|elements|, i requires 0 <= i < |elements| => ProcessElement(elements[i], item, restUrl))
  }

  /** Processing a listing item twice is the same as processing it once. */
  lemma ProcessAllIdempotent(elements: seq<Element>, item: Item, restUrl: string)
    ensures ProcessAll(ProcessAll(elements, item, restUrl), item, restUrl) == ProcessAll(elements, item, restUrl)
  {
    var once := ProcessAll(elements, item, restUrl);
    forall i | 0 <= i < |elements|
      ensures ProcessAll(once, item, restUrl)[i] == once[i]
    {
      ProcessElementIdempotent(elements[i], item, restUrl);
    }
  }

  /** With the play route's base as restUrl, the script writes the URL the server writes for the same post. */
  lemma ScriptUrlIsServerUrl(restRoot: string, e: Element, item: Item)
    requires ProcessElement(e, item, restRoot + ListingIntegration.PlayRoute) != e
    ensures Attr(ProcessElement(e, item, restRoot + ListingIntegration.PlayRoute), "data-url") ==
      Some(ListingIntegration.StreamUrl(restRoot, PostIdFor(e, item).value))
  {
  }

  /** A listing item in the page: its data, its id attribute and the elements inside it. */
  class ListingItem {
    var postId: nat
    var id: Option<string>
    var elements: seq<Element>

    constructor(postId: nat, id: Option<string>, elements: seq<Element>)
      ensures this.postId == postId && this.id == id && this.elements == elements
    {
      this.postId := postId;
      this.id := id;
      this.elements := elements;
    }

    /** processListingItem: the audio links first, then the audio elements. */
    method ProcessListingItem(restUrl: string)
      modifies this
      ensures postId == old(postId) && id == old(id)
      ensures elements == ProcessAll(old(elements), Item(postId, id), restUrl)
    {
      var item := Item(postId, id);
      ghost var start := elements;
      for i := 0 to |elements|
        invariant |elements| == |start| && postId == old(postId) && id == old(id)
        invariant forall k | 0 <= k < i :: elements[k] == if start[k].kind == Link then ProcessElement(start[k], item, restUrl) else start[k]
        invariant forall k | i <= k < |start| :: elements[k] == start[k]
      {
        if elements[i].kind == Link {
          elements := elements[i := ProcessElement(elements[i], item, restUrl)];
        }
      }
      for i := 0 to |elements|
        invariant |elements| == |start| && postId == old(postId) && id == old(id)
        invariant forall k | 0 <= k < i :: elements[k] == ProcessElement(start[k], item, restUrl)
        invariant forall k | i <= k < |start| :: elements[k] == if start[k].kind == Link then ProcessElement(start[k], item, restUrl) else start[k]
      {
        if elements[i].kind == Audio {
          elements := elements[i := ProcessElement(elements[i], item, restUrl)];
        }
      }
    }
  }

  /*
   * init and onListingUpdated
   */

  /** A localised setting as the script sees it. */
  datatype JsValue = JsBool(b: bool) | JsString(s: string)

  /** wp_localize_script's `(string)` cast of a PHP boolean: "1" for true, "" for false. */
  function Localized(b: bool): (r: JsValue)
    ensures r.JsString? && (r.s == "1" <==> b)
  {
    JsString(if b then "1" else "")
  }

  /** Whether this script or the main player initialises players. */
  class Integration {
    var shouldInitializePlayers: bool

    /**
     * init as written: the main player initialises players only when the
     * localised settings exist (Some) and their flag is strictly `true`.
     */
    constructor AsWritten(flag: Option<JsValue>)
      ensures shouldInitializePlayers <==> flag != Some(JsBool(true))
    {
      if flag == Some(JsBool(true)) {
        shouldInitializePlayers := false;
      } else {
        shouldInitializePlayers := true;
      }
    }

    /**
     * init as intended: the flag the server sets to true hands initialisation
     * to the main player, whether it arrives as a boolean or localised as "1".
     */
    constructor(flag: Option<JsValue>)
      ensures shouldInitializePlayers <==> flag != Some(JsBool(true)) && flag != Some(Localized(true))
    {
      if flag == Some(JsBool(true)) || flag == Some(Localized(true)) {
        shouldInitializePlayers := false;
      } else {
        shouldInitializePlayers := true;
      }
    }

    /** The re-initialisation hook is called after an update only when the main player initialises and the hook is a function. */
    method NotifiesMainPlayer(hookIsFunction: bool) returns (called: bool)
      ensures called <==> !shouldInitializePlayers && hookIsFunction
    {
      called := !shouldInitializePlayers && hookIsFunction;
    }
  }

  /** As written, the flag the server sets to true reaches the script as "1", so the script initialises players itself. */
  method LocalizedFlagIgnored() returns (initializesHere: bool)
    ensures initializesHere
  {
    var integration := new Integration.AsWritten(Some(Localized(true)));
    initializesHere := integration.shouldInitializePlayers;
  }

  /** As intended, the same flag leaves initialisation to the main player. */
  method LocalizedFlagHonoured() returns (initializesHere: bool)
    ensures !initializesHere
  {
    var integration := new Integration(Some(Localized(true)));
    initializesHere := integration.shouldInitializePlayers;
  }
}
