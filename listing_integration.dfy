// Listing_Integration: inside a JetEngine listing of audio-recording posts,
// audio meta fields and audio links are pointed at the REST play route, and
// the data attributes the players read are allowed through.

module ListingIntegration {
  import opened Wrappers
  import opened Text
  import opened Php

  /** The REST route every rewritten value points at, below rest_url(). */
  const PlayRoute := "jetengine-audio-stream/v1/play/"

  /** The meta fields that hold a recording. */
  const AudioFields: set<string> := {"recording", "recording_download", "audio", "audio_file"}

  /** The listing's current object: its post_type property (null when unset) and its ID; None when it is not an object. */
  datatype ListingObject = ListingObject(postType: Value, id: nat)

  predicate IsRecording(obj: Option<ListingObject>) {
    obj.Some? && obj.value.postType == Str("audio-recording")
  }

  /** in_array() with loose comparison against the four names: a matching string, or true. */
  predicate IsAudioField(v: Value) {
    (v.Str? && v.s in AudioFields) || v == Bool(true)
  }

  /** rest_url('jetengine-audio-stream/v1/play/' . $id), with rest_url's own prefix given. */
  function StreamUrl(restRoot: string, id: nat): (r: string)
    ensures EndsWith(r, "/play/" + NatToString(id))
    ensures StartsWith(r, restRoot)
  {
    var r := restRoot + PlayRoute + NatToString(id);
    assert r[|restRoot| + 25..] == "/play/" + NatToString(id);
    assert r[..|restRoot|] == restRoot;
    r
  }

  /** modify_audio_field_value: the play URL for a non-empty audio meta field of a recording, else the value itself. */
  function ModifyAudioFieldValue(value: Value, settings: map<string, Value>, obj: Option<ListingObject>, restRoot: string): (r: Value)
    ensures !IsRecording(obj) ==> r == value
    ensures IsRecording(obj) && !Empty(Lookup(settings, "dynamic_field_post_meta")) && IsAudioField(settings["dynamic_field_post_meta"]) ==>
      r == Str(StreamUrl(restRoot, obj.value.id))
    ensures Empty(Lookup(settings, "dynamic_field_post_meta")) || !IsAudioField(Lookup(settings, "dynamic_field_post_meta")) ==> r == value
  {
    if !IsRecording(obj) then value
    else if Empty(Lookup(settings, "dynamic_field_post_meta")) then value
    else if !IsAudioField(settings["dynamic_field_post_meta"]) then value
    else Str(StreamUrl(restRoot, obj.value.id))
  }

  /** A link is an audio link by its class or by a meta-field source naming an audio field. */
  predicate IsAudioLink(attrs: map<string, Value>, settings: map<string, Value>) {
    (Lookup(attrs, "class") != Null && Contains(ToStr(attrs["class"]), "audio")) ||
    (Lookup(settings, "dynamic_link_source") == Str("meta_field") &&
     !Empty(Lookup(settings, "dynamic_link_source_meta_field")) && IsAudioField(settings["dynamic_link_source_meta_field"]))
  }

  /**
   * modify_dynamic_link_attr: for an audio link of a recording, href and
   * data-url become the play URL and the post's id and type are attached;
   * every other attribute, and every other link, is left as it was.
   */
  function ModifyDynamicLinkAttr(attrs: map<string, Value>, settings: map<string, Value>, obj: Option<ListingObject>, restRoot: string): (r: map<string, Value>)
    ensures !(IsRecording(obj) && IsAudioLink(attrs, settings)) ==> r == attrs
    ensures IsRecording(obj) && IsAudioLink(attrs, settings) ==>
      var url := Str(StreamUrl(restRoot, obj.value.id));
      r.Keys == attrs.Keys + {"href", "data-url", "data-post-id", "data-post-type"} &&
      r["href"] == url && r["data-url"] == url && r["data-post-id"] == Int(obj.value.id) &&
      r["data-post-type"] == Str("audio-recording") &&
      forall key | key in attrs && key !in {"href", "data-url", "data-post-id", "data-post-type"} :: r[key] == attrs[key]
  {
    if !IsRecording(obj) || !IsAudioLink(attrs, settings) then attrs
    else
      var url := Str(StreamUrl(restRoot, obj.value.id));
      attrs["href" := url]["data-url" := url]["data-post-id" := Int(obj.value.id)]["data-post-type" := Str("audio-recording")]
  }

  /** A field and a link that name the same audio meta field point at the same URL. */
  lemma FieldAndLinkAgree(value: Value, attrs: map<string, Value>, field: string, obj: Option<ListingObject>, restRoot: string)
    requires IsRecording(obj) && field in AudioFields
    ensures var fieldSettings := map["dynamic_field_post_meta" := Str(field)];
      var linkSettings := map["dynamic_link_source" := Str("meta_field"), "dynamic_link_source_meta_field" := Str(field)];
      ModifyDynamicLinkAttr(attrs, linkSettings, obj, restRoot)["href"] == ModifyAudioFieldValue(value, fieldSettings, obj, restRoot)
  {
    assert field != "" && field != "0";
    var linkSettings := map["dynamic_link_source" := Str("meta_field"), "dynamic_link_source_meta_field" := Str(field)];
    assert Lookup(linkSettings, "dynamic_link_source") == Str("meta_field");
    assert Lookup(linkSettings, "dynamic_link_source_meta_field") == Str(field);
  }

  /** allow_data_url_attr: the three data attributes appended after the existing entries. */
  function AllowDataUrlAttr(allowed: seq<string>): (r: seq<string>)
    ensures |r| == |allowed| + 3 && r[..|allowed|] == allowed
    ensures r[|allowed|..] == ["data-url", "data-post-id", "data-post-type"]
  {
    allowed + ["data-url", "data-post-id", "data-post-type"]
  }
}
