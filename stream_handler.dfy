// JetEngine_Audio_Stream_Handler: the upload MIME table, the audio test and
// the stored waveform.

module StreamHandler {
  import opened Wrappers
  import opened Text
  import opened Php
  import opened Library

  /** add_audio_mime_types: mp3, wav, ogg and m4a set to their types; every other extension kept. */
  function AddAudioMimeTypes(mimes: map<string, string>): (r: map<string, string>)
    ensures r.Keys == mimes.Keys + {"mp3", "wav", "ogg", "m4a"}
    ensures r["mp3"] == "audio/mpeg" && r["wav"] == "audio/wav" && r["ogg"] == "audio/ogg" && r["m4a"] == "audio/m4a"
    ensures forall ext | ext in mimes && ext !in {"mp3", "wav", "ogg", "m4a"} :: r[ext] == mimes[ext]
  {
    mimes["mp3" := "audio/mpeg"]["wav" := "audio/wav"]["ogg" := "audio/ogg"]["m4a" := "audio/m4a"]
  }

  /** Adding the types twice adds nothing more. */
  lemma AddAudioMimeTypesIdempotent(mimes: map<string, string>)
    ensures AddAudioMimeTypes(AddAudioMimeTypes(mimes)) == AddAudioMimeTypes(mimes)
  {
  }

  /** get_post_mime_type(): false for a missing post. */
  function MimeOf(site: Site, id: nat): Option<string> {
    var p := GetPost(site, id);
    if p.Some? then Some(p.value.mime) else None
  }

  /** is_audio_file: a truthy MIME type that starts with 'audio/'. */
  predicate IsAudioFile(site: Site, id: nat) {
    var m := MimeOf(site, id);
    m.Some? && !EmptyString(m.value) && StartsWith(m.value, "audio/")
  }

  /** The test is exactly: the post exists and its MIME type starts with 'audio/'. */
  lemma IsAudioFileExactly(site: Site, id: nat)
    ensures IsAudioFile(site, id) <==> GetPost(site, id).Some? && StartsWith(GetPost(site, id).value.mime, "audio/")
  {
    if GetPost(site, id).Some? && StartsWith(GetPost(site, id).value.mime, "audio/") {
      var m := GetPost(site, id).value.mime;
      assert |m| >= 6;
    }
  }

  /** get_attached_file() names an existing file. */
  predicate HasFile(site: Site, id: nat) {
    var p := GetPost(site, id);
    p.Some? && !EmptyString(p.value.path) && p.value.file.present
  }

  /** The `_audio_waveform` post meta, as JSON text; a missing key reads as "". */
  class WaveformMeta {
    var waveforms: map<nat, string>

    constructor(waveforms: map<nat, string>)
      ensures this.waveforms == waveforms
    {
      this.waveforms := waveforms;
    }

    function Stored(id: nat): string
      reads this
    {
      if id in waveforms then waveforms[id] else ""
    }

    /**
     * generate_waveform_data, with the random placeholder's JSON given:
     * existing data is kept and reported as success; a missing file is a
     * failure; otherwise the placeholder is stored.
     */
    method GenerateWaveformData(site: Site, id: nat, placeholder: string) returns (ok: bool)
      modifies this
      ensures !EmptyString(old(Stored(id))) ==> ok && waveforms == old(waveforms)
      ensures EmptyString(old(Stored(id))) && !HasFile(site, id) ==> !ok && waveforms == old(waveforms)
      ensures EmptyString(old(Stored(id))) && HasFile(site, id) ==> ok && waveforms == old(waveforms)[id := placeholder]
    {
      if !EmptyString(Stored(id)) {
        return true;
      }
      if !HasFile(site, id) {
        return false;
      }
      waveforms := waveforms[id := placeholder];
      ok := true;
    }

    /** get_waveform_data: the stored JSON, generated first when empty; false (None) when it is still empty. */
    method GetWaveformData(site: Site, id: nat, placeholder: string) returns (r: Option<string>)
      modifies this
      ensures r.None? <==> EmptyString(Stored(id))
      ensures r.Some? ==> r.value == Stored(id)
      ensures !EmptyString(old(Stored(id))) ==> r == Some(old(Stored(id))) && waveforms == old(waveforms)
      ensures EmptyString(old(Stored(id))) ==> (r.None? <==> !HasFile(site, id) || EmptyString(placeholder))
    {
      var data := Stored(id);
      if EmptyString(data) {
        var generated := GenerateWaveformData(site, id, placeholder);
        if generated {
          data := Stored(id);
        }
      }
      if !EmptyString(data) {
        return Some(data);
      }
      return None;
    }
  }
}
