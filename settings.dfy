// The plugin's settings sanitisers and readers: the three-key sanitiser that
// the settings page (option `jetengine_audio_stream_settings`) and
// JetEngine_Audio_Stream_Settings (option `jetengine_audio_stream`) each
// apply to their own option, the chunked player's Audio_Settings, and the
// two admin settings classes.

/** The `if < lo … elseif > hi` clamp every numeric sanitiser uses. */
module Clamps {
  function Clamp(x: int, lo: int, hi: int): (r: int)
    requires lo <= hi
    ensures lo <= r <= hi
    ensures lo <= x <= hi ==> r == x
    ensures x < lo ==> r == lo
    ensures x > hi ==> r == hi
  {
    if x < lo then lo else if x > hi then hi else x
  }
}

module StreamSettings {
  import opened Wrappers
  import opened Text
  import opened Php

  const DefaultMaxMb: nat := 2048

  /** isset(): the key is present and not null. */
  predicate IsSet(input: map<string, Value>, key: string) { Lookup(input, key) != Null }

  /** The characters the allowed-types filter keeps. */
  predicate FileTypeChar(c: char) { IsAsciiLetter(c) || IsDigit(c) || c == ',' }

  predicate NotSpace(c: char) { !IsSpace(c) }

  /** The two preg_replace passes: white space removed, then anything but letters, digits and commas. */
  function FileTypes(s: string): (r: string)
    ensures forall i | 0 <= i < |r| :: FileTypeChar(r[i])
  {
    Filter(Filter(s, NotSpace), FileTypeChar)
  }

  /** The first pass is subsumed by the second: the result is s with exactly its letters, digits and commas. */
  lemma FileTypesIsOneFilter(s: string)
    ensures FileTypes(s) == Filter(s, FileTypeChar)
  {
    FilterTwice(s, NotSpace, FileTypeChar);
  }

  /** Filtering a filtered list changes nothing. */
  lemma FileTypesIdempotent(s: string)
    ensures FileTypes(FileTypes(s)) == FileTypes(s)
  {
    FilterKeepsAll(FileTypes(s), NotSpace);
    FilterKeepsAll(FileTypes(s), FileTypeChar);
  }

  /** A clean list is kept as it is. */
  lemma FileTypesKeepsClean(s: string)
    requires forall i | 0 <= i < |s| :: FileTypeChar(s[i])
    ensures FileTypes(s) == s
  {
    FilterKeepsAll(s, NotSpace);
    FilterKeepsAll(s, FileTypeChar);
  }

  /** The default list passes the filter unchanged. */
  lemma DefaultTypesClean()
    ensures FileTypes("mp3,wav,ogg") == "mp3,wav,ogg"
  {
    var d := "mp3,wav,ogg";
    forall i | 0 <= i < |d| ensures FileTypeChar(d[i]) {
    }
    FileTypesKeepsClean(d);
  }

  /**
   * sanitize_settings: exactly the three scalar keys; enable_streaming the
   * truthiness of a set input; the filtered types or 'mp3,wav,ogg'; a
   * positive absint() of the size or 2048.
   */
  function SanitizeSettings(input: map<string, Value>): (r: map<string, Value>)
    ensures r.Keys == {"enable_streaming", "allowed_file_types", "max_file_size"}
    ensures r["enable_streaming"] == Bool(IsSet(input, "enable_streaming") && Truthy(input["enable_streaming"]))
    ensures IsSet(input, "allowed_file_types") ==> r["allowed_file_types"] == Str(FileTypes(ToStr(input["allowed_file_types"])))
    ensures !IsSet(input, "allowed_file_types") ==> r["allowed_file_types"] == Str("mp3,wav,ogg")
    ensures r["max_file_size"].Int? && r["max_file_size"].i >= 1
    ensures IsSet(input, "max_file_size") && AbsInt(input["max_file_size"]) > 0 ==>
      r["max_file_size"] == Int(AbsInt(input["max_file_size"]))
    ensures !(IsSet(input, "max_file_size") && AbsInt(input["max_file_size"]) > 0) ==> r["max_file_size"] == Int(DefaultMaxMb)
  {
    var enable := IsSet(input, "enable_streaming") && Truthy(input["enable_streaming"]);
    var types := if IsSet(input, "allowed_file_types") then FileTypes(ToStr(input["allowed_file_types"])) else "mp3,wav,ogg";
    var max := if IsSet(input, "max_file_size") && AbsInt(input["max_file_size"]) > 0 then AbsInt(input["max_file_size"]) else DefaultMaxMb;
    map["enable_streaming" := Bool(enable), "allowed_file_types" := Str(types), "max_file_size" := Int(max)]
  }

  /** Saving the sanitised form again changes nothing. */
  lemma SanitizeIdempotent(input: map<string, Value>)
    ensures SanitizeSettings(SanitizeSettings(input)) == SanitizeSettings(input)
  {
    var once := SanitizeSettings(input);
    var twice := SanitizeSettings(once);
    var types := once["allowed_file_types"].s;
    if IsSet(input, "allowed_file_types") {
      FileTypesIdempotent(ToStr(input["allowed_file_types"]));
    } else {
      DefaultTypesClean();
    }
    assert FileTypes(types) == types;
    assert twice["allowed_file_types"] == once["allowed_file_types"];
    assert twice["enable_streaming"] == once["enable_streaming"];
    assert AbsInt(once["max_file_size"]) == once["max_file_size"].i;
    assert twice["max_file_size"] == once["max_file_size"];
  }

  const Defaults: map<string, Value> :=
    map["enable_streaming" := Bool(true), "allowed_file_types" := Str("mp3,wav,ogg,m4a,flac"), "max_file_size" := Int(DefaultMaxMb)]

  /** get_settings: wp_parse_args of the stored option (the defaults when there is none) over the defaults. */
  function GetSettings(stored: Option<map<string, Value>>): (r: map<string, Value>)
    ensures r.Keys == Defaults.Keys + (if stored.Some? then stored.value.Keys else {})
    ensures stored.Some? ==> forall key | key in stored.value :: r[key] == stored.value[key]
    ensures forall key | key in Defaults && (stored.None? || key !in stored.value) :: r[key] == Defaults[key]
  {
    var options := if stored.Some? then stored.value else Defaults;
    Defaults + options
  }

  /** A saved option reads back exactly as it was sanitised. */
  lemma SavedReadsBack(input: map<string, Value>)
    ensures GetSettings(Some(SanitizeSettings(input))) == SanitizeSettings(input)
  {
  }
}

module AudioSettings {
  import opened Wrappers
  import opened Text
  import opened Php
  import opened Clamps
  import AudioEndpoints

  /*
   * The sanitisers
   */

  /** sanitize_chunk_size on the floatval() of the input: clamped to [0.1, 10] MB. */
  function SanitizeChunkSize(x: real): (r: real)
    ensures 0.1 <= r <= 10.0
    ensures 0.1 <= x <= 10.0 ==> r == x
    ensures x < 0.1 ==> r == 0.1
    ensures x > 10.0 ==> r == 10.0
  {
    if x < 0.1 then 0.1 else if x > 10.0 then 10.0 else x
  }

  /** sanitize_bitrate: intval() clamped to [64, 320]. */
  function SanitizeBitrate(v: Value): (r: int)
    ensures 64 <= r <= 320
    ensures 64 <= IntValue(v) <= 320 ==> r == IntValue(v)
  {
    Clamp(IntValue(v), 64, 320)
  }

  const SampleRates: set<int> := {22050, 32000, 44100, 48000}

  /** sanitize_samplerate: intval() when it is an allowed rate, else 44100. */
  function SanitizeSamplerate(v: Value): (r: int)
    ensures r in SampleRates
    ensures r == IntValue(v) <==> IntValue(v) in SampleRates
    ensures IntValue(v) !in SampleRates ==> r == 44100
  {
    if IntValue(v) in SampleRates then IntValue(v) else 44100
  }

  /** Sanitising a sanitised value changes nothing. */
  lemma SanitizersIdempotent(x: real, v: Value)
    ensures SanitizeChunkSize(SanitizeChunkSize(x)) == SanitizeChunkSize(x)
    ensures SanitizeBitrate(Int(SanitizeBitrate(v))) == SanitizeBitrate(v)
    ensures SanitizeSamplerate(Int(SanitizeSamplerate(v))) == SanitizeSamplerate(v)
  {
  }

  /*
   * get_settings
   */

  /** The option each setting is read from, and its default. */
  const OptionNames: map<string, string> := map[
    "chunk_size" := "je_audio_chunk_size",
    "max_file_size" := "je_audio_max_size",
    "debug_mode" := "je_audio_debug_mode",
    "mp3_bitrate" := "je_audio_mp3_bitrate",
    "mp3_samplerate" := "je_audio_mp3_samplerate",
    "auto_convert" := "je_audio_auto_convert",
    "enable_clipboard" := "je_audio_enable_clipboard"]

  const DefaultSettings: map<string, Value> := map[
    "chunk_size" := Int(1),
    "max_file_size" := Int(50),
    "debug_mode" := Bool(false),
    "mp3_bitrate" := Int(128),
    "mp3_samplerate" := Int(44100),
    "auto_convert" := Bool(true),
    "enable_clipboard" := Bool(true)]

  /** get_option($name, $default). */
  function GetOption(options: map<string, Value>, name: string, default: Value): Value {
    if name in options then options[name] else default
  }

  /** The array get_settings builds: every setting from its option, or its default. */
  function ReadSettings(options: map<string, Value>): (r: map<string, Value>)
    ensures r.Keys == DefaultSettings.Keys
    ensures forall key | key in r :: r[key] == (if OptionNames[key] in options then options[OptionNames[key]] else DefaultSettings[key])
  {
    map key | key in DefaultSettings :: GetOption(options, OptionNames[key], DefaultSettings[key])
  }

  /** Without stored options the settings are the defaults. */
  lemma ReadDefaults()
    ensures ReadSettings(map[]) == DefaultSettings
  {
  }

  /** The memo in `$this->settings`. */
  class Settings {
    var settings: map<string, Value>

    constructor()
      ensures settings == map[]
    {
      settings := map[];
    }

    /** get_settings: read the options into the memo when it is empty; return the memo. */
    method GetSettings(options: map<string, Value>) returns (r: map<string, Value>)
      modifies this
      ensures old(settings) == map[] ==> settings == ReadSettings(options)
      ensures old(settings) != map[] ==> settings == old(settings)
      ensures r == settings && r != map[]
    {
      if settings == map[] {
        settings := ReadSettings(options);
        assert "chunk_size" in settings;
      }
      r := settings;
    }
  }

  /** Once read, the memo is kept: a second call returns the first call's array, whatever the options are by then. */
  method ReadTwice(first: map<string, Value>, second: map<string, Value>) returns (a: map<string, Value>, b: map<string, Value>)
    ensures a == b == ReadSettings(first)
  {
    var s := new Settings();
    a := s.GetSettings(first);
    b := s.GetSettings(second);
  }

  /*
   * clear_cache_ajax without the logs component
   */

  const TimeoutPrefix := "_transient_timeout_"
  const ValuePrefix := "_transient_"

  /** The transient an option name belongs to: its timeout prefix cut off, or else its value prefix. */
  function CacheClearKey(name: string): (r: string)
    ensures StartsWith(name, TimeoutPrefix) ==> name == TimeoutPrefix + r
    ensures !StartsWith(name, TimeoutPrefix) && StartsWith(name, ValuePrefix) ==> name == ValuePrefix + r
  {
    if StartsWith(name, TimeoutPrefix) then name[|TimeoutPrefix|..]
    else if |name| >= |ValuePrefix| then name[|ValuePrefix|..]
    else ""
  }

  /** The value row and the timeout row of a chunk transient name the same key. */
  lemma BothRowsNameTheKey(key: string)
    requires StartsWith(key, "jet_audio_chunk_")
    ensures CacheClearKey(ValuePrefix + key) == key
    ensures CacheClearKey(TimeoutPrefix + key) == key
  {
    var v := ValuePrefix + key;
    assert v[..|ValuePrefix|] == ValuePrefix;
    assert v[11] == key[0] == 'j' != TimeoutPrefix[11];
    assert !StartsWith(v, TimeoutPrefix) by {
      if |TimeoutPrefix| <= |v| { assert v[..|TimeoutPrefix|][11] == v[11]; }
    }
    var t := TimeoutPrefix + key;
    assert t[..|TimeoutPrefix|] == TimeoutPrefix;
  }

  function ClearKeys(names: seq<string>): (r: seq<string>)
    ensures |r| == |names| && forall i | 0 <= i < |names| :: r[i] == CacheClearKey(names[i])
  {
    seq(|names|, i requires 0 <= i < |names| => CacheClearKey(names[i]))
  }

  /** The fallback sweep: each row's transient deleted in turn, counted only when the delete succeeds. */
  method ClearCacheFallback(names: seq<string>, store: set<string>) returns (count: nat, remaining: set<string>)
    ensures (count, remaining) == AudioEndpoints.Cleared(ClearKeys(names), store)
  {
    ghost var keys := ClearKeys(names);
    count, remaining := 0, store;
    var i := 0;
    while i < |names|
      invariant 0 <= i <= |names|
      invariant var r := AudioEndpoints.Cleared(keys[i..], remaining); (count + r.0, r.1) == AudioEndpoints.Cleared(keys, store)
    {
      var key := CacheClearKey(names[i]);
      AudioEndpoints.ClearedStep(keys, i, remaining);
      if key !in remaining {
        assert remaining - {key} == remaining;
      }
      if key in remaining {
        remaining := remaining - {key};
        count := count + 1;
      }
      i := i + 1;
    }
  }

  /** A transient listed by both its rows counts once: the count is the number of stored transients named. */
  lemma FallbackCountsTransients(names: seq<string>, store: set<string>)
    ensures AudioEndpoints.Cleared(ClearKeys(names), store).0 == |store * AudioEndpoints.Elements(ClearKeys(names))|
    ensures AudioEndpoints.Cleared(ClearKeys(names), store).1 == store - AudioEndpoints.Elements(ClearKeys(names))
  {
    AudioEndpoints.ClearedCount(ClearKeys(names), store);
    AudioEndpoints.ClearedLaws(ClearKeys(names), store);
  }

  /*
   * The log table's classes
   */

  /** The status column's class, by the code's range. */
  function StatusClass(code: int): (r: string)
    ensures r == "error" <==> code >= 400
    ensures r == "warning" <==> 300 <= code < 400
    ensures r == "success" <==> 200 <= code < 300
    ensures r == "" <==> code < 200
  {
    if code >= 400 then "error" else if code >= 300 then "warning" else if code >= 200 then "success" else ""
  }

  /** The duration column's class in milliseconds; a zero duration gets no span at all. */
  function DurationClass(ms: int): (r: Option<string>)
    ensures r.None? <==> ms == 0
    ensures r == Some("warning") <==> ms > 2000
    ensures r == Some("notice") <==> 1000 < ms <= 2000
    ensures r == Some("") <==> ms != 0 && ms <= 1000
  {
    if ms == 0 then None else if ms > 2000 then Some("warning") else if ms > 1000 then Some("notice") else Some("")
  }
}

module AdminSettings {
  import opened Php
  import opened Clamps

  /** sanitize_buffer_size: absint() clamped to [8, 1024] KB. */
  function SanitizeBufferSize(v: Value): (r: nat)
    ensures 8 <= r <= 1024
    ensures 8 <= AbsInt(v) <= 1024 ==> r == AbsInt(v)
  {
    Clamp(AbsInt(v), 8, 1024)
  }

  /** sanitize_bitrate: absint() clamped to [64, 320] kbps. */
  function SanitizeBitrate(v: Value): (r: nat)
    ensures 64 <= r <= 320
    ensures 64 <= AbsInt(v) <= 320 ==> r == AbsInt(v)
  {
    Clamp(AbsInt(v), 64, 320)
  }

  /** Both are idempotent, and the identity on stored in-range integers. */
  lemma SanitizersIdempotent(v: Value, n: int)
    ensures SanitizeBufferSize(Int(SanitizeBufferSize(v))) == SanitizeBufferSize(v)
    ensures SanitizeBitrate(Int(SanitizeBitrate(v))) == SanitizeBitrate(v)
    ensures 8 <= n <= 1024 ==> SanitizeBufferSize(Int(n)) == n
    ensures 64 <= n <= 320 ==> SanitizeBitrate(Int(n)) == n
  {
  }

  /** The settings in the units the player uses. */
  datatype Config = Config(
    bufferSize: int,
    bitrate: int,
    preloadDuration: int,
    debugMode: bool,
    maxSize: int,
    enableClipboard: bool,
    disableWaveform: bool)

  function GetOption(options: map<string, Value>, name: string, default: Value): Value {
    if name in options then options[name] else default
  }

  /** get_settings: buffer size KB to bytes, max size MB to bytes, the flags cast to bool. */
  function GetSettings(options: map<string, Value>): (r: Config)
    ensures r.bufferSize == IntValue(GetOption(options, "je_audio_buffer_size", Int(64))) * 1024
    ensures r.maxSize == IntValue(GetOption(options, "je_audio_max_size", Int(50))) * 1024 * 1024
    ensures r.debugMode == Truthy(GetOption(options, "je_audio_debug_mode", Bool(false)))
  {
    Config(
      IntValue(GetOption(options, "je_audio_buffer_size", Int(64))) * 1024,
      IntValue(GetOption(options, "je_audio_bitrate", Int(128))),
      IntValue(GetOption(options, "je_audio_preload_duration", Int(30))),
      Truthy(GetOption(options, "je_audio_debug_mode", Bool(false))),
      IntValue(GetOption(options, "je_audio_max_size", Int(50))) * 1024 * 1024,
      Truthy(GetOption(options, "je_audio_enable_clipboard", Bool(true))),
      Truthy(GetOption(options, "je_audio_disable_waveform", Bool(false))))
  }

  /** With nothing stored: 64 KB, 128 kbps, 30 s, no debug, 50 MB, clipboard on, waveform on. */
  lemma Defaults()
    ensures GetSettings(map[]) == Config(65536, 128, 30, false, 52428800, true, false)
  {
  }

  /** A buffer size saved through its sanitiser reads back as 8 KiB to 1 MiB of bytes. */
  lemma SavedBufferInBytes(options: map<string, Value>, v: Value)
    ensures var r := GetSettings(options["je_audio_buffer_size" := Int(SanitizeBufferSize(v))]);
      r.bufferSize == SanitizeBufferSize(v) * 1024 && 8192 <= r.bufferSize <= 1048576
  {
  }
}

module AudioAdminSettings {
  import opened Php
  import opened Clamps
  import AdminSettings

  /** sanitize_buffer_size: absint() clamped to [8, 1024] KB. */
  function SanitizeBufferSize(v: Value): (r: nat)
    ensures 8 <= r <= 1024
    ensures 8 <= AbsInt(v) <= 1024 ==> r == AbsInt(v)
  {
    Clamp(AbsInt(v), 8, 1024)
  }

  /** sanitize_bitrate: absint() clamped to [32, 320] kbps; this copy's floor is 32. */
  function SanitizeBitrate(v: Value): (r: nat)
    ensures 32 <= r <= 320
    ensures 32 <= AbsInt(v) <= 320 ==> r == AbsInt(v)
  {
    Clamp(AbsInt(v), 32, 320)
  }

  /** absint() makes both sanitisers blind to the sign. */
  lemma SignBlind(x: int)
    ensures SanitizeBufferSize(Int(-x)) == SanitizeBufferSize(Int(x))
    ensures SanitizeBitrate(Int(-x)) == SanitizeBitrate(Int(x))
  {
  }

  lemma SanitizersIdempotent(v: Value)
    ensures SanitizeBufferSize(Int(SanitizeBufferSize(v))) == SanitizeBufferSize(v)
    ensures SanitizeBitrate(Int(SanitizeBitrate(v))) == SanitizeBitrate(v)
  {
  }

  /** The two admin classes disagree exactly on inputs whose absolute value is below 64. */
  lemma BitrateFloorsDiffer(n: int)
    ensures SanitizeBitrate(Int(n)) != AdminSettings.SanitizeBitrate(Int(n)) <==> -64 < n < 64
  {
  }
}
