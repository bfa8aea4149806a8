// The plugin's bounded request logs: the debug-log option written by
// JetEngine_Audio_Debug_Log, the `debug_logs` list inside the streaming
// settings option written by the streaming controller and cleared from the
// settings page, and the client address both log writers record.

module Logs {
  import opened Php
  import StreamSettings

  /** add_log and log_stream_request keep at most this many entries. */
  const LogCap: nat := 100

  /** get_logs' default limit and the settings page's view slice. */
  const ViewLimit: nat := 50

  /**
   * One entry. The clock (`current_time`, `time`) and the request's server
   * variables are inputs; sanitize_text_field is not modelled.
   */
  datatype LogEntry = LogEntry(
    time: string,
    timestamp: int,
    attachmentId: int,
    status: string,
    message: string,
    ip: string,
    userAgent: string,
    requestUri: string)

  /** array_slice($a, 0, n). */
  function Take<T>(s: seq<T>, n: nat): (r: seq<T>)
    ensures |r| == (if |s| <= n then |s| else n)
    ensures r == s[..|r|]
  {
    if |s| <= n then s else s[..n]
  }

  /** array_unshift followed by the cut to LogCap entries. */
  function Prepend(entry: LogEntry, logs: seq<LogEntry>): (r: seq<LogEntry>)
    ensures |r| == (if |logs| < LogCap then |logs| + 1 else LogCap)
    ensures r[0] == entry
    ensures forall i | 1 <= i < |r| :: r[i] == logs[i - 1]
  {
    Take([entry] + logs, LogCap)
  }

  /** A log that was within the cap stays within it, whatever is added. */
  lemma PrependBounded(entry: LogEntry, logs: seq<LogEntry>)
    ensures |Prepend(entry, logs)| <= LogCap
    ensures |logs| < LogCap ==> Prepend(entry, logs) == [entry] + logs
  {
  }

  /** Newest first: the last entries added lead the list in reverse order of arrival. */
  lemma {:induction false} NewestFirst(entries: seq<LogEntry>, logs: seq<LogEntry>)
    requires |entries| <= LogCap
    ensures var r := AddAll(entries, logs);
      |r| >= |entries| && forall i | 0 <= i < |entries| :: r[i] == entries[|entries| - 1 - i]
    decreases |entries|
  {
    if entries != [] {
      var front := entries[..|entries| - 1];
      NewestFirst(front, logs);
      var before := AddAll(front, logs);
      var e := entries[|entries| - 1];
      assert AddAll(entries, logs) == Prepend(e, before);
      forall i | 0 <= i < |entries|
        ensures AddAll(entries, logs)[i] == entries[|entries| - 1 - i]
      {
        if i > 0 {
          assert AddAll(entries, logs)[i] == before[i - 1];
          assert front[|front| - 1 - (i - 1)] == entries[|entries| - 1 - i];
        }
      }
    }
  }

  /** The entries added one after another, first to last. */
  function AddAll(entries: seq<LogEntry>, logs: seq<LogEntry>): (r: seq<LogEntry>)
    ensures |r| <= LogCap || (entries == [] && r == logs)
    decreases |entries|
  {
    if entries == [] then logs
    else Prepend(entries[|entries| - 1], AddAll(entries[..|entries| - 1], logs))
  }

  /** The value of the `jetengine_audio_debug_logs` option. */
  class DebugLog {
    var logs: seq<LogEntry>

    constructor()
      ensures logs == []
    {
      logs := [];
    }

    /** add_log: the new entry first, earlier entries shifted back one, the oldest beyond the cap dropped. */
    method AddLog(entry: LogEntry)
      modifies this
      ensures logs == Prepend(entry, old(logs))
    {
      var next := [entry] + logs;
      if |next| > LogCap {
        next := next[..LogCap];
      }
      logs := next;
    }

    /** get_logs($limit): the first min(limit, n) entries, newest first. */
    method GetLogs(limit: nat) returns (r: seq<LogEntry>)
      ensures r == Take(logs, limit)
    {
      r := logs;
      if |r| > limit {
        r := r[..limit];
      }
    }

    /** clear_logs with a valid nonce: the option is deleted. */
    method ClearLogs(nonceValid: bool)
      modifies this
      ensures logs == (if nonceValid then [] else old(logs))
    {
      if nonceValid {
        logs := [];
      }
    }
  }

  /** add_debug_log_tab: the 'debug_log' tab is set and every other tab kept. */
  function AddDebugLogTab(tabs: map<string, string>): (r: map<string, string>)
    ensures "debug_log" in r && r["debug_log"] == "Debug Log"
    ensures forall k | k != "debug_log" :: (k in r <==> k in tabs) && (k in tabs ==> r[k] == tabs[k])
  {
    tabs["debug_log" := "Debug Log"]
  }

  /** A server variable; a missing one reads as null. */
  function Server(server: map<string, string>, key: string): string { if key in server then server[key] else "" }

  /** get_client_ip: HTTP_CLIENT_IP if not empty, else HTTP_X_FORWARDED_FOR if not empty, else REMOTE_ADDR. */
  function ClientIp(server: map<string, string>): (r: string)
    ensures !EmptyString(Server(server, "HTTP_CLIENT_IP")) ==> r == server["HTTP_CLIENT_IP"]
    ensures EmptyString(Server(server, "HTTP_CLIENT_IP")) && !EmptyString(Server(server, "HTTP_X_FORWARDED_FOR")) ==>
      r == server["HTTP_X_FORWARDED_FOR"]
    ensures EmptyString(Server(server, "HTTP_CLIENT_IP")) && EmptyString(Server(server, "HTTP_X_FORWARDED_FOR")) ==>
      r == Server(server, "REMOTE_ADDR")
  {
    if !EmptyString(Server(server, "HTTP_CLIENT_IP")) then server["HTTP_CLIENT_IP"]
    else if !EmptyString(Server(server, "HTTP_X_FORWARDED_FOR")) then server["HTTP_X_FORWARDED_FOR"]
    else Server(server, "REMOTE_ADDR")
  }

  /** The address always comes from one of the three variables, in order of preference. */
  lemma ClientIpSource(server: map<string, string>)
    ensures ClientIp(server) in {Server(server, "HTTP_CLIENT_IP"), Server(server, "HTTP_X_FORWARDED_FOR"), Server(server, "REMOTE_ADDR")}
  {
  }

  /**
   * The `jetengine_audio_stream_settings` option: its scalar keys and its
   * `debug_logs` list.
   */
  class StreamOption {
    var values: map<string, Value>
    var debugLogs: seq<LogEntry>

    constructor(values: map<string, Value>, debugLogs: seq<LogEntry>)
      ensures this.values == values && this.debugLogs == debugLogs
    {
      this.values := values;
      this.debugLogs := debugLogs;
    }

    /** Streaming_Controller::log_stream_request: prepend, cut to 100, the other keys untouched. */
    method LogStreamRequest(entry: LogEntry)
      modifies this
      ensures debugLogs == Prepend(entry, old(debugLogs))
      ensures values == old(values)
    {
      var logs := [entry] + debugLogs;
      if |logs| > LogCap {
        logs := logs[..LogCap];
      }
      debugLogs := logs;
    }

    /**
     * Saving the settings form through Settings_Page::sanitize_settings: the
     * scalar keys become the sanitised input, and the stored list (empty when
     * there was none) is carried over whatever the input holds.
     */
    method SaveSettings(input: map<string, Value>)
      modifies this
      ensures values == StreamSettings.SanitizeSettings(input)
      ensures debugLogs == old(debugLogs)
    {
      values := StreamSettings.SanitizeSettings(input);
    }

    /**
     * Settings_Page::clear_debug_logs as written: update_option passes the
     * emptied array through the sanitize callback register_settings attached
     * on admin_init, which puts the stored list back and re-sanitises the
     * scalar keys.
     */
    method ClearDebugLogsAsWritten(nonceValid: bool)
      modifies this
      ensures debugLogs == old(debugLogs)
      ensures values == (if nonceValid then StreamSettings.SanitizeSettings(old(values)) else old(values))
    {
      if nonceValid {
        SaveSettings(values);
      }
    }

    /** Settings_Page::clear_debug_logs as intended, with a valid nonce: the list is emptied, the other keys untouched. */
    method ClearDebugLogs(nonceValid: bool)
      modifies this
      ensures debugLogs == (if nonceValid then [] else old(debugLogs))
      ensures values == old(values)
    {
      if nonceValid {
        debugLogs := [];
      }
    }

    /** The settings page's log tab: the first 50 entries. */
    function ViewedLogs(): (r: seq<LogEntry>)
      reads this
      ensures |r| <= ViewLimit && |r| <= |debugLogs| && r == debugLogs[..|r|]
      ensures |debugLogs| >= ViewLimit ==> |r| == ViewLimit
    {
      Take(debugLogs, ViewLimit)
    }
  }

  /** As written, clearing a one-entry log with a valid nonce leaves that entry in place. */
  method ClearKeepsLog(entry: LogEntry, values: map<string, Value>) returns (after: seq<LogEntry>)
    ensures after == [entry]
  {
    var option := new StreamOption(values, [entry]);
    option.ClearDebugLogsAsWritten(true);
    after := option.debugLogs;
  }

  /** As intended, the same clear leaves the log empty. */
  method ClearEmptiesLog(entry: LogEntry, values: map<string, Value>) returns (after: seq<LogEntry>)
    ensures after == []
  {
    var option := new StreamOption(values, [entry]);
    option.ClearDebugLogs(true);
    after := option.debugLogs;
  }
}
