// The plugin's global helpers for attachment files: size in bytes, the
// "File not found" label, and the info record the resolve-id route returns.

module Functions {
  import opened Wrappers
  import opened Text
  import opened Php
  import opened Http
  import opened Library

  /** get_attached_file() names a file that exists and is readable. */
  predicate FileUsable(p: Post) { !EmptyString(p.path) && Accessible(p.file) }

  /** jetengine_audio_stream_get_file_size(): the size of a usable file, else 0. */
  function FileSize(site: Site, id: nat): (r: nat)
    ensures r > 0 ==> GetPost(site, id).Some? && FileUsable(GetPost(site, id).value)
    ensures GetPost(site, id).Some? && FileUsable(GetPost(site, id).value) ==> r == |GetPost(site, id).value.file.data|
  {
    var p := GetPost(site, id);
    if p.Some? && FileUsable(p.value) then |p.value.file.data| else 0
  }

  /** The label jetengine_audio_stream_format_file_size() shows; size_format() itself is not modelled. */
  datatype SizeLabel = FileNotFound | Formatted(bytes: nat)

  function FormatFileSize(site: Site, id: nat): (r: SizeLabel)
    ensures r == FileNotFound <==> FileSize(site, id) == 0
    ensures r.Formatted? ==> r.bytes == FileSize(site, id) && r.bytes > 0
  {
    var size := FileSize(site, id);
    if size <= 0 then FileNotFound else Formatted(size)
  }

  /**
   * What a stream handler decides before any byte is sent: an error with its
   * HTTP status and WP_Error code, a redirect to the file's URL, or streaming
   * the post's attached file.
   */
  datatype Decision = Refuse(status: nat, code: string) | SendTo(url: string) | Serve(post: Post)

  /** The array jetstream_get_attachment_info() returns. */
  datatype Info = Info(url: string, mime: string, size: nat, filename: string)

  const DefaultInfo := Info("", "", 0, "")

  function AttachmentInfo(site: Site, id: nat): (r: Info)
    ensures GetPost(site, id).None? ==> r == DefaultInfo
    ensures GetPost(site, id).Some? && !FileUsable(GetPost(site, id).value) ==> r == DefaultInfo
    ensures GetPost(site, id).Some? && FileUsable(GetPost(site, id).value) ==>
      var p := GetPost(site, id).value;
      r == Info(p.url, p.mime, |p.file.data|, Basename(p.path))
  {
    var p := GetPost(site, id);
    if p.None? then DefaultInfo
    else if !FileUsable(p.value) then DefaultInfo
    else Info(p.value.url, p.value.mime, |p.value.file.data|, Basename(p.value.path))
  }

  /** The size in the info record is the size helper's answer, for every id. */
  lemma InfoSizeIsFileSize(site: Site, id: nat)
    ensures AttachmentInfo(site, id).size == FileSize(site, id)
  {
  }

  /** A filled record names the file by its last path segment and carries its size. */
  lemma InfoFilename(site: Site, id: nat, dir: string, name: string)
    requires GetPost(site, id).Some? && FileUsable(GetPost(site, id).value)
    requires GetPost(site, id).value.path == dir + "/" + name
    requires name != [] && forall i | 0 <= i < |name| :: name[i] != '/'
    ensures AttachmentInfo(site, id).filename == name
  {
    BasenameOfPath(dir, name);
  }
}
