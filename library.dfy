// The WordPress media library as the handlers see it: posts, the
// `_wp_attached_file` meta rows, get_post(), and the three kinds of
// attachment query the resolvers run (a meta LIKE, an 's' search and an
// exact title), each returning its first hit in the index's order.

module Library {
  import opened Wrappers
  import opened Text
  import opened Http

  /**
   * A post. For attachments, `path` is what get_attached_file() returns,
   * `file` what the file system holds there, `url` what
   * wp_get_attachment_url() returns and `audio` what wp_attachment_is('audio')
   * decides.
   */
  datatype Post = Post(
    id: nat,
    postType: string,
    status: string,
    mime: string,
    title: string,
    url: string,
    audio: bool,
    path: string,
    file: DiskFile)

  /** A `_wp_attached_file` row of the postmeta table. */
  datatype MetaRow = MetaRow(postId: nat, attachedFile: string)

  datatype Site = Site(posts: seq<Post>, attachedFiles: seq<MetaRow>)

  /** The first index whose element satisfies p. */
  function FirstWhere<T>(s: seq<T>, p: T -> bool): (r: Option<nat>)
    ensures r.Some? ==> r.value < |s| && p(s[r.value]) && forall j | 0 <= j < r.value :: !p(s[j])
    ensures r.None? ==> forall j | 0 <= j < |s| :: !p(s[j])
    decreases |s|
  {
    if s == [] then None
    else if p(s[0]) then Some(0)
    else
      var r := FirstWhere(s[1..], p);
      if r.Some? then Some(r.value + 1) else None
  }

  /** get_post(): the post with that id; id 0 names no post. */
  function GetPost(site: Site, id: nat): (r: Option<Post>)
    ensures r.Some? ==> r.value.id == id && id != 0 && r.value in site.posts
    ensures r.None? ==> id == 0 || forall p | p in site.posts :: p.id != id
  {
    if id == 0 then None
    else
      var i := FirstWhere(site.posts, (p: Post) => p.id == id);
      if i.Some? then Some(site.posts[i.value]) else None
  }

  /** SQL `LIKE '%needle%'` under the case-insensitive collation WordPress tables use. */
  predicate Like(value: string, needle: string) { Contains(Lower(value), Lower(needle)) }

  predicate IsAttachment(p: Post) { p.postType == "attachment" && p.status == "inherit" }

  /** `$wpdb->get_var` over the meta rows: the post id of the first row that matches. */
  function MetaLike(site: Site, needle: string): (r: Option<nat>)
    ensures r.Some? ==> exists row | row in site.attachedFiles :: row.postId == r.value && Like(row.attachedFile, needle)
    ensures r.None? ==> forall row | row in site.attachedFiles :: !Like(row.attachedFile, needle)
  {
    var i := FirstWhere(site.attachedFiles, (row: MetaRow) => Like(row.attachedFile, needle));
    if i.Some? then Some(site.attachedFiles[i.value].postId) else None
  }

  /** A meta row whose post is an attachment WP_Query would return. */
  predicate AttachmentRow(site: Site, row: MetaRow) {
    var p := GetPost(site, row.postId);
    p.Some? && IsAttachment(p.value)
  }

  /** WP_Query with a `_wp_attached_file` LIKE meta query and posts_per_page 1. */
  function QueryByMeta(site: Site, needle: string): (r: Option<nat>)
    ensures r.Some? ==> exists row | row in site.attachedFiles ::
      row.postId == r.value && Like(row.attachedFile, needle) && AttachmentRow(site, row)
    ensures r.None? ==> forall row | row in site.attachedFiles ::
      !(Like(row.attachedFile, needle) && AttachmentRow(site, row))
  {
    var i := FirstWhere(site.attachedFiles, (row: MetaRow) => Like(row.attachedFile, needle) && AttachmentRow(site, row));
    if i.Some? then Some(site.attachedFiles[i.value].postId) else None
  }

  /** WP_Query with 's': modelled as a title LIKE over the attachments. */
  function QueryBySearch(site: Site, term: string): (r: Option<nat>)
    ensures r.Some? ==> exists p | p in site.posts :: p.id == r.value && IsAttachment(p) && Like(p.title, term)
    ensures r.None? ==> forall p | p in site.posts :: !(IsAttachment(p) && Like(p.title, term))
  {
    var i := FirstWhere(site.posts, (p: Post) => IsAttachment(p) && Like(p.title, term));
    if i.Some? then Some(site.posts[i.value].id) else None
  }

  /** WP_Query with 'title': an attachment whose title equals the term (case-insensitively). */
  function QueryByTitle(site: Site, title: string): (r: Option<nat>)
    ensures r.Some? ==> exists p | p in site.posts :: p.id == r.value && IsAttachment(p) && Lower(p.title) == Lower(title)
    ensures r.None? ==> forall p | p in site.posts :: !(IsAttachment(p) && Lower(p.title) == Lower(title))
  {
    var i := FirstWhere(site.posts, (p: Post) => IsAttachment(p) && Lower(p.title) == Lower(title));
    if i.Some? then Some(site.posts[i.value].id) else None
  }

  lemma ContainsItself(s: string)
    ensures Contains(s, s)
  {
    assert OccursAt(s, s, 0);
  }

  /** A title equal to the term also contains it: the title search finds whatever the exact-title query would. */
  lemma TitleQueryImpliesSearch(site: Site, title: string)
    requires QueryByTitle(site, title).Some?
    ensures QueryBySearch(site, title).Some?
  {
    var p :| p in site.posts && IsAttachment(p) && Lower(p.title) == Lower(title);
    ContainsItself(Lower(p.title));
    assert Like(p.title, title);
  }

  /** A string containing a + b + c contains b. */
  lemma {:induction false} ContainsInner(s: string, a: string, b: string, c: string)
    requires Contains(s, a + b + c)
    ensures Contains(s, b)
  {
    var i: nat :| i <= |s| && OccursAt(s, a + b + c, i);
    var w := s[i..i + |a + b + c|];
    assert w == a + b + c;
    forall k | 0 <= k < |b| ensures s[i + |a| + k] == b[k] {
      assert s[i + |a| + k] == w[|a| + k];
      assert (a + b + c)[|a| + k] == b[k];
    }
    assert s[i + |a|..i + |a| + |b|] == b;
    assert (a + b + c)[|a|..|a| + |b|] == b;
    assert OccursAt(s, b, i + |a|);
  }

  lemma {:induction false} LowerConcat(a: string, b: string)
    ensures Lower(a + b) == Lower(a) + Lower(b)
  {
    var l := Lower(a + b);
    assert |l| == |Lower(a) + Lower(b)|;
    forall i | 0 <= i < |l| ensures l[i] == (Lower(a) + Lower(b))[i] {
      if i < |a| { assert (a + b)[i] == a[i]; } else { assert (a + b)[i] == b[i - |a|]; }
    }
  }

  /** A LIKE on a longer pattern implies the LIKE on any infix of it. */
  lemma LikeInner(value: string, a: string, b: string, c: string)
    requires Like(value, a + b + c)
    ensures Like(value, b)
  {
    LowerConcat(a + b, c);
    LowerConcat(a, b);
    ContainsInner(Lower(value), Lower(a), Lower(b), Lower(c));
  }
}
