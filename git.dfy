/** `GitUtils` (lib/git_utils.py): a checked-out blog repository whose
    working tree is a map from relative path to file bytes. Files are
    written only when their content differs from what is on disk, and the
    paths written are committed and pushed together. The push history is a
    ghost log of commits. */
module Git {
  import opened Wrappers
  import opened Text
  import opened Utf8

  /** Relative path to file content. */
  type Tree = map<string, Bytes>

  /** A commit pushed to the remote: message, author (also the committer),
      the staged paths in order, and the bytes they held. */
  datatype Commit = Commit(
    message: string,
    authorName: string,
    authorEmail: string,
    paths: seq<string>,
    files: map<string, Bytes>)

  /** What `requests.get(image_url)` returned: the body and the
      `Content-Type` header (`""` when the header is missing). */
  datatype Download = Download(body: Bytes, contentType: string)

  const BotName: string := "TSR Service Account [Bot]"
  const BotEmail: string := "bot@teamspiralracing.com"

  // ---------------------------------------------------------------------
  // The digest

  function HexDigit(v: nat): (c: char)
    requires v < 16
  {
    if v < 10 then ('0' as int + v) as char else ('a' as int + v - 10) as char
  }

  function HexValue(c: char): nat {
    if '0' <= c <= '9' then c as int - '0' as int
    else if 'a' <= c <= 'f' then c as int - 'a' as int + 10
    else 0
  }

  /** Stand-in for `hashlib.sha256(content).hexdigest()`: a lower-case hex
      string determined by the content. The code only ever compares two
      digests for equality, and `HashInjective` is the property that
      comparison relies on. */
  function Hash(content: Bytes): (h: string)
    ensures |h| == 2 * |content|
  {
    if content == [] then []
    else [HexDigit(content[0] as nat / 16), HexDigit(content[0] as nat % 16)] + Hash(content[1..])
  }

  /** Reads a digest back into the bytes it was made from. */
  function Unhash(h: string): Bytes
    decreases |h|
  {
    if |h| < 2 then []
    else [((HexValue(h[0]) * 16 + HexValue(h[1])) % 256) as byte] + Unhash(h[2..])
  }

  lemma {:induction false} UnhashHash(content: Bytes)
    ensures Unhash(Hash(content)) == content
  {
    if content != [] {
      var b := content[0] as nat;
      var h := Hash(content);
      assert HexValue(HexDigit(b / 16)) == b / 16;
      assert HexValue(HexDigit(b % 16)) == b % 16;
      assert h[2..] == Hash(content[1..]);
      UnhashHash(content[1..]);
      assert content == [content[0]] + content[1..];
    }
  }

  /** Equal digests mean equal contents. */
  lemma HashInjective(a: Bytes, b: Bytes)
    requires Hash(a) == Hash(b)
    ensures a == b
  {
    UnhashHash(a);
    UnhashHash(b);
  }

  // ---------------------------------------------------------------------
  // Specification over trees

  /** `file_changed(p, c)`: `p` is not on disk, or holds other bytes. */
  predicate Differs(tree: Tree, p: string, c: Bytes) {
    p !in tree || tree[p] != c
  }

  /** The extension `download_image` picks from the content type. */
  function ImageExtension(contentType: string): string {
    if ContainsSub(contentType, "jpeg") then ".jpg" else ".png"
  }

  function PostDir(slug: string): string {
    "content/posts/" + slug
  }

  function MarkdownPath(slug: string): string {
    PostDir(slug) + "/index.md"
  }

  function ImagePath(slug: string, ext: string): string {
    PostDir(slug) + "/featured" + ext
  }

  function PublishMessage(slug: string): string {
    "ci(ops): publish post `" + slug + "`"
  }

  /** The commit `commit_files` records for `paths` over `tree`. */
  function CommitOf(tree: Tree, paths: seq<string>, message: string, name: string, email: string): Commit {
    Commit(message, name, email, paths, map p | p in paths && p in tree :: tree[p])
  }

  /** The paths `commit_blog_post` finds changed, in the order it checks
      them: the page, then the image. */
  function PostChanges(tree: Tree, slug: string, markdown: Bytes, image: Download): seq<string> {
    var md := MarkdownPath(slug);
    var img := ImagePath(slug, ImageExtension(image.contentType));
    (if Differs(tree, md, markdown) then [md] else []) +
    (if Differs(tree, img, image.body) then [img] else [])
  }

  /** The working tree after `commit_blog_post`: both paths hold the new
      bytes, every other path is as it was. */
  function PostTree(tree: Tree, slug: string, markdown: Bytes, image: Download): Tree {
    tree[MarkdownPath(slug) := markdown][ImagePath(slug, ImageExtension(image.contentType)) := image.body]
  }

  // ---------------------------------------------------------------------
  // The repository object

  class GitUtils {
    /** The files of the checkout at `repo_path`. */
    var tree: Tree
    /** Every commit pushed to `origin`, oldest first. */
    ghost var log: seq<Commit>

    /** Opening (or cloning) the repository: the working tree is whatever
        the checkout holds. */
    constructor(checkout: Tree)
      ensures tree == checkout && log == []
    {
      tree := checkout;
      log := [];
    }

    /** `_get_existing_hash(p)`: the digest of the file at `p`, if there is
        one. It equals the digest of `c` exactly when the file holds `c`,
        which is all that `file_changed` asks of it. */
    function ExistingHash(p: string): (h: Option<string>)
      reads this
      ensures h.None? <==> p !in tree
      ensures forall c :: h == Some(Hash(c)) <==> p in tree && tree[p] == c
    {
      if p in tree then
        assert forall c :: Hash(tree[p]) == Hash(c) ==> tree[p] == c by {
          forall c | Hash(tree[p]) == Hash(c) ensures tree[p] == c { HashInjective(tree[p], c); }
        }
        Some(Hash(tree[p]))
      else None
    }

    /** `file_changed(p, c)`: compares digests, which is comparing contents. */
    function FileChanged(p: string, content: Bytes): (r: bool)
      reads this
      ensures r <==> Differs(tree, p, content)
    {
      ExistingHash(p) != Some(Hash(content))
    }

    /** `write_file(p, c)`: overwrites (or creates) exactly one file. */
    method WriteFile(p: string, content: Bytes)
      modifies this
      ensures tree == old(tree)[p := content]
      ensures log == old(log)
    {
      tree := tree[p := content];
    }

    /** `download_image`, given the response: the body and the extension. */
    method DownloadImage(response: Download) returns (content: Bytes, ext: string)
      ensures content == response.body
      ensures ext == ".jpg" <==> ContainsSub(response.contentType, "jpeg")
      ensures ext == ".jpg" || ext == ".png"
    {
      content := response.body;
      ext := if ContainsSub(response.contentType, "jpeg") then ".jpg" else ".png";
    }

    /** `commit_files`: nothing to do for an empty list; otherwise one
        commit of those paths, pushed. */
    method CommitFiles(changed: seq<string>, message: string, name: string, email: string) returns (committed: bool)
      modifies this
      ensures committed <==> changed != []
      ensures tree == old(tree)
      ensures log == if changed == [] then old(log) else old(log) + [CommitOf(tree, changed, message, name, email)]
    {
      if changed == [] {
        return false;
      }
      log := log + [CommitOf(tree, changed, message, name, email)];
      return true;
    }

    /** The steps `commit_blog_post` and every iteration of
        `blog_cron_sync` share: write the page and then the image of post
        `slug` where they differ from the checkout, appending each path
        written to `changed`. */
    method WritePost(slug: string, markdownBytes: Bytes, image: Download, changed: seq<string>) returns (updated: seq<string>)
      modifies this
      ensures tree == PostTree(old(tree), slug, markdownBytes, image)
      ensures updated == changed + PostChanges(old(tree), slug, markdownBytes, image)
      ensures log == old(log)
    {
      ghost var tree0 := tree;
      updated := changed;
      var markdownPath := MarkdownPath(slug);
      if FileChanged(markdownPath, markdownBytes) {
        WriteFile(markdownPath, markdownBytes);
        updated := updated + [markdownPath];
      }
      UnchangedWriteIsNoOp(tree0, markdownPath, markdownBytes);
      assert tree == tree0[markdownPath := markdownBytes];
      assert updated == changed + if Differs(tree0, markdownPath, markdownBytes) then [markdownPath] else [];
      ghost var tree1 := tree;
      ghost var updated1 := updated;
      var imageBytes, ext := DownloadImage(image);
      assert ext == ImageExtension(image.contentType);
      var imagePath := ImagePath(slug, ext);
      PostPathsDistinct(slug, ext);
      assert Differs(tree1, imagePath, imageBytes) == Differs(tree0, imagePath, imageBytes);
      if FileChanged(imagePath, imageBytes) {
        WriteFile(imagePath, imageBytes);
        updated := updated + [imagePath];
      }
      UnchangedWriteIsNoOp(tree1, imagePath, imageBytes);
      assert tree == tree1[imagePath := imageBytes];
      assert updated == updated1 + if Differs(tree0, imagePath, imageBytes) then [imagePath] else [];
    }

    /** `commit_blog_post`: writes the page and then the image when they
        differ from the checkout, and commits what it wrote. */
    method CommitBlogPost(slug: string, markdown: string, image: Download) returns (committed: bool)
      modifies this
      ensures tree == PostTree(old(tree), slug, Encode(markdown), image)
      ensures committed <==> PostChanges(old(tree), slug, Encode(markdown), image) != []
      ensures var changes := PostChanges(old(tree), slug, Encode(markdown), image);
        log == old(log) + (if changes == [] then [] else [CommitOf(tree, changes, PublishMessage(slug), BotName, BotEmail)])
    {
      var changed := WritePost(slug, Encode(markdown), image, []);
      assert changed == PostChanges(old(tree), slug, Encode(markdown), image);
      committed := CommitFiles(changed, PublishMessage(slug), BotName, BotEmail);
    }
  }

  // ---------------------------------------------------------------------
  // Properties

  /** Writing bytes a path already holds changes nothing. */
  lemma UnchangedWriteIsNoOp(tree: Tree, p: string, c: Bytes)
    ensures !Differs(tree, p, c) ==> tree[p := c] == tree
  {
  }

  /** After writing `c` to `p`, `file_changed(p, c)` is false; other paths
      are untouched and nothing is deleted. */
  lemma WriteThenUnchanged(tree: Tree, p: string, c: Bytes)
    ensures !Differs(tree[p := c], p, c)
    ensures forall q :: q in tree && q != p ==> q in tree[p := c] && tree[p := c][q] == tree[q]
    ensures tree.Keys <= tree[p := c].Keys
  {
  }

  /** `.jpg` exactly when the content type mentions `jpeg`; a missing
      header gives `.png`. */
  lemma ExtensionChoice(contentType: string)
    ensures ImageExtension(contentType) == ".jpg" <==> exists k :: MatchAt(contentType, "jpeg", k)
    ensures ImageExtension(contentType) == ".jpg" || ImageExtension(contentType) == ".png"
    ensures ImageExtension("") == ".png"
  {
    ContainsSubMeans(contentType, "jpeg");
  }

  /** The page and the image of a post never share a path. */
  lemma PostPathsDistinct(slug: string, ext: string)
    ensures MarkdownPath(slug) != ImagePath(slug, ext)
  {
    var d := PostDir(slug);
    var m := MarkdownPath(slug);
    var i := ImagePath(slug, ext);
    if |m| == |i| {
      assert m[|d| + 1] == 'i';
      assert i[|d| + 1] == 'f';
    }
  }

  /** The changed list is one of `[]`, `[page]`, `[image]`, `[page, image]`:
      a subsequence of the two paths in that order, holding exactly the
      paths whose content differs. */
  lemma PostChangesExact(tree: Tree, slug: string, markdown: Bytes, image: Download)
    ensures var md := MarkdownPath(slug);
      var img := ImagePath(slug, ImageExtension(image.contentType));
      var ch := PostChanges(tree, slug, markdown, image);
      && (ch == [] || ch == [md] || ch == [img] || ch == [md, img])
      && (md in ch <==> Differs(tree, md, markdown))
      && (img in ch <==> Differs(tree, img, image.body))
  {
    PostPathsDistinct(slug, ImageExtension(image.contentType));
  }

  /** Publishing the same post twice: the second time nothing differs, so
      nothing is written and nothing is committed. */
  lemma PublishIdempotent(tree: Tree, slug: string, markdown: Bytes, image: Download)
    ensures PostChanges(PostTree(tree, slug, markdown, image), slug, markdown, image) == []
    ensures PostTree(PostTree(tree, slug, markdown, image), slug, markdown, image) == PostTree(tree, slug, markdown, image)
  {
    PostPathsDistinct(slug, ImageExtension(image.contentType));
  }

  /** The posts of two different slugs never share a path. */
  lemma SlugPathsDistinct(s: string, t: string, e: string, f: string)
    requires s != t
    requires e == ".jpg" || e == ".png"
    requires f == ".jpg" || f == ".png"
    ensures MarkdownPath(s) != MarkdownPath(t)
    ensures ImagePath(s, e) != ImagePath(t, f)
    ensures MarkdownPath(s) != ImagePath(t, f)
  {
    var n := |"content/posts/"|;
    assert |MarkdownPath(s)| == n + |s| + 9 && MarkdownPath(s)[n..n + |s|] == s;
    assert |MarkdownPath(t)| == n + |t| + 9 && MarkdownPath(t)[n..n + |t|] == t;
    assert |ImagePath(s, e)| == n + |s| + 13 && ImagePath(s, e)[n..n + |s|] == s;
    assert |ImagePath(t, f)| == n + |t| + 13 && ImagePath(t, f)[n..n + |t|] == t;
    assert MarkdownPath(s)[|MarkdownPath(s)| - 1] == 'd';
    assert ImagePath(t, f)[|ImagePath(t, f)| - 1] == 'g';
  }
}
