/** The blog publishing of api/server.py: `process_single_blog` renders one
    post and hands it to `GitUtils.commit_blog_post`; `blog_cron_sync`
    renders every post, writes what differs from the checkout, and makes
    one commit for all of it.

    The `GitUtils` object is a parameter, the `BlogPost` collection is a
    sequence of posts, the `User` collection is the author map of the
    renderer, and the image downloads are a function from URL to response. */
module BlogSync {
  import opened Wrappers
  import opened Text
  import opened Utf8
  import opened Render
  import opened Git

  /** `requests.get(url)` for every image URL. */
  type Downloads = string -> Download

  const SyncMessage: string := "ci(ops): sync all blog posts"
  const NoChangesReply: string := "No changes detected. Nothing to commit."

  /** `f"Committed {len(changed_files)} changed files."`. */
  function CommittedReply(n: nat): string {
    "Committed " + NatToString(n) + " changed files."
  }

  /** `process_single_blog(blog_post)`. */
  method ProcessSingleBlog(git: GitUtils, post: BlogPost, authors: Authors, download: Downloads)
    returns (failure: Option<RenderError>)
    modifies git
    ensures failure.Some? <==> post.authorId !in authors
    ensures failure.Some? ==> git.tree == old(git.tree) && git.log == old(git.log)
    ensures failure.None? ==>
      var changes := PostChanges(old(git.tree), post.id, Rendered(post, RenderWith(authors)), download(post.imageRef));
      && git.tree == PostTree(old(git.tree), post.id, Rendered(post, RenderWith(authors)), download(post.imageRef))
      && git.log == old(git.log) + (if changes == [] then [] else [CommitOf(git.tree, changes, PublishMessage(post.id), BotName, BotEmail)])
  {
    var markdown := RenderPost(post, authors);
    if markdown.Err? {
      return Some(markdown.error);
    }
    var imageBackground := post.imageRef;
    var articlePath := post.id;
    var _ := git.CommitBlogPost(articlePath, markdown.value, download(imageBackground));
    failure := None;
  }

  // ---------------------------------------------------------------------
  // What `blog_cron_sync` computes

  /** The checkout and the changed paths so far, and the rendering failure
      that stopped the loop, if one did. */
  datatype SyncState = SyncState(tree: Tree, changed: seq<string>, failure: Option<RenderError>)

  /** How posts render: `RenderWith(authors)` in the service; any function
      in the lemmas below, which hold whatever the page looks like. */
  type Renderer = BlogPost -> Result<string, RenderError>

  function RenderWith(authors: Authors): Renderer {
    post => RenderPost(post, authors)
  }

  /** The bytes of a post that renders. */
  function Rendered(post: BlogPost, render: Renderer): Bytes
    requires render(post).Ok?
  {
    Encode(render(post).value)
  }

  /** One post of the loop: render it, then bring its page and image up to
      date. A failure stops everything after it; otherwise no file is
      deleted and the changed list only grows. */
  function PostStep(s: SyncState, post: BlogPost, render: Renderer, download: Downloads): (r: SyncState)
  {
    if s.failure.Some? then s
    else
      match render(post)
      case Err(e) => SyncState(s.tree, s.changed, Some(e))
      case Ok(markdown) =>
        var image := download(post.imageRef);
        SyncState(PostTree(s.tree, post.id, Encode(markdown), image),
                  s.changed + PostChanges(s.tree, post.id, Encode(markdown), image), None)
  }

  /** The loop over `posts`, starting from checkout `tree`: it writes
      files and never deletes one. */
  function Sync(tree: Tree, posts: seq<BlogPost>, render: Renderer, download: Downloads): (r: SyncState)
    decreases |posts|
  {
    if posts == [] then SyncState(tree, [], None)
    else PostStep(Sync(tree, posts[..|posts| - 1], render, download), posts[|posts| - 1], render, download)
  }

  /** `blog_cron_sync()`: a render failure propagates (the files written
      before it stay written, nothing is committed); otherwise one commit of
      every changed path, or none when nothing changed. */
  method BlogCronSync(git: GitUtils, posts: seq<BlogPost>, authors: Authors, download: Downloads)
    returns (reply: Result<string, RenderError>)
    modifies git
    ensures var s := Sync(old(git.tree), posts, RenderWith(authors), download);
      && git.tree == s.tree
      && (s.failure.Some? ==> reply == Err(s.failure.value) && git.log == old(git.log))
      && (s.failure.None? ==>
            && reply == Ok(if s.changed == [] then NoChangesReply else CommittedReply(|s.changed|))
            && git.log == old(git.log) + (if s.changed == [] then [] else [CommitOf(git.tree, s.changed, SyncMessage, BotName, BotEmail)]))
  {
    var changedFiles, failure := SyncAll(git, posts, authors, download);
    if failure.Some? {
      return Err(failure.value);
    }
    reply := CommitSync(git, changedFiles);
  }

  /** The loop of `blog_cron_sync`: the checkout becomes `Sync`'s tree, and
      the changed list or the failure is `Sync`'s. */
  method SyncAll(git: GitUtils, posts: seq<BlogPost>, authors: Authors, download: Downloads)
    returns (changedFiles: seq<string>, failure: Option<RenderError>)
    modifies git
    ensures var s := Sync(old(git.tree), posts, RenderWith(authors), download);
      && git.tree == s.tree && failure == s.failure
      && (failure.None? ==> changedFiles == s.changed)
    ensures git.log == old(git.log)
  {
    ghost var tree0 := git.tree;
    ghost var render := RenderWith(authors);
    changedFiles := [];
    var i := 0;
    while i < |posts|
      invariant 0 <= i <= |posts|
      invariant Sync(tree0, posts[..i], render, download).failure.None?
      invariant git.tree == Sync(tree0, posts[..i], render, download).tree
      invariant changedFiles == Sync(tree0, posts[..i], render, download).changed
      invariant git.log == old(git.log)
    {
      assert posts[..i + 1][..i] == posts[..i];
      changedFiles, failure := SyncPost(git, tree0, posts[..i + 1], authors, download, changedFiles);
      if failure.Some? {
        SyncFailureSticks(tree0, posts, i + 1, render, download);
        return;
      }
      i := i + 1;
    }
    assert posts[..i] == posts;
    failure := None;
  }

  /** The end of `blog_cron_sync`: one commit of the changed paths, or none,
      and the reply that says which. */
  method CommitSync(git: GitUtils, changed: seq<string>) returns (reply: Result<string, RenderError>)
    modifies git
    ensures reply == Ok(if changed == [] then NoChangesReply else CommittedReply(|changed|))
    ensures git.tree == old(git.tree)
    ensures git.log == old(git.log) + (if changed == [] then [] else [CommitOf(git.tree, changed, SyncMessage, BotName, BotEmail)])
  {
    var committed := git.CommitFiles(changed, SyncMessage, BotName, BotEmail);
    if committed {
      reply := Ok(CommittedReply(|changed|));
    } else {
      reply := Ok(NoChangesReply);
    }
  }

  /** One iteration of the `blog_cron_sync` loop: the last of `posts` is
      rendered and, if that succeeds, its page and image are written. */
  method SyncPost(git: GitUtils, ghost tree0: Tree, posts: seq<BlogPost>, authors: Authors, download: Downloads,
                  changed: seq<string>) returns (updated: seq<string>, failure: Option<RenderError>)
    requires posts != []
    requires Sync(tree0, posts[..|posts| - 1], RenderWith(authors), download).failure.None?
    requires git.tree == Sync(tree0, posts[..|posts| - 1], RenderWith(authors), download).tree
    requires changed == Sync(tree0, posts[..|posts| - 1], RenderWith(authors), download).changed
    modifies git
    ensures var s := Sync(tree0, posts, RenderWith(authors), download);
      && failure == s.failure
      && git.tree == s.tree
      && (failure.None? ==> updated == s.changed)
    ensures git.log == old(git.log)
  {
    var post := posts[|posts| - 1];
    var markdown := RenderPost(post, authors);
    if markdown.Err? {
      return changed, Some(markdown.error);
    }
    updated := git.WritePost(post.id, Encode(markdown.value), download(post.imageRef), changed);
    SyncSnoc(tree0, posts, RenderWith(authors), download);
    failure := None;
  }

  // ---------------------------------------------------------------------
  // Properties

  predicate DistinctSlugs(posts: seq<BlogPost>) {
    forall i, j :: 0 <= i < j < |posts| ==> posts[i].id != posts[j].id
  }

  predicate AuthorsKnown(posts: seq<BlogPost>, authors: Authors) {
    forall i :: 0 <= i < |posts| ==> posts[i].authorId in authors
  }

  predicate AllRender(posts: seq<BlogPost>, render: Renderer) {
    forall i :: 0 <= i < |posts| ==> render(posts[i]).Ok?
  }

  /** `p` is one of the three files post `slug` can write: its page, or its
      image under either extension. */
  predicate OwnedBy(p: string, slug: string) {
    p == MarkdownPath(slug) || p == ImagePath(slug, ".jpg") || p == ImagePath(slug, ".png")
  }

  /** `tree` and `other` agree at `p`. */
  predicate AgreeAt(tree: Tree, other: Tree, p: string) {
    (p in tree <==> p in other) && (p in tree ==> tree[p] == other[p])
  }

  /** Every post's changed paths, each compared with the checkout as it was
      before the sync; in post order, the page before the image. */
  function AllChanges(tree: Tree, posts: seq<BlogPost>, render: Renderer, download: Downloads): seq<string>
    requires AllRender(posts, render)
    decreases |posts|
  {
    if posts == [] then []
    else
      var last := posts[|posts| - 1];
      AllChanges(tree, posts[..|posts| - 1], render, download) +
      PostChanges(tree, last.id, Rendered(last, render), download(last.imageRef))
  }

  /** Once a post fails to render, the later posts change nothing. */
  lemma {:induction false} SyncFailureSticks(tree: Tree, posts: seq<BlogPost>, i: nat, render: Renderer, download: Downloads)
    requires i <= |posts|
    requires Sync(tree, posts[..i], render, download).failure.Some?
    ensures Sync(tree, posts, render, download) == Sync(tree, posts[..i], render, download)
    decreases |posts|
  {
    if i < |posts| {
      var init := posts[..|posts| - 1];
      assert init[..i] == posts[..i];
      SyncFailureSticks(tree, init, i, render, download);
    } else {
      assert posts[..i] == posts;
    }
  }

  /** The sync fails exactly when some post fails to render. */
  lemma {:induction false} SyncFailsIffSomeFails(tree: Tree, posts: seq<BlogPost>, render: Renderer, download: Downloads)
    ensures Sync(tree, posts, render, download).failure.Some? <==> !AllRender(posts, render)
    decreases |posts|
  {
    if posts != [] {
      var init := posts[..|posts| - 1];
      SyncFailsIffSomeFails(tree, init, render, download);
      AllRenderSnoc(posts, render);
    }
  }

  lemma AllRenderSnoc(posts: seq<BlogPost>, render: Renderer)
    requires posts != []
    ensures AllRender(posts, render) <==>
      AllRender(posts[..|posts| - 1], render) && render(posts[|posts| - 1]).Ok?
  {
    var init := posts[..|posts| - 1];
    assert forall i :: 0 <= i < |init| ==> init[i] == posts[i];
  }

  /** With the service's renderer: the sync fails exactly when some post
      names an author the `User` collection does not have. */
  lemma SyncFailsIffUnknownAuthor(tree: Tree, posts: seq<BlogPost>, authors: Authors, download: Downloads)
    ensures Sync(tree, posts, RenderWith(authors), download).failure.Some? <==> !AuthorsKnown(posts, authors)
  {
    SyncFailsIffSomeFails(tree, posts, RenderWith(authors), download);
    assert AllRender(posts, RenderWith(authors)) <==> AuthorsKnown(posts, authors);
  }

  /** The sync touches only the files of the posts it renders. */
  lemma {:induction false} SyncFrame(tree: Tree, posts: seq<BlogPost>, render: Renderer, download: Downloads, p: string)
    requires forall i :: 0 <= i < |posts| ==> !OwnedBy(p, posts[i].id)
    ensures AgreeAt(Sync(tree, posts, render, download).tree, tree, p)
    decreases |posts|
  {
    if posts != [] {
      var init := posts[..|posts| - 1];
      assert forall i :: 0 <= i < |init| ==> init[i] == posts[i];
      SyncFrame(tree, init, render, download, p);
      var s := Sync(tree, init, render, download);
      var last := posts[|posts| - 1];
      if s.failure.None? && render(last).Ok? {
        PostTreeElsewhere(s.tree, last.id, Rendered(last, render), download(last.imageRef), p);
      }
    }
  }

  /** The sync writes files and never deletes one. */
  lemma {:induction false} SyncNeverDeletes(tree: Tree, posts: seq<BlogPost>, render: Renderer, download: Downloads)
    ensures tree.Keys <= Sync(tree, posts, render, download).tree.Keys
    decreases |posts|
  {
    if posts != [] {
      SyncNeverDeletes(tree, posts[..|posts| - 1], render, download);
    }
  }

  /** A path of post `s` is not one of the three files of a post `t` with
      another slug. */
  lemma OtherSlugPaths(s: string, e: string, t: string)
    requires s != t && (e == ".jpg" || e == ".png")
    ensures !OwnedBy(MarkdownPath(s), t) && !OwnedBy(ImagePath(s, e), t)
  {
    SlugPathsDistinct(s, t, e, ".jpg");
    SlugPathsDistinct(s, t, e, ".png");
    SlugPathsDistinct(t, s, ".jpg", e);
  }

  /** A prefix of distinct slugs that all render keeps both properties. */
  lemma PrefixKeeps(posts: seq<BlogPost>, render: Renderer)
    requires posts != [] && DistinctSlugs(posts) && AllRender(posts, render)
    ensures DistinctSlugs(posts[..|posts| - 1]) && AllRender(posts[..|posts| - 1], render)
  {
    var init := posts[..|posts| - 1];
    assert forall i :: 0 <= i < |init| ==> init[i] == posts[i];
  }

  /** The last post's two paths are untouched by the posts before it. */
  lemma LastPostUntouched(tree: Tree, posts: seq<BlogPost>, render: Renderer, download: Downloads)
    requires posts != [] && DistinctSlugs(posts)
    ensures var last := posts[|posts| - 1];
      var init := Sync(tree, posts[..|posts| - 1], render, download).tree;
      var ext := ImageExtension(download(last.imageRef).contentType);
      AgreeAt(init, tree, MarkdownPath(last.id)) && AgreeAt(init, tree, ImagePath(last.id, ext))
  {
    var last := posts[|posts| - 1];
    var init := posts[..|posts| - 1];
    var ext := ImageExtension(download(last.imageRef).contentType);
    forall i | 0 <= i < |init|
      ensures !OwnedBy(MarkdownPath(last.id), init[i].id) && !OwnedBy(ImagePath(last.id, ext), init[i].id)
    {
      assert init[i] == posts[i];
      OtherSlugPaths(last.id, ext, init[i].id);
    }
    SyncFrame(tree, init, render, download, MarkdownPath(last.id));
    SyncFrame(tree, init, render, download, ImagePath(last.id, ext));
  }

  /** Posts with distinct slugs do not see each other's writes: the one
      commit of the sync lists, post by post, the page and then the image of
      each post whose files differ from the checkout as it was before. */
  lemma {:induction false} SyncCombinesPosts(tree: Tree, posts: seq<BlogPost>, render: Renderer, download: Downloads)
    requires DistinctSlugs(posts) && AllRender(posts, render)
    ensures Sync(tree, posts, render, download).failure.None?
    ensures Sync(tree, posts, render, download).changed == AllChanges(tree, posts, render, download)
    decreases |posts|
  {
    if posts != [] {
      var init := posts[..|posts| - 1];
      var last := posts[|posts| - 1];
      PrefixKeeps(posts, render);
      SyncCombinesPosts(tree, init, render, download);
      LastPostUntouched(tree, posts, render, download);
      PostChangesAgree(Sync(tree, init, render, download).tree, tree, last.id, Rendered(last, render), download(last.imageRef));
    }
  }

  /** A post's changes depend only on what its two paths hold. */
  lemma PostChangesAgree(t: Tree, u: Tree, slug: string, markdown: Bytes, image: Download)
    requires AgreeAt(t, u, MarkdownPath(slug))
    requires AgreeAt(t, u, ImagePath(slug, ImageExtension(image.contentType)))
    ensures PostChanges(t, slug, markdown, image) == PostChanges(u, slug, markdown, image)
  {
  }

  /** After the sync every post's page and image are in the checkout. */
  lemma {:induction false} SyncHoldsPosts(tree: Tree, posts: seq<BlogPost>, render: Renderer, download: Downloads, i: nat)
    requires DistinctSlugs(posts) && AllRender(posts, render) && i < |posts|
    ensures var after := Sync(tree, posts, render, download).tree;
      var post := posts[i];
      var image := download(post.imageRef);
      !Differs(after, MarkdownPath(post.id), Rendered(post, render)) &&
      !Differs(after, ImagePath(post.id, ImageExtension(image.contentType)), image.body)
    decreases |posts|
  {
    var init := posts[..|posts| - 1];
    var last := posts[|posts| - 1];
    PrefixKeeps(posts, render);
    SyncCombinesPosts(tree, init, render, download);
    SyncSnoc(tree, posts, render, download);
    var mid := Sync(tree, init, render, download).tree;
    var lastBytes := Rendered(last, render);
    var lastImage := download(last.imageRef);
    if i == |posts| - 1 {
      PostTreeHolds(mid, last.id, lastBytes, lastImage);
    } else {
      SyncHoldsPosts(tree, init, render, download, i);
      var post := posts[i];
      assert init[i] == post;
      var e := ImageExtension(download(post.imageRef).contentType);
      OtherSlugPaths(post.id, e, last.id);
      PostTreeElsewhere(mid, last.id, lastBytes, lastImage, MarkdownPath(post.id));
      PostTreeElsewhere(mid, last.id, lastBytes, lastImage, ImagePath(post.id, e));
    }
  }

  /** One more post that renders, after a prefix that rendered. */
  lemma SyncSnoc(tree: Tree, posts: seq<BlogPost>, render: Renderer, download: Downloads)
    requires posts != [] && render(posts[|posts| - 1]).Ok?
    requires Sync(tree, posts[..|posts| - 1], render, download).failure.None?
    ensures var last := posts[|posts| - 1];
      var s := Sync(tree, posts[..|posts| - 1], render, download);
      var bytes := Rendered(last, render);
      var image := download(last.imageRef);
      Sync(tree, posts, render, download) ==
        SyncState(PostTree(s.tree, last.id, bytes, image), s.changed + PostChanges(s.tree, last.id, bytes, image), None)
  {
  }

  /** After a post is published both its files hold the new bytes. */
  lemma PostTreeHolds(t: Tree, slug: string, markdown: Bytes, image: Download)
    ensures !Differs(PostTree(t, slug, markdown, image), MarkdownPath(slug), markdown)
    ensures !Differs(PostTree(t, slug, markdown, image), ImagePath(slug, ImageExtension(image.contentType)), image.body)
  {
    PostPathsDistinct(slug, ImageExtension(image.contentType));
  }

  /** Publishing a post leaves every path but its own three files alone. */
  lemma PostTreeElsewhere(t: Tree, slug: string, markdown: Bytes, image: Download, p: string)
    requires !OwnedBy(p, slug)
    ensures AgreeAt(PostTree(t, slug, markdown, image), t, p)
  {
  }

  /** Re-running the first `k` posts over the result of the sync renders
      them all, changes nothing and writes nothing. */
  lemma {:induction false} ResyncChangesNothing(tree: Tree, posts: seq<BlogPost>, render: Renderer, download: Downloads, k: nat)
    requires DistinctSlugs(posts) && AllRender(posts, render) && k <= |posts|
    ensures var after := Sync(tree, posts, render, download).tree;
      var again := Sync(after, posts[..k], render, download);
      again.failure.None? && again.changed == [] && again.tree == after
    decreases k
  {
    if k > 0 {
      var after := Sync(tree, posts, render, download).tree;
      var ps := posts[..k];
      assert ps[..|ps| - 1] == posts[..k - 1];
      assert ps[|ps| - 1] == posts[k - 1];
      ResyncChangesNothing(tree, posts, render, download, k - 1);
      SyncHoldsPosts(tree, posts, render, download, k - 1);
      ResyncStep(after, ps, render, download);
    }
  }

  /** One more post over a checkout that already holds its files: the
      re-run stays unchanged. */
  lemma ResyncStep(after: Tree, ps: seq<BlogPost>, render: Renderer, download: Downloads)
    requires ps != [] && render(ps[|ps| - 1]).Ok?
    requires var again := Sync(after, ps[..|ps| - 1], render, download);
      again.failure.None? && again.changed == [] && again.tree == after
    requires var post := ps[|ps| - 1];
      var image := download(post.imageRef);
      && !Differs(after, MarkdownPath(post.id), Rendered(post, render))
      && !Differs(after, ImagePath(post.id, ImageExtension(image.contentType)), image.body)
    ensures var again := Sync(after, ps, render, download);
      again.failure.None? && again.changed == [] && again.tree == after
  {
    var post := ps[|ps| - 1];
    SyncSnoc(after, ps, render, download);
    PostChangesEmpty(after, post.id, Rendered(post, render), download(post.imageRef));
  }

  /** A post whose files already hold its bytes changes nothing. */
  lemma PostChangesEmpty(t: Tree, slug: string, markdown: Bytes, image: Download)
    requires !Differs(t, MarkdownPath(slug), markdown)
    requires !Differs(t, ImagePath(slug, ImageExtension(image.contentType)), image.body)
    ensures PostChanges(t, slug, markdown, image) == []
    ensures PostTree(t, slug, markdown, image) == t
  {
    UnchangedWriteIsNoOp(t, MarkdownPath(slug), markdown);
    UnchangedWriteIsNoOp(t, ImagePath(slug, ImageExtension(image.contentType)), image.body);
  }

  /** Running the sync a second time over its own result renders every
      post, changes nothing, writes nothing and so commits nothing. */
  lemma SyncIdempotent(tree: Tree, posts: seq<BlogPost>, render: Renderer, download: Downloads)
    requires DistinctSlugs(posts) && AllRender(posts, render)
    ensures var after := Sync(tree, posts, render, download).tree;
      var again := Sync(after, posts, render, download);
      again.failure.None? && again.changed == [] && again.tree == after
  {
    ResyncChangesNothing(tree, posts, render, download, |posts|);
    assert posts[..|posts|] == posts;
  }
}
