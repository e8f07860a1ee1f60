/** `format_markdown_to_blowfish` (api/util.py, and its verbatim copy
    lib/util.py): a blog post rendered as a Markdown page with a YAML front
    matter for the Blowfish theme. The author lookup in the `User`
    collection is a map from author id to e-mail address. */
module Render {
  import opened Wrappers
  import opened Text

  /** `createdAt` as a calendar date. */
  datatype Date = Date(year: nat, month: nat, day: nat)

  /** The fields of a `BlogPost` document the service reads. */
  datatype BlogPost = BlogPost(
    id: string,         // `_id`, the slug of the post
    title: string,
    createdAt: Date,
    authorId: string,
    content: string,
    imageRef: string)   // URL of the featured image

  /** `user['email']` with `user` being `None`: the author id names no user. */
  datatype RenderError = AuthorNotFound

  /** Users by `_id`, holding their e-mail address. */
  type Authors = map<string, string>

  const SummaryLimit: nat := 100

  /** `s[:n]` for `n >= 0`. */
  function Take(s: string, n: nat): (r: string)
    ensures |r| == if n <= |s| then n else |s|
    ensures r <= s
  {
    if n <= |s| then s[..n] else s
  }

  /** `summary_length = 100 if content_length else content_length`. */
  function SummaryLength(content: string): nat {
    if |content| != 0 then SummaryLimit else |content|
  }

  /** The text between the quotes of the `summary:` line, before `...`:
      the first 100 characters of the content, with `#` dropped and line
      feeds turned into spaces, then stripped. `Cleaned` states the
      cleaning as one pass, character by character. */
  function Summary(content: string): (r: string)
    ensures r == Trim(Cleaned(Take(content, SummaryLimit)))
    ensures '#' !in r && '\n' !in r
    ensures |r| <= SummaryLimit
    ensures Stripped(r)
  {
    var cut := Take(content, SummaryLength(content));
    var cleaned := ReplaceChar(Remove(cut, '#'), '\n', ' ');
    CleanedInTwoPasses(cut);
    TrimLength(cleaned);
    var r := Trim(cleaned);
    assert forall c :: c in r ==> c in cleaned by { TrimSubset(cleaned); }
    r
  }

  /** The reference cleaning: each `#` dropped, each line feed a space,
      every other character kept, in order. */
  function Cleaned(s: string): string {
    if s == [] then []
    else (if s[0] == '#' then [] else [if s[0] == '\n' then ' ' else s[0]]) + Cleaned(s[1..])
  }

  /** `.replace('#', '').replace('\n', ' ')` is that one pass. */
  lemma {:induction false} CleanedInTwoPasses(s: string)
    ensures ReplaceChar(Remove(s, '#'), '\n', ' ') == Cleaned(s)
    decreases |s|
  {
    if s != [] {
      var head: string := if s[0] == '#' then [] else [s[0]];
      var cleanedHead: string := if s[0] == '#' then [] else [if s[0] == '\n' then ' ' else s[0]];
      assert Remove(s, '#') == head + Remove(s[1..], '#');
      assert ReplaceChar(head, '\n', ' ') == cleanedHead;
      ReplaceConcat(head, Remove(s[1..], '#'), '\n', ' ');
      CleanedInTwoPasses(s[1..]);
      assert Cleaned(s) == cleanedHead + Cleaned(s[1..]);
    }
  }

  /** Text the cleaning leaves alone. */
  lemma {:induction false} CleanedIdentity(s: string)
    requires '#' !in s && '\n' !in s
    ensures Cleaned(s) == s
    decreases |s|
  {
    if s != [] {
      assert forall x :: x in s[1..] ==> x in s;
      CleanedIdentity(s[1..]);
      assert s == [s[0]] + s[1..];
    }
  }

  /** A short, already clean and stripped content is its own summary. */
  lemma SummaryOfCleanText(content: string)
    requires |content| <= SummaryLimit && '#' !in content && '\n' !in content && Stripped(content)
    ensures Summary(content) == content
  {
    assert Take(content, SummaryLimit) == content;
    CleanedIdentity(content);
    TrimStripped(content);
  }

  lemma TrimLength(s: string)
    ensures |Trim(s)| <= |s|
  {
  }

  /** `strftime('%Y-%m-%d')`: at least ten characters, all digits but the
      two dashes after the year and the month (`FormatDateFields` reads the
      fields back). */
  function FormatDate(d: Date): (r: string)
    ensures |r| >= 10
    ensures forall i :: 0 <= i < |r| ==> IsDigit(r[i]) || r[i] == '-'
  {
    PadNat(d.year, 4) + "-" + PadNat(d.month, 2) + "-" + PadNat(d.day, 2)
  }

  const Fence: string := "---\n"
  const DraftLine: string := "draft: false\n"
  const ShowAuthorLine: string := "showAuthor: true\n"

  function TitleLine(title: string): string {
    "title: \"" + title + "\"\n"
  }

  function DateLine(date: string): string {
    "date: " + date + "\n"
  }

  function SummaryLine(summary: string): string {
    "summary: \"" + summary + "...\"\n"
  }

  function AuthorsLines(email: string): string {
    "authors:\n  - \"" + email + "\"\n"
  }

  /** The front matter with its holes filled, both `---` fences included. */
  function FrontMatter(title: string, date: string, summary: string, email: string): string {
    Fence + (TitleLine(title) + (DateLine(date) + (DraftLine +
    (SummaryLine(summary) + (ShowAuthorLine + (AuthorsLines(email) + Fence))))))
  }

  /** The page: the front matter, a blank line, the content verbatim and a
      final line feed. */
  function Page(title: string, date: string, summary: string, email: string, content: string): string {
    FrontMatter(title, date, summary, email) + "\n" + content + "\n"
  }

  /** The page of `post` by the author with address `email`
      (`DocumentStartsWithTitle` and `DocumentEndsWithContent` give its
      layout). */
  function Document(post: BlogPost, email: string): string {
    Page(post.title, FormatDate(post.createdAt), Summary(post.content), email, post.content)
  }

  /** `format_markdown_to_blowfish(db, post)`. */
  function RenderPost(post: BlogPost, authors: Authors): (r: Result<string, RenderError>)
    ensures r.Err? <==> post.authorId !in authors
    ensures r.Ok? ==> r.value == Document(post, authors[post.authorId])
  {
    if post.authorId in authors then Ok(Document(post, authors[post.authorId]))
    else Err(AuthorNotFound)
  }

  /** The `summary_length` conditional changes nothing: the summary is
      always made from `content[:100]`. */
  lemma SummaryFromFirstHundred(content: string)
    ensures Take(content, SummaryLength(content)) == Take(content, SummaryLimit)
  {
  }

  /** Only the first 100 characters of the content reach the summary. */
  lemma SummaryIgnoresRest(head: string, rest: string)
    requires |head| >= SummaryLimit
    ensures Summary(head + rest) == Summary(head)
  {
    assert (head + rest)[..SummaryLimit] == head[..SummaryLimit];
  }

  /** Every character of the summary is a space or a character of the first
      100 characters of the content other than `#`. */
  lemma SummaryCharacters(content: string)
    ensures forall c :: c in Summary(content) ==>
              c == ' ' || (c != '#' && c in Take(content, SummaryLimit))
  {
    var cut := Take(content, SummaryLength(content));
    var removed := Remove(cut, '#');
    var cleaned := ReplaceChar(removed, '\n', ' ');
    TrimSubset(cleaned);
    forall c | c in cleaned
      ensures c == ' ' || (c != '#' && c in cut)
    {
      var i :| 0 <= i < |cleaned| && cleaned[i] == c;
      assert removed[i] in removed;
    }
  }

  /** Empty content gives the line `summary: "..."`. */
  lemma EmptyContentSummary()
    ensures SummaryLine(Summary([])) == "summary: \"...\"\n"
  {
    assert Summary([]) == [];
  }

  /** A post whose author is unknown fails to render; one whose author is
      known always renders. */
  lemma RenderFailsIffAuthorMissing(post: BlogPost, authors: Authors)
    ensures RenderPost(post, authors) == Err(AuthorNotFound) <==> post.authorId !in authors
  {
  }

  /** The page starts with the opening fence and the quoted title. */
  lemma DocumentStartsWithTitle(post: BlogPost, email: string)
    ensures Fence + TitleLine(post.title) <= Document(post, email)
  {
    PageStartsWithTitle(post.title, FormatDate(post.createdAt), Summary(post.content), email, post.content);
  }

  lemma PageStartsWithTitle(title: string, date: string, summary: string, email: string, content: string)
    ensures Fence + TitleLine(title) <= Page(title, date, summary, email, content)
  {
    var rest := DateLine(date) + (DraftLine + (SummaryLine(summary) + (ShowAuthorLine + (AuthorsLines(email) + Fence))));
    assert FrontMatter(title, date, summary, email) == (Fence + TitleLine(title)) + rest;
    assert Page(title, date, summary, email, content) == (Fence + TitleLine(title)) + (rest + "\n" + content + "\n");
  }

  /** The page ends with the front matter's closing fence, a blank line, the
      content exactly as stored and a line feed: dropping the front matter
      and the two framing line feeds gives the content back. */
  lemma DocumentEndsWithContent(post: BlogPost, email: string)
    ensures var d := Document(post, email);
      var fm := FrontMatter(post.title, FormatDate(post.createdAt), Summary(post.content), email);
      && fm + "\n" <= d
      && d[|fm| + 1..|d| - 1] == post.content
      && d[|d| - 1] == '\n'
  {
    PageEndsWithContent(post.title, FormatDate(post.createdAt), Summary(post.content), email, post.content);
  }

  lemma PageEndsWithContent(title: string, date: string, summary: string, email: string, content: string)
    ensures var d := Page(title, date, summary, email, content);
      var fm := FrontMatter(title, date, summary, email);
      && fm + "\n" <= d
      && d[|fm| + 1..|d| - 1] == content
      && d[|d| - 1] == '\n'
  {
    var fm := FrontMatter(title, date, summary, email);
    var d := Page(title, date, summary, email, content);
    assert d == (fm + "\n") + content + "\n";
  }

  /** The front matter closes with the single author entry and the fence,
      and holds the line `draft: false`. */
  lemma FrontMatterLayout(title: string, date: string, summary: string, email: string)
    ensures var fm := FrontMatter(title, date, summary, email);
      && |AuthorsLines(email) + Fence| <= |fm|
      && fm[|fm| - |AuthorsLines(email) + Fence|..] == AuthorsLines(email) + Fence
      && exists k :: MatchAt(fm, DraftLine, k)
  {
    FrontMatterCloses(title, date, summary, email);
    FrontMatterHasDraft(title, date, summary, email);
  }

  lemma FrontMatterCloses(title: string, date: string, summary: string, email: string)
    ensures var fm := FrontMatter(title, date, summary, email);
      && |AuthorsLines(email) + Fence| <= |fm|
      && fm[|fm| - |AuthorsLines(email) + Fence|..] == AuthorsLines(email) + Fence
  {
    var fm := FrontMatter(title, date, summary, email);
    var tail := AuthorsLines(email) + Fence;
    var head := Fence + (TitleLine(title) + (DateLine(date) + (DraftLine + (SummaryLine(summary) + ShowAuthorLine))));
    assert fm == head + tail;
    assert fm[|head|..] == tail;
  }

  lemma FrontMatterHasDraft(title: string, date: string, summary: string, email: string)
    ensures exists k :: MatchAt(FrontMatter(title, date, summary, email), DraftLine, k)
  {
    var fm := FrontMatter(title, date, summary, email);
    var head := Fence + (TitleLine(title) + DateLine(date));
    var rest := SummaryLine(summary) + (ShowAuthorLine + (AuthorsLines(email) + Fence));
    assert fm == head + (DraftLine + rest);
    assert fm[|head|..|head| + |DraftLine|] == DraftLine;
    assert MatchAt(fm, DraftLine, |head|);
  }

  /** For years, months and days of the usual sizes the date is `YYYY-MM-DD`:
      ten characters whose three fields read back as the date. */
  lemma FormatDateFields(d: Date)
    requires d.year < 10000 && d.month < 100 && d.day < 100
    ensures var s := FormatDate(d);
      && |s| == 10 && s[4] == '-' && s[7] == '-'
      && AllDigits(s[..4]) && DigitsValue(s[..4]) == d.year
      && AllDigits(s[5..7]) && DigitsValue(s[5..7]) == d.month
      && AllDigits(s[8..]) && DigitsValue(s[8..]) == d.day
  {
    var y := PadNat(d.year, 4);
    var m := PadNat(d.month, 2);
    var dd := PadNat(d.day, 2);
    assert Pow10(4) == 10000 by { assert Pow10(2) == 100; assert Pow10(3) == 1000; }
    PadLength(d.year, 4);
    PadLength(d.month, 2);
    PadLength(d.day, 2);
    var s := FormatDate(d);
    assert s == y + "-" + m + "-" + dd;
    assert s[..4] == y;
    assert s[5..7] == m;
    assert s[8..] == dd;
  }
}
