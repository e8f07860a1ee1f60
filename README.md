# Team Spiral Racing data service, modelled in Dafny

The data service is a small Flask application with two jobs.

- **Ingestion.** It searches the team's YouTube channel, files every video
  under the category in front of its title (`"Time Attack - ..."`,
  `"Raw Footage - ..."`) and fetches the full details of the Time Attack
  videos. A Time Attack description carries a metadata block between `===`
  delimiters (track, configuration, date, car, tag, lap time, driver). The
  service turns each valid block into a TrackTime document and upserts it
  into MongoDB, keyed by the video's watch URL (its "proof").
- **Blog publishing.** It renders blog posts stored in MongoDB as Markdown
  pages with a YAML front matter for the Blowfish Hugo theme. `GitUtils`
  writes each page and its featured image into a checkout of the website
  repository, but only when the bytes differ from what is on disk. It then
  commits and pushes the changed paths.

The model covers these parts:

- the helpers of `api/util.py`: `extract_metadata`,
  `parse_lap_time_to_seconds` and `format_markdown_to_blowfish`. `lib/util.py`
  is a verbatim copy of that file, so the same members model both;
- the `GitUtils` class of `lib/git_utils.py`;
- the orchestration in `api/server.py`: the categorisation and dispatch of
  the `youtube` route, `process_ta`, `process_raw`, `process_single_blog` and
  `blog_cron_sync`.

| file | module | what it holds |
|---|---|---|
| `wrappers.dfy` | `Wrappers` | `Option` and `Result` |
| `text.dfy` | `Text` | the Python `str` operations the code uses: `strip`, `find`, `split`, `replace`, `lower`, digit strings and zero padding |
| `updates.dfy` | `Updates` | a fold of keyed updates where the last write wins. Both the metadata dictionary and the TrackTime upserts are such a fold. |
| `metadata.dfy` | `Metadata` | `extract_metadata` |
| `laptime.dfy` | `LapTime` | `parse_lap_time_to_seconds`, with `int()` and `float()` |
| `render.dfy` | `Render` | `format_markdown_to_blowfish` |
| `utf8.dfy` | `Utf8` | `str.encode("utf-8")` and a decoder for it |
| `git.dfy` | `Git` | class `GitUtils`. Its working tree is a map from path to bytes, and a ghost log records the pushed commits. |
| `server.dfy` | `Server` | class `Service`: the `youtube` route, `process_ta` and `process_raw`, over a TrackTime store |
| `blog.dfy` | `BlogSync` | `process_single_blog` and `blog_cron_sync` |

The model replaces the outside world with values:

- The YouTube search response is a value. The details call is a function
  from the list of requested ids to its response. The ghost field
  `requests` of `Service` records every id list that was requested.
- The `TrackTime` collection is a map from proof URL to document. The
  `User` collection appears twice: as a map from e-mail address to user id
  (for ingestion) and as a map from user id to e-mail address (for
  rendering).
- Image downloads are a function from URL to a body and a `Content-Type`.
- The `BlogPost` collection is a sequence of posts.

The blog-sync lemmas are stated for any render function. The service's own
render function is `RenderWith(authors)`, so the lemmas apply to it.

Two behaviours of the code are worth stating outright:

- **Image extension.** The extension is `.jpg` when the `Content-Type`
  contains `jpeg` and `.png` in every other case, including a missing
  header. No other extension is ever produced.
- **Negative lap times.** Lap times accept a sign, so `"-1:00"` parses to
  -60 seconds. `LapTime.NonNegativeWithoutMinus` proves that a negative
  time needs a `-` somewhere in the text.

## Model

| member | source | states |
|---|---|---|
| Metadata.ExtractMetadata | api/util.py:5-35 | The dictionary returned is `Metadata(description)`: the keyed updates of the lines of the first `===` block, in order. Every key and every value in it is stripped. |
| Metadata.FillFromLines | api/util.py:28-33 | The line loop builds exactly `ParseLines(lines)`: one keyed update per line, in order. |
| Metadata.FirstBlock | api/util.py:23-27 | The captured block, when there is one, has no surrounding whitespace. |
| Metadata.FirstBlockValue | api/util.py:23-27 | A block is captured only when the text has a first `===` at `p` and a first later, non-overlapping `===` at `q`. For any such `p` and `q`, the block is exactly the stripped text between them. |
| Metadata.FirstBlockFound | api/util.py:23-25 | A block is found exactly when the description holds two `===` that do not overlap. |
| Metadata.NoBlockNoMetadata | api/util.py:23-25 | Without two non-overlapping `===` the result is the empty dictionary. |
| Metadata.FirstBlockExtend | api/util.py:23-27 | Only the first block counts. Text appended after a complete block, including further blocks, never changes the captured block. |
| Metadata.LaterTextIgnored | api/util.py:23-27 | Text appended after a complete block never changes the metadata. |
| Metadata.SplitLines | api/util.py:30 | No line produced contains a line boundary. The input is empty exactly when there are no lines. |
| Metadata.SplitLinesSingle | api/util.py:30 | Non-empty text without a line boundary is one line, itself. |
| Metadata.SplitLinesCons | api/util.py:30 | A line followed by one boundary (`\r\n`, or a single boundary character that is not a `\r` before `\n`) splits off as the first line, and the rest splits on its own. |
| Metadata.LineEntry | api/util.py:31-33 | A line contributes an entry exactly when it contains a colon. |
| Metadata.SplitAtFirstColon | api/util.py:31-33 | A line splits at its first colon. The key is the stripped text before it. The value is the stripped text after it, later colons included. |
| Metadata.NoColonLineIgnored | api/util.py:31-33 | Removing a line without a colon, wherever it stands, changes nothing. |
| Metadata.MetadataTrimmed | api/util.py:30-33 | Every key and every value of the result is stripped. |
| Metadata.LastOccurrenceWins | api/util.py:30-33 | A key is present exactly when some line defines it, and its value comes from the last line that defines it. |
| LapTime.NoColonIsSeconds | api/util.py:53-56 | Without a colon the lap time is `float(s)`, and a failure is a seconds error. |
| LapTime.OneColonIsMinutesAndSeconds | api/util.py:53-55 | With one colon the lap time is minutes times 60 plus seconds. |
| LapTime.ManyColonsFail | api/util.py:54 | Two or more colons make the two-name unpacking fail. |
| LapTime.NonNegativeWithoutMinus | api/util.py:53-56 | A lap time whose text has no `-` is never negative. |
| LapTime.FloatNonNegative | api/util.py:56 | `float` of text without `-` is never negative. |
| LapTime.IntNonNegative | api/util.py:55 | `int` of text without `-` is never negative. |
| LapTime.FormatThenParse | api/util.py:38-56 | Every `M:SS.fff` lap time parses to minutes times 60 plus milliseconds over 1000. |
| LapTime.MinutesExample | api/util.py:48-51 | The documented example `"1:12.123"` is 72.123 seconds. |
| LapTime.SecondsExample | api/util.py:56 | `"45.5"` is 45.5 seconds. |
| LapTime.MalformedExample | api/util.py:56 | `"abc"` is rejected. |
| LapTime.DecimalTextPlain | api/util.py:56 | A decimal written as digits, a point and digits has no surrounding whitespace and no sign. |
| LapTime.DecimalParse | api/util.py:56 | `float("<digits>.<digits>")` is the whole part plus the fraction over its power of ten. |
| LapTime.ThreeDecimals | api/util.py:56 | Three decimals are thousandths. |
| Render.RenderPost | api/util.py:79-96 | Rendering fails exactly when the author id names no user. Otherwise the result is the page with that user's address. |
| Render.RenderFailsIffAuthorMissing | api/util.py:79-92 | The `user['email']` failure happens exactly for unknown authors. |
| Render.Take | api/util.py:82 | `s[:n]` is a prefix of `s`, of length `min(n, len(s))`. |
| Render.Summary | api/util.py:80-89 | The summary is the first 100 characters, cleaned in one pass (`#` dropped, line feeds made spaces), then stripped. It has no `#`, no line feed and no surrounding whitespace, and at most 100 characters. |
| Render.CleanedInTwoPasses | api/util.py:82 | `.replace('#', '').replace('\n', ' ')` is the one-pass cleaning `Cleaned`. |
| Render.CleanedIdentity | api/util.py:82 | Text without `#` and line feeds is left as it is by the cleaning. |
| Render.SummaryOfCleanText | api/util.py:80-89 | Content of at most 100 characters, without `#` or line feeds and without surrounding whitespace, is its own summary. |
| Text.RemoveConcat | api/util.py:82 | Removing a character distributes over concatenation. |
| Text.RemoveSingle | api/util.py:82 | A single character is removed exactly when it is the one removed. |
| Text.RemoveAbsent | api/util.py:82 | Removing a character that does not occur leaves the text alone. |
| Text.ReplaceConcat | api/util.py:82 | Replacing a character distributes over concatenation. |
| Render.SummaryFromFirstHundred | api/util.py:80-82 | The `summary_length` conditional amounts to always taking `content[:100]`. |
| Render.SummaryIgnoresRest | api/util.py:82 | Characters beyond the first 100 never reach the summary. |
| Render.SummaryCharacters | api/util.py:82-89 | Every summary character is a space, or a non-`#` character of the first 100 characters of the content. |
| Render.EmptyContentSummary | api/util.py:80-89 | Empty content gives the line `summary: "..."`. |
| Render.DocumentStartsWithTitle | api/util.py:85-86 | The page opens with the fence and the quoted title. |
| Render.DocumentEndsWithContent | api/util.py:93-96 | After the front matter and a blank line comes the content verbatim, then a final line feed. |
| Render.FrontMatterCloses | api/util.py:91-93 | The front matter ends with the authors list and the closing fence. |
| Render.FrontMatterHasDraft | api/util.py:88 | The front matter contains the line `draft: false`. |
| Render.FrontMatterLayout | api/util.py:85-93 | The front matter ends with the single author entry and the closing fence, and contains `draft: false`. |
| Render.FormatDate | api/util.py:87 | `%Y-%m-%d` gives at least ten characters, all digits or dashes. |
| Render.FormatDateFields | api/util.py:87 | `%Y-%m-%d` is ten characters whose three digit fields read back as the date. |
| Utf8.Encode | lib/git_utils.py:65 | Only the empty string encodes to no bytes. |
| Utf8.DecodeEncode | lib/git_utils.py:65 | Decoding the UTF-8 encoding gives the string back. |
| Utf8.EncodeInjective | lib/git_utils.py:65-66 | Different markdown strings have different bytes. |
| Utf8.EncodeCharShape | lib/git_utils.py:65 | The lead byte announces the sequence length, the rest are continuation bytes, and together they carry the code point. |
| Git.Hash | lib/git_utils.py:25-26 | The digest stand-in (the hex spelling of the bytes, not SHA-256, whose digest is always 64 characters) has two characters per byte. |
| Git.UnhashHash | lib/git_utils.py:25-26 | The digest stand-in can be inverted. |
| Git.HashInjective | lib/git_utils.py:25-26 | Equal digests mean equal contents. |
| Git.GitUtils.ExistingHash | lib/git_utils.py:28-32 | There is no digest exactly when the file is missing. A digest of some bytes comes back exactly when the file exists and holds those bytes. |
| Git.GitUtils.FileChanged | lib/git_utils.py:34-35 | The file counts as changed exactly when it is missing or holds other bytes. |
| Git.GitUtils.WriteFile | lib/git_utils.py:37-40 | The path now holds the bytes. Nothing else in the tree or the log changes. |
| Git.GitUtils.CommitFiles | lib/git_utils.py:50-57 | A commit is made exactly when the list is non-empty. It records the message, the author and the listed paths' bytes. The tree is untouched. |
| Git.GitUtils.WritePost | lib/git_utils.py:63-75 | The page is written, then the image. The new tree is `PostTree`, and the changed list is extended by `PostChanges`. |
| Git.GitUtils.CommitBlogPost | lib/git_utils.py:59-82 | The post's files are brought up to date. One publish commit of the changed paths is made, or none when nothing changed. The result says which. |
| Git.UnchangedWriteIsNoOp | lib/git_utils.py:34-40 | Writing bytes that are already there leaves the tree as it was. |
| Git.WriteThenUnchanged | lib/git_utils.py:34-40 | After a write the file is no longer changed, and every other path is untouched. |
| Git.ExtensionChoice | lib/git_utils.py:46-47 | `.jpg` exactly when `jpeg` occurs; a missing header gives `.png`. |
| Git.PostPathsDistinct | lib/git_utils.py:61-72 | A post's page path and image path differ. |
| Git.PostChangesExact | lib/git_utils.py:63-75 | The changed paths are a sub-list of `[page, image]`. A path is in it exactly when its file differed. |
| Git.PublishIdempotent | lib/git_utils.py:59-82 | Publishing the same post again changes nothing. |
| Git.SlugPathsDistinct | lib/git_utils.py:61-72 | Posts with different slugs never share a file. |
| Server.Categorize | api/server.py:107-111 | The keys are exactly the categories that occur. Each list holds that category's items in fetch order. |
| Server.CategoryOfTitle | api/server.py:110 | The category is the text before the first `" - "`, or the whole title. |
| Server.TimeAttackTitle | api/server.py:110-114 | A title opening with `"Time Attack - "` lands in the Time Attack bucket. |
| Server.BucketMembers | api/server.py:108-111 | An item is in a category's list exactly when it was fetched and has that category. |
| Server.BucketNonEmpty | api/server.py:108-114 | A category's list is non-empty exactly when the category occurs. |
| Server.BucketOfNewCategory | api/server.py:108-111 | A category that has not occurred has an empty list. |
| Server.BucketConcat | api/server.py:109-111 | Bucketing distributes over concatenation of the fetched items. |
| Server.CategoriesDistinct | api/server.py:108-111 | Each category is listed once, and exactly the categories of the items are listed. |
| Server.BucketSizesSum | api/server.py:108-111 | The lists together hold every fetched item exactly once. |
| Server.BucketLookup | api/server.py:114-115 | Reading the `defaultdict` gives the category's list, or `[]` for a category that does not occur. |
| Server.Service.Youtube | api/server.py:107-119 | Only the Time Attack list is ingested. The reply counts the search items, and it is an error when `items` is missing. |
| Server.ParseDate | api/server.py:197 | `strptime("%m/%d/%Y")` only accepts real calendar dates. |
| Server.ParseDateMeans | api/server.py:197 | The text parses to a date exactly when it is a one- or two-digit month, a slash, a one- or two-digit day, a slash and a four-digit year, these fields spell that date, and the date is a real calendar date. Any other text raises. |
| Server.ParsedDateSpelled | api/server.py:197 | An accepted text is split at its two slashes into well-formed fields that spell the returned date. |
| Server.SpelledDateParses | api/server.py:197 | A real calendar date written in the format is accepted, with its own value. |
| Server.ParseDateOneDigit | api/server.py:197 | One-digit fields are read: `"1/2/2024"` is 2 January 2024. |
| Server.ParseDateRejectsFebruary30 | api/server.py:197 | A day the month does not have raises: `"02/30/2024"` is rejected. |
| Server.ParseDateSplits | api/server.py:197 | A date written as month, slash, day, slash, year is read field by field at its two slashes. |
| Server.ParseFormatDate | api/server.py:197 | Every date with a four-digit year reads back from its zero-padded `MM/DD/YYYY` form. |
| Server.Service.ProcessTa | api/server.py:159-229 | With no videos nothing is requested or stored. Otherwise one details request is made for all ids, and every accepted video's document is upserted in order. |
| Server.Service.StoreVideos | api/server.py:184-229 | The loop over the fetched videos leaves the store as the in-order fold of their upserts. |
| Server.Service.StoreVideo | api/server.py:185-224 | One pass upserts the video's document when it normalises, and otherwise leaves the store alone. |
| Server.Service.ProcessRaw | api/server.py:232-233 | Raw footage changes nothing. |
| Server.AcceptedIff | api/server.py:188-207 | A video is stored exactly when its metadata has `track`, `date`, `car`, `time` and `driver`, the date and the lap time parse, and the driver's address belongs to a user. |
| Server.AcceptedDocument | api/server.py:194-218 | The stored document holds the normalised track key, the trimmed fields (empty when optional ones are missing), the parsed date and time, the watch URL and the driver's user id. |
| Server.DocumentFields | api/server.py:194-218 | The same, for any metadata map whose values are stripped. |
| Server.TrackKey | api/server.py:195 | The track key is the stripped track name, character by character, with each letter lower-cased and each space turned into `-`. So it has no spaces and no upper-case letters. |
| Server.ButtonwillowKey | api/server.py:195 | `"Buttonwillow"` becomes the key `"buttonwillow"`. |
| Server.DriverEmailStripped | api/server.py:202 | The looked-up address has no surrounding whitespace. |
| Server.ProofUrlInjective | api/server.py:201 | Different videos have different proof URLs. |
| Server.SkippedVideoInvisible | api/server.py:184-229 | A skipped video, wherever it stands, leaves the store as if it had not been fetched. |
| Server.NoVideosNoChange | api/server.py:175-177 | No videos, no change. |
| Server.UpsertByProof | api/server.py:220-224 | After the loop, a proof has a document exactly when it had one or an accepted video has that proof. An updated proof holds the last such video's document. Other documents are untouched, and every document stays filed under its own proof. |
| BlogSync.ProcessSingleBlog | api/server.py:236-264 | An unknown author fails before anything is written. Otherwise the post is published as `commit_blog_post` does. |
| BlogSync.BlogCronSync | api/server.py:267-301 | The checkout becomes `Sync`'s tree. A rendering failure propagates, and nothing is committed. Otherwise one sync commit of every changed path is made, or none, and the reply says which. |
| BlogSync.SyncAll | api/server.py:272-291 | The posts loop leaves the checkout as `Sync` puts it, reports its failure, and, when nothing failed, returns its changed list. Nothing is committed. |
| BlogSync.SyncPost | api/server.py:275-291 | One loop pass leaves the checkout and the changed list where `Sync` of one more post puts them, or reports that post's rendering failure, and commits nothing. |
| BlogSync.CommitSync | api/server.py:293-301 | The changed list is committed exactly when it is non-empty, the checkout is untouched, and the reply names the number of committed files or says there was nothing to commit. |
| BlogSync.SyncFailureSticks | api/server.py:275-278 | Once a post fails to render, the later posts are not processed. |
| BlogSync.SyncFailsIffSomeFails | api/server.py:275-278 | The sync fails exactly when some post does not render. |
| BlogSync.SyncFailsIffUnknownAuthor | api/server.py:275-278 | The sync fails exactly when some post's author is unknown. |
| BlogSync.SyncFrame | api/server.py:275-291 | A path that is not one of the three files of any synced post keeps its contents. |
| BlogSync.SyncNeverDeletes | api/server.py:275-291 | The sync never removes a file. |
| BlogSync.OtherSlugPaths | api/server.py:280-288 | A post's page and image are never one of the three files of a post with another slug. |
| BlogSync.LastPostUntouched | api/server.py:275-291 | With distinct slugs, the earlier posts never touch the last post's files. |
| BlogSync.SyncCombinesPosts | api/server.py:272-291 | With distinct slugs and every post rendering, the changed list is each post's own changes against the original checkout, in post order. |
| BlogSync.SyncHoldsPosts | api/server.py:275-291 | After the sync, every post's page and image are on disk. |
| BlogSync.SyncSnoc | api/server.py:275-291 | One more rendering post extends the tree and the changed list by that post's publication. |
| BlogSync.PostTreeHolds | api/server.py:280-291 | After a post is written, both of its files hold the new bytes. |
| BlogSync.PostTreeElsewhere | api/server.py:280-291 | Writing a post leaves every path but its own three files alone. |
| BlogSync.PostChangesAgree | api/server.py:283-291 | A post's changes depend only on its own two files. |
| BlogSync.PostChangesEmpty | api/server.py:283-291 | A post whose files already hold its bytes changes and writes nothing. |
| BlogSync.ResyncChangesNothing | api/server.py:267-301 | Re-running any prefix of the posts over the synced checkout changes nothing. |
| BlogSync.ResyncStep | api/server.py:275-291 | When a prefix re-syncs to no change and the next post's files already hold its bytes, the longer prefix re-syncs to no change too. |
| BlogSync.SyncIdempotent | api/server.py:267-301 | A second sync over the result renders everything, changes nothing, and so commits nothing. |

## Left out

- The regular expression engine. `FirstBlock` computes the first match of
  `===\s*(.*?)\s*===` in DOTALL mode directly: the text between the first
  `===` and the next non-overlapping `===`, stripped. The argument is in its
  comment.
- `str.strip`, `str.isspace`, `str.lower` and the digit tests. These cover
  ASCII whitespace and the usual Unicode spaces, ASCII letters and ASCII
  digits only. Other Unicode letters and digits are not modelled.
- Python's `int()` and `float()` grammar beyond optional whitespace, a sign,
  ASCII digits and one decimal point. Underscores, exponents, `inf`, `nan`
  and non-ASCII digits are not modelled.
- LapTime.ParseLapTime: floating point is modelled as exact reals, so
  rounding of `float` is not captured.
- `strptime("%m/%d/%Y")` is modelled as accepting one- or two-digit months
  and days and a four-digit year. Its acceptance of a space before a
  one-digit day and of non-ASCII digits is not modelled.
- Render.FormatDate: `strftime('%Y')` is modelled as zero-padded to four
  digits. Years below 1000 on platforms that do not pad are not modelled.
- Git.Hash: SHA-256 is replaced by the lower-case hex spelling of the
  bytes. The code only compares digests for equality, and that comparison
  means the same for any injective digest. A real SHA-256 collision is not
  modelled.
- Paths are compared as strings. Slugs are taken to be plain file names, so
  no two different slugs name the same file; `pathlib`'s normalisation (a
  slug `a/.` against a slug `a`) is not modelled.
- Git.GitUtils.DownloadImage: the HTTP request is not modelled. The
  response is an input, and `Git.ExtensionChoice` states the extension
  rule.
- Utf8.Encode: lone surrogates, which Python refuses to encode, do not
  occur, since a Dafny `char` is a Unicode scalar value.
- Failed downloads and `raise_for_status`, a failing `git push`, clone
  failures, and the details of `index.add` are not modelled. A download is
  a value, and a commit always succeeds and records its paths.
- The `GitUtils` constructor's clone-or-open choice is not modelled. The
  model starts from a given checkout.
- YouTube items are taken to always carry the fields the code reads
  outside its `try`: a search item's `snippet.title` and `id.videoId`, and a
  detail's `id` and `snippet.description`. An item missing one of
  them makes the source abort the whole route. The record types leave that
  case out.
- Mongo lookups are maps. `find_one({"email": ...})` with duplicate
  addresses, a post without one of its fields (a `KeyError`), and
  `datetime` time zones are not modelled.
- The Flask routes other than the data flow of `youtube`, and also
  authentication, the `publishedAfter` time window of the search, the
  `/blog` route's choice between single and full sync, and every `print`.
  The search request itself is an input.
- BlogSync.ProcessSingleBlog returns no value. `process_single_blog` drops
  the value of `commit_blog_post`, and the model does the same.
- Server.Service.Youtube: `response['items']` is read after processing, so
  a response without `items` still processes nothing and then fails. The
  model keeps that order.
- The exact set of exceptions `process_ta` catches: every skipping path of
  the loop (missing key, bad date, bad time, unknown driver) is a
  `SkipReason`. Errors of the store itself are not modelled.
