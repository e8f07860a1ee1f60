/** The YouTube ingestion of api/server.py: search results are bucketed by
    the category in front of their title, the `Time Attack` bucket is
    fetched in full, and every video whose description carries a valid
    metadata block becomes a TrackTime document, upserted by its proof URL.

    The YouTube Data API is an input: the search response is a value and
    the details call is a function from the requested ids to its response.
    The Mongo collections are a map from proof URL to document (TrackTime)
    and a map from e-mail address to user id (User). */
module Server {
  import opened Wrappers
  import opened Text
  import opened Updates
  import opened Metadata
  import opened LapTime
  import opened Render

  /** A search result: `item['id']['videoId']` and `item['snippet']['title']`. */
  datatype SearchItem = SearchItem(videoId: string, title: string)

  /** A details result: `full_video['id']` and `full_video['snippet']['description']`. */
  datatype FullVideo = FullVideo(id: string, description: string)

  /** A response whose `items` key may be missing. */
  type Response<T> = Option<seq<T>>

  /** `response.get('items', [])`. */
  function ItemsOr<T>(r: Response<T>): seq<T> {
    match r
    case None => []
    case Some(items) => items
  }

  /** The stored TrackTime document. */
  datatype TrackTime = TrackTime(
    track: string,
    configuration: string,
    date: Date,
    car: string,
    tag: string,
    time: real,
    proof: string,
    userId: string)

  /** Why a video is skipped: an empty metadata map, a `KeyError`, a
      `ValueError` from `strptime` or from the lap-time parser, or a driver
      address no user has. */
  datatype SkipReason =
    | NoMetadata
    | MissingField(key: string)
    | BadDate
    | BadTime(err: LapTimeError)
    | UnknownDriver(email: string)

  /** The reply to a search response without `items`: `response['items']`. */
  datatype ReplyError = ItemsMissing

  const TimeAttack: string := "Time Attack"
  const RawFootage: string := "Raw Footage"
  const Separator: string := " - "
  const WatchPrefix: string := "https://www.youtube.com/watch?v="

  // ---------------------------------------------------------------------
  // Categorisation

  /** `title.split(' - ')[0]`. */
  function Category(title: string): string {
    PrefixBefore(title, Separator)
  }

  /** The items of category `c`, in fetch order. */
  function Bucket(items: seq<SearchItem>, c: string): seq<SearchItem>
    decreases |items|
  {
    if items == [] then []
    else
      var last := items[|items| - 1];
      Bucket(items[..|items| - 1], c) + (if Category(last.title) == c then [last] else [])
  }

  /** The categories of `items`, each once, in order of first appearance. */
  function Categories(items: seq<SearchItem>): seq<string>
    decreases |items|
  {
    if items == [] then []
    else
      var cs := Categories(items[..|items| - 1]);
      var c := Category(items[|items| - 1].title);
      if c in cs then cs else cs + [c]
  }

  /** The sizes of the buckets of `cs`, added up. */
  function TotalSize(items: seq<SearchItem>, cs: seq<string>): nat {
    if cs == [] then 0 else |Bucket(items, cs[0])| + TotalSize(items, cs[1..])
  }

  predicate Distinct<T(==)>(xs: seq<T>) {
    forall i, j :: 0 <= i < j < |xs| ==> xs[i] != xs[j]
  }

  /** The `defaultdict(list)` loop of `youtube`. */
  method Categorize(items: seq<SearchItem>) returns (buckets: map<string, seq<SearchItem>>)
    ensures forall c :: c in buckets <==> c in Categories(items)
    ensures forall c :: c in buckets ==> buckets[c] == Bucket(items, c)
  {
    buckets := map[];
    var i := 0;
    while i < |items|
      invariant 0 <= i <= |items|
      invariant forall c :: c in buckets <==> c in Categories(items[..i])
      invariant forall c :: c in buckets ==> buckets[c] == Bucket(items[..i], c)
    {
      var item := items[i];
      var c := Category(item.title);
      assert items[..i + 1][..i] == items[..i];
      if c in buckets {
        buckets := buckets[c := buckets[c] + [item]];
      } else {
        buckets := buckets[c := [item]];
        BucketOfNewCategory(items[..i], c);
      }
      i := i + 1;
    }
    assert items[..i] == items;
  }

  /** `categories_mapping[c]` on the `defaultdict`: missing keys read as `[]`. */
  function BucketOr(buckets: map<string, seq<SearchItem>>, c: string): seq<SearchItem> {
    if c in buckets then buckets[c] else []
  }

  // ---------------------------------------------------------------------
  // Categorisation properties

  /** The key is the text before the first `" - "`, or the whole title. */
  lemma CategoryOfTitle(title: string)
    ensures !ContainsSub(title, Separator) ==> Category(title) == title
    ensures ContainsSub(title, Separator) ==>
      Category(title) + Separator <= title && !ContainsSub(Category(title), Separator)
  {
    if ContainsSub(title, Separator) {
      var i := FindFrom(title, Separator, 0).value;
      forall k | 0 <= k
        ensures !MatchAt(Category(title), Separator, k)
      {
        if MatchAt(Category(title), Separator, k) {
          assert title[k..k + |Separator|] == Category(title)[k..k + |Separator|];
          assert MatchAt(title, Separator, k);
        }
      }
    }
  }

  /** A title opening with `"Time Attack - "` files its video under
      `"Time Attack"`, whatever follows. */
  lemma TimeAttackTitle(title: string, rest: string)
    requires title == TimeAttack + Separator + rest
    ensures Category(title) == TimeAttack
  {
    var n := |TimeAttack|;
    assert title[..n] == TimeAttack && title[n..n + 3] == Separator;
    forall k | 0 <= k < n
      ensures !MatchAt(title, Separator, k)
    {
      assert title[k] == TimeAttack[k];
      assert k + 1 < n ==> title[k + 1] == TimeAttack[k + 1];
    }
    assert MatchAt(title, Separator, n);
    assert FindFrom(title, Separator, 0) == Some(n);
  }

  lemma BucketOfNewCategory(items: seq<SearchItem>, c: string)
    requires c !in Categories(items)
    ensures Bucket(items, c) == []
  {
    BucketNonEmpty(items, c);
  }

  /** A bucket is non-empty exactly for the categories that occur. */
  lemma {:induction false} BucketNonEmpty(items: seq<SearchItem>, c: string)
    ensures Bucket(items, c) != [] <==> c in Categories(items)
    decreases |items|
  {
    if items != [] {
      BucketNonEmpty(items[..|items| - 1], c);
    }
  }

  /** An item is in the bucket of `c` exactly when it was fetched and its
      title has category `c`. */
  lemma {:induction false} BucketMembers(items: seq<SearchItem>, c: string, x: SearchItem)
    ensures x in Bucket(items, c) <==> x in items && Category(x.title) == c
    decreases |items|
  {
    if items != [] {
      var init := items[..|items| - 1];
      BucketMembers(init, c, x);
      assert items == init + [items[|items| - 1]];
    }
  }

  /** The bucket of a concatenation is the concatenation of the buckets:
      each bucket keeps fetch order. */
  lemma {:induction false} BucketConcat(xs: seq<SearchItem>, ys: seq<SearchItem>, c: string)
    ensures Bucket(xs + ys, c) == Bucket(xs, c) + Bucket(ys, c)
    decreases |ys|
  {
    if ys == [] {
      assert xs + ys == xs;
    } else {
      var init := ys[..|ys| - 1];
      assert (xs + ys)[..|xs + ys| - 1] == xs + init;
      BucketConcat(xs, init, c);
    }
  }

  /** `Categories` lists each occurring category once. */
  lemma {:induction false} CategoriesDistinct(items: seq<SearchItem>)
    ensures Distinct(Categories(items))
    ensures forall c :: c in Categories(items) <==> exists i :: 0 <= i < |items| && Category(items[i].title) == c
    decreases |items|
  {
    if items != [] {
      var init := items[..|items| - 1];
      CategoriesDistinct(init);
      forall c
        ensures c in Categories(items) <==> exists i :: 0 <= i < |items| && Category(items[i].title) == c
      {
        if c in Categories(init) {
          var i :| 0 <= i < |init| && Category(init[i].title) == c;
          assert items[i] == init[i];
        }
        if exists i :: 0 <= i < |items| && Category(items[i].title) == c {
          var i :| 0 <= i < |items| && Category(items[i].title) == c;
          if i < |init| {
            assert init[i] == items[i];
          }
        }
      }
    }
  }

  lemma {:induction false} TotalSizeSnoc(items: seq<SearchItem>, x: SearchItem, cs: seq<string>)
    requires Distinct(cs)
    ensures TotalSize(items + [x], cs) == TotalSize(items, cs) + (if Category(x.title) in cs then 1 else 0)
    decreases |cs|
  {
    if cs != [] {
      assert (items + [x])[..|items + [x]| - 1] == items;
      assert Distinct(cs[1..]) by {
        forall i, j | 0 <= i < j < |cs[1..]| ensures cs[1..][i] != cs[1..][j] {
          assert cs[1..][i] == cs[i + 1] && cs[1..][j] == cs[j + 1];
        }
      }
      TotalSizeSnoc(items, x, cs[1..]);
      if Category(x.title) == cs[0] {
        assert Category(x.title) !in cs[1..] by {
          forall k | 0 <= k < |cs[1..]| ensures cs[1..][k] != cs[0] {
            assert cs[1..][k] == cs[k + 1];
          }
        }
      }
      assert Category(x.title) in cs <==> Category(x.title) == cs[0] || Category(x.title) in cs[1..];
    }
  }

  lemma {:induction false} TotalSizeAppend(items: seq<SearchItem>, cs: seq<string>, c: string)
    ensures TotalSize(items, cs + [c]) == TotalSize(items, cs) + |Bucket(items, c)|
    decreases |cs|
  {
    if cs == [] {
      assert TotalSize(items, [c]) == |Bucket(items, c)| + TotalSize(items, []);
    } else {
      assert (cs + [c])[1..] == cs[1..] + [c];
      TotalSizeAppend(items, cs[1..], c);
    }
  }

  /** Every fetched item lands in exactly one bucket: the bucket sizes add
      up to the number of items. */
  lemma {:induction false} BucketSizesSum(items: seq<SearchItem>)
    ensures TotalSize(items, Categories(items)) == |items|
    decreases |items|
  {
    if items != [] {
      var init := items[..|items| - 1];
      var x := items[|items| - 1];
      var cs := Categories(init);
      var c := Category(x.title);
      assert items == init + [x];
      BucketSizesSum(init);
      CategoriesDistinct(init);
      TotalSizeSnoc(init, x, cs);
      if c !in cs {
        TotalSizeAppend(items, cs, c);
        TotalSizeSnoc(init, x, cs);
        assert Bucket(items, c) == Bucket(init, c) + [x];
        BucketOfNewCategory(init, c);
      }
    }
  }

  /** Reading a bucket from the categorised map is the bucket of its
      category, an absent key included. */
  lemma BucketLookup(items: seq<SearchItem>, buckets: map<string, seq<SearchItem>>, c: string)
    requires forall k :: k in buckets <==> k in Categories(items)
    requires forall k :: k in buckets ==> buckets[k] == Bucket(items, k)
    ensures BucketOr(buckets, c) == Bucket(items, c)
  {
    if c !in buckets {
      BucketOfNewCategory(items, c);
    }
  }

  // ---------------------------------------------------------------------
  // Dates: `datetime.strptime(text, "%m/%d/%Y")`

  predicate Leap(year: nat) {
    year % 4 == 0 && (year % 100 != 0 || year % 400 == 0)
  }

  function DaysIn(year: nat, month: nat): nat {
    if month == 2 then (if Leap(year) then 29 else 28)
    else if month == 4 || month == 6 || month == 9 || month == 11 then 30
    else 31
  }

  /** A date `datetime` accepts. */
  predicate ValidDate(d: Date) {
    1 <= d.year && 1 <= d.month <= 12 && 1 <= d.day <= DaysIn(d.year, d.month)
  }

  /** One or two digits, as `%m` and `%d` read them. */
  predicate ShortNumber(s: string) {
    1 <= |s| <= 2 && AllDigits(s)
  }

  /** The three fields of `MM/DD/YYYY`. */
  function DateFields(mm: string, dd: string, yyyy: string): (r: Option<Date>)
    ensures r.Some? ==> ValidDate(r.value)
  {
    if ShortNumber(mm) && ShortNumber(dd) && |yyyy| == 4 && AllDigits(yyyy) then
      var d := Date(DigitsValue(yyyy), DigitsValue(mm), DigitsValue(dd));
      if ValidDate(d) then Some(d) else None
    else None
  }

  /** `strptime(text, "%m/%d/%Y")`: `None` where it raises `ValueError`. */
  function ParseDate(s: string): (r: Option<Date>)
    ensures r.Some? ==> ValidDate(r.value)
  {
    if '/' !in s then None
    else
      var first := SplitFirst(s, '/');
      if '/' !in first.1 then None
      else
        var second := SplitFirst(first.1, '/');
        DateFields(first.0, second.0, second.1)
  }

  /** `MM/DD/YYYY`, zero-padded. */
  function FormatUsDate(d: Date): string {
    PadNat(d.month, 2) + "/" + PadNat(d.day, 2) + "/" + PadNat(d.year, 4)
  }

  /** Every valid date with a four-digit year reads back from its
      `MM/DD/YYYY` form. */
  lemma ParseFormatDate(d: Date)
    requires ValidDate(d) && d.year < 10000
    ensures ParseDate(FormatUsDate(d)) == Some(d)
  {
    var m := PadNat(d.month, 2);
    var dd := PadNat(d.day, 2);
    var y := PadNat(d.year, 4);
    assert Pow10(2) == 100;
    assert Pow10(4) == 10000 by { assert Pow10(3) == 1000; }
    PadLength(d.month, 2);
    PadLength(d.day, 2);
    PadLength(d.year, 4);
    DigitsHaveNo(m, '/');
    DigitsHaveNo(dd, '/');
    ParseDateSplits(m, dd, y);
    assert DateFields(m, dd, y) == Some(d);
  }

  /** `MM/DD/YYYY` splits into its three fields when the first two hold no
      slash. */
  lemma ParseDateSplits(m: string, dd: string, y: string)
    requires '/' !in m && '/' !in dd
    ensures ParseDate(m + "/" + dd + "/" + y) == DateFields(m, dd, y)
  {
    assert m + "/" + dd + "/" + y == m + ['/'] + (dd + ['/'] + y);
    SplitFirstOf(m, '/', dd + ['/'] + y);
    SplitFirstOf(dd, '/', y);
  }

  /** `s` is written `m/dd/y` with a one- or two-digit month and day and a
      four-digit year, and these fields spell `d`. */
  predicate SpelledDate(s: string, m: string, dd: string, y: string, d: Date) {
    && s == m + "/" + dd + "/" + y
    && ShortNumber(m) && ShortNumber(dd) && |y| == 4 && AllDigits(y)
    && d == Date(DigitsValue(y), DigitsValue(m), DigitsValue(dd))
  }

  /** `strptime(s, "%m/%d/%Y")` returns `d` exactly when `s` spells `d` in
      that format and `d` is a real calendar date. Any other text raises. */
  lemma ParseDateMeans(s: string, d: Date)
    ensures ParseDate(s) == Some(d) <==> ValidDate(d) && exists m, dd, y :: SpelledDate(s, m, dd, y, d)
  {
    if ParseDate(s) == Some(d) {
      ParsedDateSpelled(s, d);
    }
    if ValidDate(d) && exists m, dd, y :: SpelledDate(s, m, dd, y, d) {
      var m, dd, y :| SpelledDate(s, m, dd, y, d);
      SpelledDateParses(s, m, dd, y, d);
    }
  }

  /** An accepted text spells the date returned. */
  lemma ParsedDateSpelled(s: string, d: Date)
    requires ParseDate(s) == Some(d)
    ensures SpelledDate(s, SplitFirst(s, '/').0, SplitFirst(SplitFirst(s, '/').1, '/').0, SplitFirst(SplitFirst(s, '/').1, '/').1, d)
  {
    var first := SplitFirst(s, '/');
    var second := SplitFirst(first.1, '/');
    DateFieldsAccepted(first.0, second.0, second.1, d);
    SlashJoin(s, first.0, first.1, second.0, second.1);
  }

  /** What `DateFields` demands of the fields it accepts. */
  lemma DateFieldsAccepted(m: string, dd: string, y: string, d: Date)
    requires DateFields(m, dd, y) == Some(d)
    ensures ShortNumber(m) && ShortNumber(dd) && |y| == 4 && AllDigits(y)
    ensures d == Date(DigitsValue(y), DigitsValue(m), DigitsValue(dd))
  {
  }

  lemma SlashJoin(s: string, a: string, rest: string, b: string, c: string)
    requires s == a + ['/'] + rest && rest == b + ['/'] + c
    ensures s == a + "/" + b + "/" + c
  {
  }

  /** A real date spelled in the format is accepted. */
  lemma SpelledDateParses(s: string, m: string, dd: string, y: string, d: Date)
    requires ValidDate(d) && SpelledDate(s, m, dd, y, d)
    ensures ParseDate(s) == Some(d)
  {
    DigitsHaveNo(m, '/');
    DigitsHaveNo(dd, '/');
    ParseDateSplits(m, dd, y);
  }

  /** The year field of the examples below. */
  lemma Digits2024()
    ensures AllDigits("2024") && DigitsValue("2024") == 2024
  {
    var y := "2024";
    forall i | 0 <= i < |y|
      ensures IsDigit(y[i])
    {
      assert y[i] == '0' || y[i] == '2' || y[i] == '4';
    }
    assert y[..3] == "202" && "202"[..2] == "20" && "20"[..1] == "2" && "2"[..0] == "";
  }

  /** One-digit months and days are read too: `"1/2/2024"` is 2 January 2024. */
  lemma ParseDateOneDigit()
    ensures ParseDate("1/2/2024") == Some(Date(2024, 1, 2))
  {
    assert "1/2/2024" == "1" + "/" + "2" + "/" + "2024";
    ParseDateSplits("1", "2", "2024");
    OneDigitFields();
  }

  lemma OneDigitFields()
    ensures DateFields("1", "2", "2024") == Some(Date(2024, 1, 2))
  {
    Digits2024();
    assert DigitsValue("1") == 1 by { assert "1"[..0] == ""; }
    assert DigitsValue("2") == 2 by { assert "2"[..0] == ""; }
    assert ValidDate(Date(2024, 1, 2));
  }

  /** A day the month does not have raises: `"02/30/2024"` is rejected. */
  lemma ParseDateRejectsFebruary30()
    ensures ParseDate("02/30/2024") == None
  {
    assert "02/30/2024" == "02" + "/" + "30" + "/" + "2024";
    ParseDateSplits("02", "30", "2024");
    February30Fields();
  }

  lemma February30Fields()
    ensures DateFields("02", "30", "2024") == None
  {
    assert DigitsValue("02") == 2 by { assert "02"[..1] == "0" && "0"[..0] == ""; }
    assert DigitsValue("30") == 30 by { assert "30"[..1] == "3" && "3"[..0] == ""; }
    Digits2024();
    assert !ValidDate(Date(2024, 2, 30));
  }

  // ---------------------------------------------------------------------
  // Normalising one video

  /** `metadata["track"].strip().lower().replace(" ", "-")`: a key with no
      spaces and no upper-case letters, as long as the stripped name. */
  function TrackKey(track: string): (key: string)
    ensures ' ' !in key
    ensures forall i :: 0 <= i < |key| ==> !('A' <= key[i] <= 'Z')
    ensures |key| == |Trim(track)|
    ensures forall i :: 0 <= i < |key| ==>
      key[i] == if LowerChar(Trim(track)[i]) == ' ' then '-' else LowerChar(Trim(track)[i])
  {
    var lowered := Lower(Trim(track));
    var key := ReplaceChar(lowered, ' ', '-');
    assert forall i :: 0 <= i < |key| ==> key[i] != ' ' && !('A' <= key[i] <= 'Z') by {
      forall i | 0 <= i < |key|
        ensures key[i] != ' ' && !('A' <= key[i] <= 'Z')
      {
        assert key[i] == if lowered[i] == ' ' then '-' else lowered[i];
      }
    }
    key
  }

  /** The documented track: `"Buttonwillow"` is filed as `"buttonwillow"`. */
  lemma ButtonwillowKey(track: string)
    requires track == "Buttonwillow"
    ensures TrackKey(track) == "buttonwillow"
  {
    assert Stripped(track);
    TrimStripped(track);
    var key := TrackKey(track);
    assert |key| == 12;
    forall i | 0 <= i < 12
      ensures key[i] == "buttonwillow"[i]
    {
      assert key[i] == LowerChar(track[i]);
    }
  }

  /** `metadata["driver"].strip().lower()`. */
  function DriverEmail(driver: string): string {
    Lower(Trim(driver))
  }

  /** `metadata.get(key, "").strip()`. */
  function Optional(metadata: map<string, string>, key: string): string {
    if key in metadata then Trim(metadata[key]) else ""
  }

  function ProofUrl(videoId: string): string {
    WatchPrefix + videoId
  }

  /** The body of the `try` block: the document built from the metadata
      of video `videoId`, or the first thing that goes wrong, in the order
      the code evaluates the fields. `users` maps e-mail addresses to user
      ids. */
  function TrackTimeDoc(videoId: string, metadata: map<string, string>, users: map<string, string>): Result<TrackTime, SkipReason> {
    if "track" !in metadata then Err(MissingField("track"))
    else if "date" !in metadata then Err(MissingField("date"))
    else if ParseDate(metadata["date"]).None? then Err(BadDate)
    else if "car" !in metadata then Err(MissingField("car"))
    else if "time" !in metadata then Err(MissingField("time"))
    else if ParseLapTime(metadata["time"]).Err? then Err(BadTime(ParseLapTime(metadata["time"]).error))
    else if "driver" !in metadata then Err(MissingField("driver"))
    else
      var email := DriverEmail(metadata["driver"]);
      if email !in users then Err(UnknownDriver(email))
      else
        Ok(TrackTime(
          TrackKey(metadata["track"]),
          Optional(metadata, "configuration"),
          ParseDate(metadata["date"]).value,
          Trim(metadata["car"]),
          Optional(metadata, "tag"),
          ParseLapTime(metadata["time"]).value,
          ProofUrl(videoId),
          users[email]))
  }

  /** One iteration of the `process_ta` loop, from the details result. */
  function Normalize(video: FullVideo, users: map<string, string>): Result<TrackTime, SkipReason> {
    var metadata := Metadata.Metadata(video.description);
    if metadata == map[] then Err(NoMetadata) else TrackTimeDoc(video.id, metadata, users)
  }

  /** The upsert a video asks for: its document, keyed by its proof URL. */
  function Proposal(video: FullVideo, users: map<string, string>): Option<(string, TrackTime)> {
    match Normalize(video, users)
    case Ok(doc) => Some((doc.proof, doc))
    case Err(_) => None
  }

  function Proposer(users: map<string, string>): FullVideo -> Option<(string, TrackTime)> {
    v => Proposal(v, users)
  }

  /** `[video["id"]["videoId"] for video in videos]`. */
  function VideoIds(videos: seq<SearchItem>): (ids: seq<string>)
    ensures |ids| == |videos|
    ensures forall i :: 0 <= i < |videos| ==> ids[i] == videos[i].videoId
  {
    seq(|videos|, i requires 0 <= i < |videos| => videos[i].videoId)
  }

  /** The TrackTime store after `process_ta(videos)`: unchanged for no
      videos, otherwise every fetched detail's upsert applied in order. */
  function TaStore(store: map<string, TrackTime>, videos: seq<SearchItem>,
                   fetch: seq<string> -> Response<FullVideo>, users: map<string, string>): map<string, TrackTime> {
    if videos == [] then store
    else ApplyAll(store, ItemsOr(fetch(VideoIds(videos))), Proposer(users))
  }

  // ---------------------------------------------------------------------
  // The service

  class Service {
    /** TrackTime documents by proof URL. */
    var trackTimes: map<string, TrackTime>
    /** User ids by e-mail address (`find_one({"email": ...})`). */
    const users: map<string, string>
    /** The id lists of every details request sent to YouTube. */
    ghost var requests: seq<seq<string>>

    constructor(store: map<string, TrackTime>, users: map<string, string>)
      ensures trackTimes == store && this.users == users && requests == []
    {
      trackTimes := store;
      this.users := users;
      requests := [];
    }

    /** `process_ta`: one details request for all the videos, then one
        upsert per video that normalises. */
    method ProcessTa(videos: seq<SearchItem>, fetch: seq<string> -> Response<FullVideo>)
      modifies this
      ensures trackTimes == TaStore(old(trackTimes), videos, fetch, users)
      ensures requests == old(requests) + (if videos == [] then [] else [VideoIds(videos)])
    {
      var videoIds := VideoIds(videos);
      if videoIds == [] {
        assert requests + [] == requests;
        return;
      }
      requests := requests + [videoIds];
      StoreVideos(ItemsOr(fetch(videoIds)));
    }

    /** The `process_ta` loop over the fetched videos, in order. */
    method StoreVideos(items: seq<FullVideo>)
      modifies this
      ensures trackTimes == ApplyAll(old(trackTimes), items, Proposer(users))
      ensures requests == old(requests)
    {
      var i := 0;
      while i < |items|
        invariant 0 <= i <= |items|
        invariant trackTimes == ApplyAll(old(trackTimes), items[..i], Proposer(users))
        invariant requests == old(requests)
      {
        ApplyAllSnoc(old(trackTimes), items[..i], items[i], Proposer(users));
        assert items[..i + 1] == items[..i] + [items[i]];
        StoreVideo(items[i]);
        i := i + 1;
      }
      assert items[..i] == items;
    }

    /** One pass of the `process_ta` loop: the video's upsert, if it
        normalises. */
    method StoreVideo(video: FullVideo)
      modifies this
      ensures trackTimes == Apply(old(trackTimes), Proposer(users)(video))
      ensures requests == old(requests)
    {
      var metadata := ExtractMetadata(video.description);
      if metadata != map[] {
        var doc := TrackTimeDoc(video.id, metadata, users);
        if doc.Ok? {
          trackTimes := trackTimes[doc.value.proof := doc.value];
        }
      }
    }

    /** `process_raw`: does nothing. */
    method ProcessRaw(videos: seq<SearchItem>)
      ensures unchanged(this)
    {
    }

    /** `youtube` once the search has been made: categorise, hand the two
        known buckets on when non-empty, and report the number of items,
        or fail when the response has no `items`. */
    method Youtube(response: Response<SearchItem>, fetch: seq<string> -> Response<FullVideo>) returns (reply: Result<nat, ReplyError>)
      modifies this
      ensures var timeAttack := Bucket(ItemsOr(response), TimeAttack);
        && trackTimes == TaStore(old(trackTimes), timeAttack, fetch, users)
        && requests == old(requests) + (if timeAttack == [] then [] else [VideoIds(timeAttack)])
      ensures reply.Ok? <==> response.Some?
      ensures reply.Ok? ==> reply.value == |response.value|
    {
      var items := ItemsOr(response);
      var buckets := Categorize(items);
      BucketLookup(items, buckets, TimeAttack);
      if BucketOr(buckets, TimeAttack) != [] {
        ProcessTa(BucketOr(buckets, TimeAttack), fetch);
      }
      if BucketOr(buckets, RawFootage) != [] {
        ProcessRaw(BucketOr(buckets, RawFootage));
      }
      match response
      case None => reply := Err(ItemsMissing);
      case Some(xs) => reply := Ok(|xs|);
    }
  }

  // ---------------------------------------------------------------------
  // Ingestion properties

  /** When a video is accepted: it has a metadata block with `track`,
      `date`, `car`, `time` and `driver`, the date and the time parse, and
      the driver's address belongs to a user. */
  lemma AcceptedIff(video: FullVideo, users: map<string, string>)
    ensures var m := Metadata.Metadata(video.description);
      Normalize(video, users).Ok? <==>
        && m != map[]
        && "track" in m && "date" in m && "car" in m && "time" in m && "driver" in m
        && ParseDate(m["date"]).Some?
        && ParseLapTime(m["time"]).Ok?
        && DriverEmail(m["driver"]) in users
  {
  }

  /** What an accepted video's document holds: the normalised track key,
      trimmed configuration, car and tag (empty when missing), a valid
      date, the parsed lap time, the watch URL of the video, and the id of
      the user the trimmed, lower-cased driver address names. */
  lemma AcceptedDocument(video: FullVideo, users: map<string, string>)
    requires Normalize(video, users).Ok?
    ensures var m := Metadata.Metadata(video.description);
      var doc := Normalize(video, users).value;
      && doc.track == TrackKey(m["track"])
      && doc.configuration == (if "configuration" in m then m["configuration"] else "")
      && doc.tag == (if "tag" in m then m["tag"] else "")
      && doc.car == m["car"]
      && ValidDate(doc.date) && Some(doc.date) == ParseDate(m["date"])
      && Ok(doc.time) == ParseLapTime(m["time"])
      && doc.proof == WatchPrefix + video.id
      && DriverEmail(m["driver"]) in users && doc.userId == users[DriverEmail(m["driver"])]
  {
    MetadataTrimmed(video.description);
    DocumentFields(video.id, Metadata.Metadata(video.description), users);
  }

  lemma DocumentFields(videoId: string, m: map<string, string>, users: map<string, string>)
    requires forall k :: k in m ==> Stripped(m[k])
    requires TrackTimeDoc(videoId, m, users).Ok?
    ensures var doc := TrackTimeDoc(videoId, m, users).value;
      && doc.track == TrackKey(m["track"])
      && doc.configuration == (if "configuration" in m then m["configuration"] else "")
      && doc.tag == (if "tag" in m then m["tag"] else "")
      && doc.car == m["car"]
      && ValidDate(doc.date) && Some(doc.date) == ParseDate(m["date"])
      && Ok(doc.time) == ParseLapTime(m["time"])
      && doc.proof == WatchPrefix + videoId
      && DriverEmail(m["driver"]) in users && doc.userId == users[DriverEmail(m["driver"])]
  {
    TrimStripped(m["car"]);
    if "configuration" in m { TrimStripped(m["configuration"]); }
    if "tag" in m { TrimStripped(m["tag"]); }
  }

  /** The lookup address is itself stripped, whatever the driver field. */
  lemma DriverEmailStripped(driver: string)
    ensures Stripped(DriverEmail(driver))
  {
    var t := Trim(driver);
    var e := DriverEmail(driver);
    if e != [] {
      assert e[0] == LowerChar(t[0]);
      assert e[|e| - 1] == LowerChar(t[|t| - 1]);
    }
  }

  /** Different videos have different proof URLs, so no two videos share
      a document. */
  lemma ProofUrlInjective(a: string, b: string)
    requires ProofUrl(a) == ProofUrl(b)
    ensures a == b
  {
    assert a == ProofUrl(a)[|WatchPrefix|..];
    assert b == ProofUrl(b)[|WatchPrefix|..];
  }

  /** A skipped video leaves the store as it was and does not affect the
      videos after it. */
  lemma SkippedVideoInvisible(store: map<string, TrackTime>, before: seq<FullVideo>, video: FullVideo,
                              after: seq<FullVideo>, users: map<string, string>)
    requires Normalize(video, users).Err?
    ensures ApplyAll(store, before + [video] + after, Proposer(users)) ==
            ApplyAll(store, before + after, Proposer(users))
  {
    assert Proposer(users)(video).None?;
    SkipIsInvisible(store, before, video, after, Proposer(users));
  }

  /** `process_ta` with no videos makes no request and stores nothing. */
  lemma NoVideosNoChange(store: map<string, TrackTime>, fetch: seq<string> -> Response<FullVideo>, users: map<string, string>)
    ensures TaStore(store, [], fetch, users) == store
  {
  }

  /** Upsert by proof: a proof URL has a document afterwards iff it had one
      before or an accepted video has that URL; its document is the one the
      last such video built; other documents are untouched; and every
      document stays filed under its own proof URL. */
  lemma UpsertByProof(store: map<string, TrackTime>, items: seq<FullVideo>, users: map<string, string>, p: string)
    requires forall k :: k in store ==> store[k].proof == k
    ensures var after := ApplyAll(store, items, Proposer(users));
      && (p in after <==> p in store || exists i :: 0 <= i < |items| && Proposes(Proposer(users), items[i], p))
      && (forall i :: LastWriter(Proposer(users), items, i, p) ==> after[p] == Normalize(items[i], users).value)
      && ((forall i :: 0 <= i < |items| ==> !Proposes(Proposer(users), items[i], p)) && p in store ==> after[p] == store[p])
      && (forall k :: k in after ==> after[k].proof == k)
  {
    LastWriteWins(store, items, Proposer(users), p);
    ApplyAllPreserves(store, items, Proposer(users), (k: string, d: TrackTime) => d.proof == k);
  }
}
