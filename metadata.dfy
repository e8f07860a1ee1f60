/** `extract_metadata` (api/util.py, and its verbatim copy lib/util.py):
    the `key: value` block between the first two `===` delimiters of a
    video description. */
module Metadata {
  import opened Wrappers
  import opened Text
  import opened Updates

  const Delimiter: string := "==="

  /** The text captured by the first match of `===\s*(.*?)\s*===` with
      DOTALL, or `None` when `re.findall` finds nothing.

      The leftmost match opens at the first `===` (index `p`); it closes at
      the first `===` that starts at or after `p + 3` (index `q`), since the
      lazy group stops at the earliest closing delimiter; if there is none,
      no later opening can close either. The greedy `\s*` on the left and
      the `\s*` on the right make the group the text in between with its
      surrounding whitespace removed, that is `Trim(s[p + 3..q])`. */
  function FirstBlock(s: string): (r: Option<string>)
    ensures r.Some? ==> Stripped(r.value)
  {
    match FindFrom(s, Delimiter, 0)
    case None => None
    case Some(p) =>
      match FindFrom(s, Delimiter, p + 3)
      case None => None
      case Some(q) => Some(Trim(s[p + 3..q]))
  }

  /** `p` is the first `===` of `s`, and `q` the first one that starts at
      or after `p + 3`: the two delimiters that close the first match. */
  predicate Delimiters(s: string, p: nat, q: nat) {
    && MatchAt(s, Delimiter, p) && (forall k: nat :: k < p ==> !MatchAt(s, Delimiter, k))
    && p + 3 <= q && MatchAt(s, Delimiter, q) && (forall k: nat :: p + 3 <= k < q ==> !MatchAt(s, Delimiter, k))
  }

  /** The captured block is the stripped text between the two delimiters
      of the first match, and there is a block only when they exist. */
  lemma FirstBlockValue(s: string)
    ensures FirstBlock(s).Some? ==> exists p: nat, q: nat :: Delimiters(s, p, q)
    ensures forall p: nat, q: nat :: Delimiters(s, p, q) ==> FirstBlock(s) == Some(Trim(s[p + 3..q]))
  {
    if FirstBlock(s).Some? {
      var p := FindFrom(s, Delimiter, 0).value;
      var q := FindFrom(s, Delimiter, p + 3).value;
      assert Delimiters(s, p, q);
    }
  }

  /** The line boundaries of `str.splitlines()`. */
  predicate IsLineBreak(c: char) {
    c == '\n' || c == '\r' || c == '\U{0b}' || c == '\U{0c}' || ('\U{1c}' <= c <= '\U{1e}') ||
    c == '\U{85}' || c == '\U{2028}' || c == '\U{2029}'
  }

  /** The index of the first line boundary at or after `i`, or `|s|`. */
  function LineEnd(s: string, i: nat): (e: nat)
    requires i <= |s|
    ensures i <= e <= |s|
    ensures forall k :: i <= k < e ==> !IsLineBreak(s[k])
    ensures e < |s| ==> IsLineBreak(s[e])
    decreases |s| - i
  {
    if i == |s| || IsLineBreak(s[i]) then i else LineEnd(s, i + 1)
  }

  /** `s.splitlines()`: the pieces between line boundaries, `\r\n` counting
      as one boundary, and no empty piece after a final boundary. */
  function SplitLines(s: string): (lines: seq<string>)
    ensures forall i, k :: 0 <= i < |lines| && 0 <= k < |lines[i]| ==> !IsLineBreak(lines[i][k])
    ensures s == [] <==> lines == []
    decreases |s|
  {
    if s == [] then []
    else
      var e := LineEnd(s, 0);
      var next := if e == |s| then e
                  else if s[e] == '\r' && e + 1 < |s| && s[e + 1] == '\n' then e + 2
                  else e + 1;
      [s[..e]] + SplitLines(s[next..])
  }

  predicate NoLineBreak(s: string) {
    forall k :: 0 <= k < |s| ==> !IsLineBreak(s[k])
  }

  /** `brk` is one line boundary in front of `rest`: `\r\n`, or a single
      boundary character that is not a `\r` followed by a `\n`. */
  predicate BoundaryBefore(brk: string, rest: string) {
    || brk == "\r\n"
    || (|brk| == 1 && IsLineBreak(brk[0]) && !(brk[0] == '\r' && rest != [] && rest[0] == '\n'))
  }

  /** A non-empty text without boundaries is a single line. */
  lemma SplitLinesSingle(a: string)
    requires a != [] && NoLineBreak(a)
    ensures SplitLines(a) == [a]
  {
    assert LineEnd(a, 0) == |a|;
    assert a[..|a|] == a;
  }

  /** The lines are the pieces between boundaries: the text before the
      first boundary is the first line, the boundary itself is dropped, and
      the rest follows. With `SplitLinesSingle` this fixes every result. */
  lemma SplitLinesCons(a: string, brk: string, rest: string)
    requires NoLineBreak(a) && BoundaryBefore(brk, rest)
    ensures SplitLines(a + brk + rest) == [a] + SplitLines(rest)
  {
    var s := a + brk + rest;
    assert s[|a|] == brk[0];
    assert forall k :: 0 <= k < |a| ==> s[k] == a[k];
    var e := LineEnd(s, 0);
    assert e == |a|;
    assert s[..e] == a;
    if brk == "\r\n" {
      assert s[e + 1] == '\n';
      assert s[e + 2..] == rest;
    } else {
      assert rest != [] ==> s[e + 1] == rest[0];
      assert s[e + 1..] == rest;
    }
  }

  /** What one line contributes: `key, value = line.split(':', 1)` and the
      pair `(key.strip(), value.strip())`, or nothing when the line has no
      colon. */
  function LineEntry(line: string): (r: Option<(string, string)>)
    ensures r.None? <==> ':' !in line
  {
    if ':' in line then
      var (key, value) := SplitFirst(line, ':');
      Some((Trim(key), Trim(value)))
    else None
  }

  /** The dictionary the loop over `lines` builds, starting from `{}`. */
  function ParseLines(lines: seq<string>): map<string, string> {
    ApplyAll(map[], lines, LineEntry)
  }

  /** The dictionary built from the captured block, if any. */
  function BlockMetadata(block: Option<string>): map<string, string> {
    match block
    case None => map[]
    case Some(b) => ParseLines(SplitLines(Trim(b)))
  }

  /** The result of `extract_metadata(s)`. */
  function Metadata(s: string): map<string, string> {
    BlockMetadata(FirstBlock(s))
  }

  /** `extract_metadata`: find the block, then fill the dictionary line by
      line. */
  method ExtractMetadata(description: string) returns (metadata: map<string, string>)
    ensures metadata == Metadata(description)
    ensures forall k :: k in metadata ==> Stripped(k) && Stripped(metadata[k])
  {
    var block := FirstBlock(description);
    if block.None? {
      return map[];
    }
    metadata := FillFromLines(SplitLines(Trim(block.value)));
    MetadataTrimmed(description);
  }

  /** The loop of `extract_metadata`: for each line with a colon,
      `metadata[key.strip()] = value.strip()`. */
  method FillFromLines(lines: seq<string>) returns (metadata: map<string, string>)
    ensures metadata == ParseLines(lines)
  {
    metadata := map[];
    var i := 0;
    while i < |lines|
      invariant 0 <= i <= |lines|
      invariant metadata == ParseLines(lines[..i])
    {
      var line := lines[i];
      if ':' in line {
        var kv := SplitFirst(line, ':');
        metadata := metadata[Trim(kv.0) := Trim(kv.1)];
      }
      ParseLinesSnoc(lines, i);
      i := i + 1;
    }
    assert lines[..i] == lines;
  }

  lemma ParseLinesSnoc(lines: seq<string>, i: nat)
    requires i < |lines|
    ensures ParseLines(lines[..i + 1]) == Apply(ParseLines(lines[..i]), LineEntry(lines[i]))
  {
    ApplyAllSnoc(map[], lines[..i], lines[i], LineEntry);
    assert lines[..i + 1] == lines[..i] + [lines[i]];
  }

  /** `re.findall` finds a match iff the description holds two `===` that
      do not overlap. */
  lemma FirstBlockFound(s: string)
    ensures FirstBlock(s).Some? <==> exists p, q :: MatchAt(s, Delimiter, p) && MatchAt(s, Delimiter, q) && p + 3 <= q
  {
    if exists p, q :: MatchAt(s, Delimiter, p) && MatchAt(s, Delimiter, q) && p + 3 <= q {
      var p, q :| MatchAt(s, Delimiter, p) && MatchAt(s, Delimiter, q) && p + 3 <= q;
      var p0 := FindFrom(s, Delimiter, 0).value;
      assert p0 <= p;
      assert FindFrom(s, Delimiter, p0 + 3).Some?;
    }
  }

  /** No `===` ... `===` pair: the empty dictionary. */
  lemma NoBlockNoMetadata(s: string)
    requires forall p, q :: MatchAt(s, Delimiter, p) && MatchAt(s, Delimiter, q) ==> q < p + 3
    ensures Metadata(s) == map[]
  {
    FirstBlockFound(s);
  }

  /** Every key and every value is free of surrounding whitespace. */
  lemma MetadataTrimmed(s: string)
    ensures forall k :: k in Metadata(s) ==> Stripped(k) && Stripped(Metadata(s)[k])
  {
    var p := (k: string, v: string) => Stripped(k) && Stripped(v);
    var lines := if FirstBlock(s).None? then [] else SplitLines(Trim(FirstBlock(s).value));
    forall i | 0 <= i < |lines| && LineEntry(lines[i]).Some?
      ensures p(LineEntry(lines[i]).value.0, LineEntry(lines[i]).value.1)
    {
    }
    ApplyAllPreserves(map[], lines, LineEntry, p);
  }

  /** A line with a colon splits at its FIRST colon: the key is the trimmed
      text before it, the value the trimmed text after it, later colons
      included. */
  lemma SplitAtFirstColon(key: string, value: string)
    requires ':' !in key
    ensures LineEntry(key + ":" + value) == Some((Trim(key), Trim(value)))
  {
    var line := key + ":" + value;
    assert line[|key|] == ':';
    var (k, v) := SplitFirst(line, ':');
    assert |k| == |key|;
    assert k == line[..|k|] == key;
    assert v == line[|k| + 1..] == value;
  }

  /** A line without a colon contributes nothing: removing it changes
      nothing, wherever it stands. */
  lemma NoColonLineIgnored(before: seq<string>, line: string, after: seq<string>)
    requires ':' !in line
    ensures ParseLines(before + [line] + after) == ParseLines(before + after)
  {
    SkipIsInvisible(map[], before, line, after, LineEntry);
  }

  /** Line `line` defines key `k`. */
  predicate DefinesKey(line: string, k: string) {
    ':' in line && Trim(SplitFirst(line, ':').0) == k
  }

  /** Key by key: `k` is present iff some line defines it, and its value is
      the trimmed value of the LAST line that does. */
  lemma LastOccurrenceWins(lines: seq<string>, k: string)
    ensures k in ParseLines(lines) <==> exists i :: 0 <= i < |lines| && DefinesKey(lines[i], k)
    ensures forall i :: 0 <= i < |lines| && DefinesKey(lines[i], k) &&
                        (forall j :: i < j < |lines| ==> !DefinesKey(lines[j], k)) ==>
                          ParseLines(lines)[k] == Trim(SplitFirst(lines[i], ':').1)
  {
    LastWriteWins(map[], lines, LineEntry, k);
    assert forall i :: 0 <= i < |lines| ==> (Proposes(LineEntry, lines[i], k) <==> DefinesKey(lines[i], k));
    forall i | 0 <= i < |lines| && DefinesKey(lines[i], k) &&
               (forall j :: i < j < |lines| ==> !DefinesKey(lines[j], k))
      ensures LastWriter(LineEntry, lines, i, k)
    {
    }
  }

  lemma FindFromExtend(s: string, t: string, pat: string, from: nat)
    requires FindFrom(s, pat, from).Some?
    ensures FindFrom(s + t, pat, from) == FindFrom(s, pat, from)
    decreases |s| - from
  {
    var i := from;
    if s[from..from + |pat|] != pat {
      assert (s + t)[from..from + |pat|] == s[from..from + |pat|];
      FindFromExtend(s, t, pat, from + 1);
    } else {
      assert (s + t)[from..from + |pat|] == s[from..from + |pat|];
    }
  }

  /** Only the first block counts: once `s` holds a complete block, text
      appended after it, further blocks included, never changes the result. */
  lemma FirstBlockExtend(s: string, t: string)
    requires FirstBlock(s).Some?
    ensures FirstBlock(s + t) == FirstBlock(s)
  {
    var p := FindFrom(s, Delimiter, 0).value;
    FindFromExtend(s, t, Delimiter, 0);
    FindFromExtend(s, t, Delimiter, p + 3);
    var q := FindFrom(s, Delimiter, p + 3).value;
    assert (s + t)[p + 3..q] == s[p + 3..q];
  }

  lemma LaterTextIgnored(s: string, t: string)
    requires FirstBlock(s).Some?
    ensures Metadata(s + t) == Metadata(s)
  {
    FirstBlockExtend(s, t);
  }
}
