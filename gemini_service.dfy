/** `fetchDailyNews`: turning the language model's reply into a bulletin.
    The reply text is cleaned of code fences, the JSON array is cut out between
    the first `[` and the last `]` and parsed, and the grounding chunks become a
    list of sources with one entry per url. */
module GeminiService {
  import opened Wrappers
  import opened JsStrings
  import opened Types

  /** The first candidate's grounding metadata is all that is read of a candidate. */
  datatype Candidate = Candidate(groundingMetadata: Option<GroundingMetadata>)

  /** What `generateContent` resolves to, as far as the sanitiser reads it. */
  datatype GenerateResponse = GenerateResponse(text: Option<string>, candidates: Option<seq<Candidate>>)

  /** `JSON.parse` of an array of news items; `None` when it throws. */
  type Parser = string -> Option<seq<NewsItem>>

  /** The one error the operation reports, whatever went wrong in the client call. */
  const FailureMessage := "Failed to generate news bulletin."

  const JsonFence := "```json"
  const Fence := "```"

  // ---------------------------------------------------------------------------
  // The reply text

  /** `response.text || "[]"`: a missing or empty text stands for an empty array. */
  function ReplyText(text: Option<string>): (r: string)
    ensures r != ""
    ensures text.None? || text == Some("") ==> r == "[]"
    ensures text.Some? && text.value != "" ==> r == text.value
  {
    if text.None? || text.value == "" then "[]" else text.value
  }

  /** Remove every "```json", then every "```", then trim: what is left holds no
      code fence and neither starts nor ends with whitespace. */
  function CleanReply(text: string): (r: string)
    ensures !Occurs(r, Fence)
    ensures r == [] || (!IsWhitespace(r[0]) && !IsWhitespace(r[|r| - 1]))
  {
    var s := RemoveAll(RemoveAll(text, JsonFence), Fence);
    RemoveFenceLeavesNone(RemoveAll(text, JsonFence));
    TrimKeepsAbsence(s, Fence);
    Trim(s)
  }

  /** `text.substring(text.indexOf('['), text.lastIndexOf(']') + 1)` when both
      brackets occur, `None` (no parse attempted) otherwise. */
  function JsonCandidate(text: string): (r: Option<string>)
    ensures r.None? <==> ('[' !in text || ']' !in text)
    ensures r.Some? ==>
      var start, end := IndexOf(text, '['), LastIndexOf(text, ']');
      && '[' !in text[..start] && ']' !in text[end + 1..]
      && (start <= end ==> r.value == text[start..end + 1] && r.value[0] == '[' && r.value[|r.value| - 1] == ']')
      && (end < start ==> r.value == text[end + 1..start])
  {
    var start := IndexOf(text, '[');
    var end := LastIndexOf(text, ']');
    if start != -1 && end != -1 then Some(Substring(text, start, end + 1)) else None
  }

  /** The items the reply yields: the parsed candidate, or nothing when there is
      no candidate or it does not parse. */
  function ReplyItems(text: Option<string>, parse: Parser): (r: seq<NewsItem>)
    ensures var candidate := JsonCandidate(CleanReply(ReplyText(text)));
      r != [] ==> candidate.Some? && parse(candidate.value) == Some(r) && !Occurs(candidate.value, Fence)
    ensures var candidate := JsonCandidate(CleanReply(ReplyText(text)));
      candidate.Some? && parse(candidate.value).Some? ==> r == parse(candidate.value).value
  {
    var clean := CleanReply(ReplyText(text));
    match JsonCandidate(clean)
    case None => []
    case Some(json) =>
      CandidateIsInfix(clean);
      (match parse(json) case Some(items) => items case None => [])
  }

  /** The candidate is an infix of the text, so it holds no fence when the text holds none. */
  lemma CandidateIsInfix(text: string)
    requires !Occurs(text, Fence)
    ensures JsonCandidate(text).Some? ==> !Occurs(JsonCandidate(text).value, Fence)
  {
    if JsonCandidate(text).Some? {
      var start, end := IndexOf(text, '['), LastIndexOf(text, ']');
      if start <= end {
        NoOccurrenceInInfix(text, Fence, start, end + 1);
      } else {
        NoOccurrenceInInfix(text, Fence, end + 1, start);
      }
    }
  }

  /** Deleting "```" leaves no "```": a run of backticks keeps only its length
      modulo three, and runs are never joined. */
  lemma {:induction false} RemoveFenceLeavesNone(s: string)
    ensures var r := RemoveAll(s, Fence);
      && !Occurs(r, Fence)
      && (|s| > 0 && s[0] != '`' ==> |r| > 0 && r[0] == s[0])
      && (|s| >= 2 && s[0] == '`' && s[1] != '`' ==> |r| >= 2 && r[0] == '`' && r[1] == s[1])
    decreases |s|
  {
    var r := RemoveAll(s, Fence);
    if |s| < 3 {
      assert r == s;
    } else if s[..3] == Fence {
      RemoveFenceLeavesNone(s[3..]);
    } else {
      var t := RemoveAll(s[1..], Fence);
      RemoveFenceLeavesNone(s[1..]);
      assert r == [s[0]] + t;
      assert s[..3] == [s[0], s[1], s[2]];
      assert s[1] == '`' ==> s[1..][1] == s[2];
      ConsKeepsNoFence(s[0], t);
    }
  }

  /** One character in front of a fence-free text makes a fence only when it is a
      backtick followed by two more. */
  lemma ConsKeepsNoFence(x: char, t: string)
    requires !Occurs(t, Fence)
    requires x == '`' && |t| >= 2 ==> t[0] != '`' || t[1] != '`'
    ensures !Occurs([x] + t, Fence)
  {
    var r := [x] + t;
    forall i | 0 <= i <= |r| ensures !MatchesAt(r, Fence, i) {
      if i > 0 {
        if i + 3 <= |r| {
          assert r[i..i + 3] == t[i - 1..i + 2];
        }
        assert !MatchesAt(t, Fence, i - 1);
      } else if 3 <= |r| {
        assert r[..3] == [x, t[0], t[1]];
      }
    }
  }

  /** "[]" has no fence and no surrounding whitespace. */
  lemma EmptyArrayIsClean()
    ensures CleanReply("[]") == "[]"
  {
    var s := "[]";
    assert |s| < |JsonFence| && |s| < |Fence|;
    assert RemoveAll(s, JsonFence) == s;
    assert RemoveAll(s, Fence) == s;
    assert !IsWhitespace(s[0]) && !IsWhitespace(s[1]);
    assert SkipWhitespace(s, 0) == 0;
    assert SkipWhitespaceBack(s, 0, 2) == 2;
  }

  /** Trimming cannot create an occurrence. */
  lemma TrimKeepsAbsence(s: string, p: string)
    requires !Occurs(s, p)
    ensures !Occurs(Trim(s), p)
  {
    var t := Trim(s);
    var a := SkipWhitespace(s, 0);
    NoOccurrenceInInfix(s, p, a, a + |t|);
  }

  /** A missing or empty reply text is the empty array: no items and no failure. */
  lemma MissingTextGivesNoItems(text: Option<string>, parse: Parser)
    requires text.None? || text == Some("")
    requires parse("[]") == Some([])
    ensures ReplyItems(text, parse) == []
  {
    EmptyArrayIsClean();
    assert ReplyText(text) == "[]";
    assert JsonCandidate("[]") == Some("[]");
  }

  /** Without both brackets the parser is never consulted: any two parsers give the
      same, empty, item list. */
  lemma NoBracketsNoParse(text: Option<string>, parse: Parser, other: Parser)
    requires var clean := CleanReply(ReplyText(text)); '[' !in clean || ']' !in clean
    ensures ReplyItems(text, parse) == ReplyItems(text, other) == []
  {
  }

  /** A text without "```" has no "```json" either, even with up to four more
      characters after it. */
  lemma NoJsonFenceAfter(body: string, tail: string)
    requires !Occurs(body, Fence) && |tail| <= 4
    ensures !Occurs(body + tail, JsonFence)
  {
    var s := body + tail;
    forall i | 0 <= i <= |s| ensures !MatchesAt(s, JsonFence, i) {
      if i + |JsonFence| <= |s| {
        assert !MatchesAt(body, Fence, i);
        assert s[i..i + 3] == body[i..i + 3];
        assert s[i..i + |JsonFence|][..3] == s[i..i + 3];
      }
    }
  }

  /** A closing "```" after a fence-free body is removed and the body kept: a run
      of one or two backticks that ends the body survives, as removal keeps the
      length of each run modulo three. */
  lemma {:induction false} RemoveClosingFence(body: string)
    requires !Occurs(body, Fence)
    ensures RemoveAll(body + Fence, Fence) == body
    decreases |body|
  {
    var s := body + Fence;
    if |body| == 0 {
      assert s == Fence && Fence[..3] == Fence && Fence[3..] == [];
    } else if body[0] == '`' && |body| <= 2 && body[|body| - 1] == '`' {
      assert s[..3] == Fence;
      assert s[3..] == body;
    } else {
      if |body| >= 3 {
        assert !MatchesAt(body, Fence, 0);
        assert s[..3] == body[..3];
      } else {
        assert s[..3][0] == body[0] && s[..3][|body| - 1] == body[|body| - 1];
      }
      NoOccurrenceInInfix(body, Fence, 1, |body|);
      assert body[1..|body|] == body[1..];
      assert s[1..] == body[1..] + Fence;
      RemoveClosingFence(body[1..]);
      assert body == [body[0]] + body[1..];
    }
  }

  /** A body without "```" comes out of fence removal unchanged, with or without a
      "```json" ... "```" wrapping. */
  lemma FencesAroundBodyRemoved(body: string, fenced: bool)
    requires !Occurs(body, Fence)
    ensures RemoveAll(RemoveAll(if fenced then JsonFence + body + Fence else body, JsonFence), Fence) == body
  {
    if fenced {
      var text := JsonFence + body + Fence;
      assert text[..|JsonFence|] == JsonFence;
      assert text[|JsonFence|..] == body + Fence;
      NoJsonFenceAfter(body, Fence);
      assert RemoveAll(text, JsonFence) == body + Fence;
      RemoveClosingFence(body);
    } else {
      NoJsonFenceAfter(body, []);
      assert body + [] == body;
    }
  }

  /** Trimming cannot reach past a non-whitespace character: the trimmed text,
      which starts at `a`, still holds positions `open` and `close` of the untrimmed one. */
  lemma TrimKeeps(body: string, open: nat, close: nat) returns (a: nat)
    requires open <= close < |body| && !IsWhitespace(body[open]) && !IsWhitespace(body[close])
    ensures a <= open && close < a + |Trim(body)| <= |body|
    ensures Trim(body) == body[a..a + |Trim(body)|]
  {
    a := SkipWhitespace(body, 0);
  }

  /** When `json` sits in `t` at `k` with no `[` before it and no `]` after it,
      it is the parse candidate. */
  lemma CandidateIsArray(t: string, json: string, k: nat)
    requires |json| >= 2 && json[0] == '[' && json[|json| - 1] == ']'
    requires k + |json| <= |t| && t[k..k + |json|] == json
    requires '[' !in t[..k] && ']' !in t[k + |json|..]
    ensures JsonCandidate(t) == Some(json)
  {
    var close := k + |json| - 1;
    assert t[k] == '[' && t[close] == ']';
    IndexOfFirst(t, '[', k);
    LastIndexOfLast(t, ']', close);
  }

  /** An infix of `body` that contains positions `open` to `close` keeps the
      brackets there and the bracket-free text around them. */
  lemma InfixAroundCandidate(body: string, t: string, a: nat, open: nat, close: nat)
    requires open < close < |body| && body[open] == '[' && body[close] == ']'
    requires '[' !in body[..open] && ']' !in body[close + 1..]
    requires a <= open && close < a + |t| <= |body| && t == body[a..a + |t|]
    ensures var k, json := open - a, body[open..close + 1];
      && k + |json| <= |t| && t[k..k + |json|] == json
      && '[' !in t[..k] && ']' !in t[k + |json|..]
  {
    var k := open - a;
    forall i | 0 <= i < |t| ensures t[i] == body[a + i] {
      assert body[a..a + |t|][i] == body[a + i];
    }
    assert t[k..k + close + 1 - open] == body[open..close + 1];
    assert t[..k] == body[a..open];
    assert body[a..open] == body[..open][a..];
    assert t[close + 1 - a..] == body[close + 1..a + |t|];
    assert body[close + 1..a + |t|] == body[close + 1..][..a + |t| - close - 1];
  }

  /** In a text whose first `[` is at `open` and last `]` at `close`, any infix
      that keeps both positions (a trimmed copy, say) has `text[open..close + 1]`
      as its candidate. */
  lemma CandidateInInfix(body: string, t: string, a: nat, open: nat, close: nat)
    requires open < close < |body| && body[open] == '[' && body[close] == ']'
    requires '[' !in body[..open] && ']' !in body[close + 1..]
    requires a <= open && close < a + |t| <= |body| && t == body[a..a + |t|]
    ensures JsonCandidate(t) == Some(body[open..close + 1])
  {
    var json := body[open..close + 1];
    InfixAroundCandidate(body, t, a, open, close);
    assert json[0] == '[' && json[|json| - 1] == ']';
    CandidateIsArray(t, json, open - a);
  }

  /** Trimming keeps the candidate of a text whose first `[` is at `open` and last
      `]` at `close`. */
  lemma CandidateInTrimmed(body: string, open: nat, close: nat)
    requires open < close < |body| && body[open] == '[' && body[close] == ']'
    requires '[' !in body[..open] && ']' !in body[close + 1..]
    ensures JsonCandidate(Trim(body)) == Some(body[open..close + 1])
  {
    var a := TrimKeeps(body, open, close);
    CandidateInInfix(body, Trim(body), a, open, close);
  }

  /** Trimming keeps the array and the prose around it intact enough that the
      first `[` and the last `]` are the array's own. */
  lemma CandidateOfTrimmedBody(pre: string, json: string, post: string)
    requires '[' !in pre && ']' !in post
    requires |json| >= 2 && json[0] == '[' && json[|json| - 1] == ']'
    ensures JsonCandidate(Trim(pre + json + post)) == Some(json)
  {
    var body := pre + json + post;
    var open, close := |pre|, |pre| + |json| - 1;
    assert body[..open] == pre && body[open..close + 1] == json && body[close + 1..] == post;
    CandidateInTrimmed(body, open, close);
  }

  /** Prose around the array, code fences around the whole reply and surrounding
      whitespace are all ignored: exactly the array's parse is returned, and an
      array that does not parse gives no items rather than a failure. */
  lemma ProseAroundArrayIgnored(pre: string, json: string, post: string, fenced: bool, parse: Parser)
    requires !Occurs(pre + json + post, Fence)
    requires '[' !in pre && ']' !in post
    requires |json| >= 2 && json[0] == '[' && json[|json| - 1] == ']'
    ensures var body := pre + json + post;
      ReplyItems(Some(if fenced then JsonFence + body + Fence else body), parse)
      == (match parse(json) case Some(items) => items case None => [])
  {
    var body := pre + json + post;
    var text := if fenced then JsonFence + body + Fence else body;
    assert ReplyText(Some(text)) == text;
    FencesAroundBodyRemoved(body, fenced);
    CandidateOfTrimmedBody(pre, json, post);
  }

  // ---------------------------------------------------------------------------
  // Sources

  /** `response.candidates?.[0]?.groundingMetadata?.groundingChunks || []` */
  function RawChunks(response: GenerateResponse): (r: seq<GroundingChunk>)
    ensures r != [] ==>
      && response.candidates.Some? && |response.candidates.value| > 0
      && response.candidates.value[0].groundingMetadata == Some(GroundingMetadata(Some(r)))
    ensures response.candidates.Some? && |response.candidates.value| > 0
      && response.candidates.value[0].groundingMetadata.Some?
      && response.candidates.value[0].groundingMetadata.value.groundingChunks.Some?
      ==> r == response.candidates.value[0].groundingMetadata.value.groundingChunks.value
  {
    if response.candidates.None? || |response.candidates.value| == 0 then []
    else match response.candidates.value[0].groundingMetadata
      case None => []
      case Some(metadata) => (match metadata.groundingChunks case None => [] case Some(chunks) => chunks)
  }

  /** A JavaScript string value that is truthy: present and non-empty. */
  predicate Truthy(s: Option<string>) {
    s.Some? && s.value != ""
  }

  /** `chunk.web?.uri && chunk.web?.title` */
  predicate IsCited(chunk: GroundingChunk) {
    chunk.web.Some? && Truthy(chunk.web.value.uri) && Truthy(chunk.web.value.title)
  }

  function ToSource(chunk: GroundingChunk): Source
    requires IsCited(chunk)
  {
    Source(chunk.web.value.uri.value, chunk.web.value.title.value)
  }

  /** The `filter` and `map` over the chunks: one source per cited chunk, in order. */
  function FilterSources(chunks: seq<GroundingChunk>): (r: seq<Source>)
    ensures |r| <= |chunks|
    ensures forall i :: 0 <= i < |r| ==> r[i].url != "" && r[i].title != ""
    ensures forall c :: c in chunks && IsCited(c) ==> ToSource(c) in r
    ensures forall x :: x in r ==> exists c :: c in chunks && IsCited(c) && ToSource(c) == x
  {
    if chunks == [] then []
    else
      var rest := FilterSources(chunks[1..]);
      assert forall c :: c in chunks[1..] ==> c in chunks;
      assert forall c :: c in chunks ==> c == chunks[0] || c in chunks[1..];
      if IsCited(chunks[0]) then [ToSource(chunks[0])] + rest else rest
  }

  /** The filter keeps the chunks' order: it distributes over concatenation. */
  lemma {:induction false} FilterSourcesAppend(a: seq<GroundingChunk>, b: seq<GroundingChunk>)
    ensures FilterSources(a + b) == FilterSources(a) + FilterSources(b)
    decreases |a|
  {
    if a == [] {
      assert a + b == b;
    } else {
      assert (a + b)[1..] == a[1..] + b;
      FilterSourcesAppend(a[1..], b);
    }
  }

  /** The urls of a source list, in order. */
  function Urls(s: seq<Source>): seq<string> {
    seq(|s|, i requires 0 <= i < |s| => s[i].url)
  }

  function UrlSet(s: seq<Source>): set<string> {
    set u | u in Urls(s)
  }

  /** The position of the first source with url `u`, or `|s|` when there is none. */
  function FirstIndex(s: seq<Source>, u: string): (k: nat)
    ensures k <= |s|
    ensures k < |s| ==> s[k].url == u
    ensures k == |s| <==> u !in UrlSet(s)
    ensures forall i :: 0 <= i < k ==> s[i].url != u
  {
    if s == [] then 0
    else if s[0].url == u then
      assert Urls(s)[0] == u;
      0
    else
      var k := FirstIndex(s[1..], u);
      assert Urls(s) == [s[0].url] + Urls(s[1..]);
      assert u in UrlSet(s) <==> u in UrlSet(s[1..]);
      k + 1
  }

  /** The title of the last source with url `u` (empty when there is none). */
  function LastTitle(s: seq<Source>, u: string): string {
    if s == [] then ""
    else if s[|s| - 1].url == u then s[|s| - 1].title
    else LastTitle(s[..|s| - 1], u)
  }

  predicate DistinctUrls(r: seq<Source>) {
    forall i, j :: 0 <= i < j < |r| ==> r[i].url != r[j].url
  }

  /** The urls come in the order in which they first appear in `s`. */
  predicate InFirstOccurrenceOrder(us: seq<string>, s: seq<Source>) {
    forall i, j :: 0 <= i < j < |us| ==> FirstIndex(s, us[i]) < FirstIndex(s, us[j])
  }

  /** `r` is what `Array.from(new Map(s.map(x => [x.url, x])).values())` yields:
      every url of `s` exactly once, at the place where it first appeared, carrying
      the title of the LAST source with that url (a later `set` overwrites the value
      but keeps the key's position). */
  predicate IsDedupOf(r: seq<Source>, s: seq<Source>) {
    && UrlSet(r) == UrlSet(s)
    && DistinctUrls(r)
    && InFirstOccurrenceOrder(Urls(r), s)
    && forall i :: 0 <= i < |r| ==> r[i].title == LastTitle(s, r[i].url)
  }

  /** The last title and first position of a url after one more source is read. */
  lemma ExtendByOne(s: seq<Source>, x: Source, u: string)
    ensures LastTitle(s + [x], u) == if x.url == u then x.title else LastTitle(s, u)
    ensures u in UrlSet(s) ==> FirstIndex(s + [x], u) == FirstIndex(s, u) < |s|
    ensures u !in UrlSet(s) && x.url == u ==> FirstIndex(s + [x], u) == |s|
    ensures UrlSet(s + [x]) == UrlSet(s) + {x.url}
  {
    var s' := s + [x];
    assert s'[..|s'| - 1] == s;
    assert Urls(s') == Urls(s) + [x.url];
    var k := FirstIndex(s, u);
    if u in UrlSet(s) {
      assert s'[k] == s[k];
    }
  }

  /** The loop state of the `Map` after reading `s`: `keys` holds each url of `s` in
      first-occurrence order, and `byUrl` maps each url to the last source read with it. */
  ghost predicate DedupState(keys: seq<string>, byUrl: map<string, Source>, s: seq<Source>) {
    && (forall u :: u in keys <==> u in byUrl)
    && byUrl.Keys == UrlSet(s)
    && InFirstOccurrenceOrder(keys, s)
    && forall u :: u in byUrl ==> byUrl[u] == Source(u, LastTitle(s, u))
  }

  /** `map.set(x.url, x)`: a new key is appended, an existing key keeps its place
      and takes the new value. */
  lemma DedupStep(keys: seq<string>, byUrl: map<string, Source>, s: seq<Source>, x: Source)
    requires DedupState(keys, byUrl, s)
    ensures DedupState(if x.url in byUrl then keys else keys + [x.url], byUrl[x.url := x], s + [x])
  {
    var keys' := if x.url in byUrl then keys else keys + [x.url];
    var byUrl' := byUrl[x.url := x];
    var s' := s + [x];
    ExtendByOne(s, x, x.url);
    assert byUrl'.Keys == UrlSet(s');
    ValuesStep(byUrl, s, x);
    OrderStep(keys, s, x);
  }

  /** After `map.set(x.url, x)` every url still maps to its last source read. */
  lemma ValuesStep(byUrl: map<string, Source>, s: seq<Source>, x: Source)
    requires forall u :: u in byUrl ==> byUrl[u] == Source(u, LastTitle(s, u))
    ensures forall u :: u in byUrl[x.url := x] ==> byUrl[x.url := x][u] == Source(u, LastTitle(s + [x], u))
  {
    forall u | u in byUrl[x.url := x] ensures byUrl[x.url := x][u] == Source(u, LastTitle(s + [x], u)) {
      ExtendByOne(s, x, u);
    }
  }

  /** Appending a url that was not yet read keeps the key list in first-occurrence
      order; reading a known url leaves every first position where it was. */
  lemma OrderStep(keys: seq<string>, s: seq<Source>, x: Source)
    requires forall u :: u in keys <==> u in UrlSet(s)
    requires InFirstOccurrenceOrder(keys, s)
    ensures InFirstOccurrenceOrder(if x.url in UrlSet(s) then keys else keys + [x.url], s + [x])
  {
    var keys' := if x.url in UrlSet(s) then keys else keys + [x.url];
    var s' := s + [x];
    forall i, j | 0 <= i < j < |keys'|
      ensures FirstIndex(s', keys'[i]) < FirstIndex(s', keys'[j])
    {
      assert keys'[i] in keys;
      ExtendByOne(s, x, keys'[i]);
      ExtendByOne(s, x, keys'[j]);
      if j < |keys| {
        assert keys'[j] in keys;
      }
    }
  }

  /** Reading the values back in key order gives the deduplicated list. */
  lemma DedupValues(keys: seq<string>, byUrl: map<string, Source>, s: seq<Source>, unique: seq<Source>)
    requires DedupState(keys, byUrl, s)
    requires |unique| == |keys| && forall j :: 0 <= j < |keys| ==> keys[j] in byUrl && unique[j] == byUrl[keys[j]]
    ensures IsDedupOf(unique, s)
  {
    assert Urls(unique) == keys;
    forall i, j | 0 <= i < j < |unique| ensures unique[i].url != unique[j].url {
      assert FirstIndex(s, keys[i]) < FirstIndex(s, keys[j]);
    }
  }

  /** The `new Map(...)` of the source: keys in insertion order, each mapped to the
      last source stored under it, read back in key order. */
  method DedupSources(sources: seq<Source>) returns (unique: seq<Source>)
    ensures IsDedupOf(unique, sources)
  {
    var keys: seq<string> := [];
    var byUrl: map<string, Source> := map[];
    for k := 0 to |sources|
      invariant DedupState(keys, byUrl, sources[..k])
    {
      var s := sources[k];
      assert sources[..k + 1] == sources[..k] + [s];
      DedupStep(keys, byUrl, sources[..k], s);
      if s.url !in byUrl {
        keys := keys + [s.url];
      }
      byUrl := byUrl[s.url := s];
    }
    assert sources[..|sources|] == sources;
    unique := [];
    for i := 0 to |keys|
      invariant |unique| == i
      invariant forall j :: 0 <= j < i ==> keys[j] in byUrl && unique[j] == byUrl[keys[j]]
    {
      assert keys[i] in keys;
      unique := unique + [byUrl[keys[i]]];
    }
    DedupValues(keys, byUrl, sources, unique);
  }

  /** Two url lists in first-occurrence order with the same urls are equal. */
  lemma {:induction false} OrderedUrlsUnique(a: seq<string>, b: seq<string>, s: seq<Source>)
    requires InFirstOccurrenceOrder(a, s) && InFirstOccurrenceOrder(b, s)
    requires forall u :: u in a <==> u in b
    ensures a == b
    decreases |a|
  {
    assert |b| > 0 ==> b[0] in b;
    if a != [] {
      assert a[0] in a && b[0] in b;
      var j :| 0 <= j < |b| && b[j] == a[0];
      var i :| 0 <= i < |a| && a[i] == b[0];
      assert a[0] == b[0];
      forall u ensures u in a[1..] <==> u in b[1..] {
        if u in a[1..] {
          var m :| 0 <= m < |a[1..]| && a[1..][m] == u;
          assert FirstIndex(s, a[0]) < FirstIndex(s, a[m + 1]);
          assert u in b;
        }
        if u in b[1..] {
          var m :| 0 <= m < |b[1..]| && b[1..][m] == u;
          assert FirstIndex(s, b[0]) < FirstIndex(s, b[m + 1]);
          assert u in a;
        }
      }
      OrderedUrlsUnique(a[1..], b[1..], s);
    }
  }

  /** The deduplicated list is determined by the input: there is only one. */
  lemma DedupIsUnique(r1: seq<Source>, r2: seq<Source>, s: seq<Source>)
    requires IsDedupOf(r1, s) && IsDedupOf(r2, s)
    ensures r1 == r2
  {
    assert forall u :: u in Urls(r1) <==> u in UrlSet(r1);
    assert forall u :: u in Urls(r2) <==> u in UrlSet(r2);
    OrderedUrlsUnique(Urls(r1), Urls(r2), s);
    assert |r1| == |r2|;
    forall i | 0 <= i < |r1| ensures r1[i] == r2[i] {
      assert Urls(r1)[i] == Urls(r2)[i];
    }
  }

  /** For `a:X, a:Y, b:Z` the result is `a:Y, b:Z`: first position, last title. */
  lemma DedupExample(r: seq<Source>)
    requires IsDedupOf(r, [Source("a", "X"), Source("a", "Y"), Source("b", "Z")])
    ensures r == [Source("a", "Y"), Source("b", "Z")]
  {
    ExampleIsDedup();
    DedupIsUnique(r, [Source("a", "Y"), Source("b", "Z")], [Source("a", "X"), Source("a", "Y"), Source("b", "Z")]);
  }

  lemma ExampleIsDedup()
    ensures IsDedupOf([Source("a", "Y"), Source("b", "Z")], [Source("a", "X"), Source("a", "Y"), Source("b", "Z")])
  {
    var s := [Source("a", "X"), Source("a", "Y"), Source("b", "Z")];
    var expected := [Source("a", "Y"), Source("b", "Z")];
    assert Urls(s) == ["a", "a", "b"];
    assert Urls(expected) == ["a", "b"];
    assert UrlSet(expected) == UrlSet(s) == {"a", "b"};
    assert FirstIndex(s, "a") == 0 && FirstIndex(s, "b") == 2;
    assert LastTitle(s, "a") == "Y" && LastTitle(s, "b") == "Z";
  }

  // ---------------------------------------------------------------------------
  // The operation

  /** The bracket search and `JSON.parse` inside the `try`: a reply without both
      brackets, or whose candidate does not parse, yields no items. */
  method ParseCandidate(text: string, parse: Parser) returns (items: seq<NewsItem>)
    ensures JsonCandidate(text).None? ==> items == []
    ensures JsonCandidate(text).Some? ==>
      items == match parse(JsonCandidate(text).value) case Some(parsed) => parsed case None => []
  {
    var startIndex := IndexOf(text, '[');
    var endIndex := LastIndexOf(text, ']');
    items := [];
    if startIndex != -1 && endIndex != -1 {
      var jsonString := Substring(text, startIndex, endIndex + 1);
      match parse(jsonString) {
        case Some(parsed) => items := parsed;
        case None => items := [];
      }
    }
  }

  /** `fetchDailyNews`, from the client call's outcome on. A failed call, whatever
      its error, becomes the one failure message; a reply that does not parse is a
      success with no items. */
  method FetchDailyNews(reply: Result<GenerateResponse, string>, parse: Parser)
    returns (r: Result<NewsResponse, string>)
    ensures reply.Failure? <==> r.Failure?
    ensures r.Failure? ==> r.error == FailureMessage
    ensures reply.Success? ==>
      && r.value.items == ReplyItems(reply.value.text, parse)
      && IsDedupOf(r.value.sources, FilterSources(RawChunks(reply.value)))
  {
    if reply.Failure? {
      return Failure(FailureMessage);
    }
    var response := reply.value;
    var text := ReplyText(response.text);
    text := CleanReply(text);
    var items := ParseCandidate(text, parse);
    var sources := FilterSources(RawChunks(response));
    var uniqueSources := DedupSources(sources);
    r := Success(NewsResponse(items, uniqueSources));
  }
}
