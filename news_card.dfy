/** The text work of a news card: the placeholder image for a card, the title
    without its Markdown heading marker, and the content as blocks of plain and
    bold segments (the JSX elements become the `Block` and `Segment` datatypes). */
module NewsCard {
  import opened Wrappers
  import opened JsStrings
  import Constants

  // ---------------------------------------------------------------------------
  // The image

  /** JavaScript's `%` on integers: the remainder takes the sign of the dividend. */
  function TruncRem(a: int, b: nat): (r: int)
    requires b > 0
    ensures -(b as int) < r < b
    ensures a >= 0 ==> r >= 0
    ensures a <= 0 ==> r <= 0
    ensures exists q: int :: a == b * q + r
  {
    if a >= 0 then
      assert a == b * (a / b) + a % b;
      a % b
    else
      assert a == b * (-((-a) / b)) + -((-a) % b);
      -((-a) % b)
  }

  /** `PLACEHOLDER_IMAGES[index % PLACEHOLDER_IMAGES.length]`; a negative position
      reads `undefined`, and `-0` reads the first image. */
  function ImageFor(index: int): (r: Option<string>)
    ensures r.Some? <==> index >= 0 || index % |Constants.PlaceholderImages| == 0
    ensures r.Some? ==> r.value in Constants.PlaceholderImages
    ensures index >= 0 ==> r == Some(Constants.PlaceholderImages[index % |Constants.PlaceholderImages|])
    ensures index < 0 && r.Some? ==> r.value == Constants.PlaceholderImages[0]
  {
    var n := |Constants.PlaceholderImages|;
    var k := TruncRem(index, n);
    if 0 <= k < n then Some(Constants.PlaceholderImages[k]) else None
  }

  /** Cards six apart share an image; neighbouring cards never do. */
  lemma ImageCycle(index: nat)
    ensures ImageFor(index + 6) == ImageFor(index)
    ensures ImageFor(index) != ImageFor(index + 1)
  {
    var images := Constants.PlaceholderImages;
    assert (index + 6) % 6 == index % 6;
    var k, k' := index % 6, (index + 1) % 6;
    assert k' == if k == 5 then 0 else k + 1;
    assert images[k][27] != images[k'][27];
  }

  // ---------------------------------------------------------------------------
  // The title

  /** The number of `#` characters that open `s`. */
  function LeadingHashes(s: string): (n: nat)
    ensures n <= |s|
    ensures forall i :: 0 <= i < n ==> s[i] == '#'
    ensures n < |s| ==> s[n] != '#'
  {
    if |s| > 0 && s[0] == '#' then 1 + LeadingHashes(s[1..]) else 0
  }

  /** `/^#+\s/` matches the first `k + 1` characters of `s`. */
  predicate HeadingMatch(s: string, k: nat) {
    1 <= k < |s| && (forall i :: 0 <= i < k ==> s[i] == '#') && IsWhitespace(s[k])
  }

  /** `title.replace(/^#+\s/, '')`: one run of `#` and the single whitespace
      character after it go, only at the very start; otherwise nothing changes. */
  function StripHeading(title: string): (r: string)
    ensures forall k :: HeadingMatch(title, k) ==> r == title[k + 1..]
    ensures (forall k :: !HeadingMatch(title, k)) ==> r == title
  {
    var n := LeadingHashes(title);
    if 1 <= n < |title| && IsWhitespace(title[n]) then
      assert HeadingMatch(title, n);
      title[n + 1..]
    else
      title
  }

  /** Only one marker goes: "## # x" keeps "# x". */
  lemma StripHeadingOnce()
    ensures StripHeading("## # x") == "# x"
    ensures StripHeading("#x") == "#x"
  {
    assert HeadingMatch("## # x", 2);
    assert !HeadingMatch("#x", 1);
  }

  // ---------------------------------------------------------------------------
  // Bold segments

  /** `**` at position `m`. */
  predicate StarsAt(s: string, m: int) {
    0 <= m && m + 1 < |s| && s[m] == '*' && s[m + 1] == '*'
  }

  /** What `\*\*.*?\*\*` matches: `**`, then the shortest run of characters other
      than line terminators, then `**`. */
  predicate IsBoldToken(t: string) {
    && |t| >= 4 && StarsAt(t, 0) && StarsAt(t, |t| - 2)
    && forall m :: 2 <= m < |t| - 2 ==> !IsLineTerminator(t[m]) && !StarsAt(t, m)
  }

  /** The lazy `.*?\*\*` from position `k`: the first `**` at or after `k`, unless a
      line terminator comes first. */
  function FindClose(s: string, k: nat): (r: Option<nat>)
    ensures r.Some? ==> k <= r.value && StarsAt(s, r.value)
    ensures r.Some? ==> forall m :: k <= m < r.value ==> !IsLineTerminator(s[m]) && !StarsAt(s, m)
    decreases |s| - k
  {
    if k + 2 > |s| then None
    else if StarsAt(s, k) then Some(k)
    else if IsLineTerminator(s[k]) then None
    else FindClose(s, k + 1)
  }

  /** The end of the match that starts at `q`, if one does. */
  function MatchEnd(s: string, q: nat): (r: Option<nat>)
    ensures r.Some? ==> q + 4 <= r.value <= |s|
  {
    if StarsAt(s, q) then
      match FindClose(s, q + 2)
      case Some(j) => Some(j + 2)
      case None => None
    else None
  }

  /** A close with no line terminator and no `**` before it is the one found. */
  lemma {:induction false} FindCloseFinds(s: string, k: nat, j: nat)
    requires k <= j && StarsAt(s, j)
    requires forall m :: k <= m < j ==> !IsLineTerminator(s[m]) && !StarsAt(s, m)
    ensures FindClose(s, k) == Some(j)
    decreases j - k
  {
    if k < j {
      FindCloseFinds(s, k + 1, j);
    }
  }

  /** The match at `q` ends at `e` exactly when `s[q..e]` is a bold token. */
  lemma MatchEndIff(s: string, q: nat, e: nat)
    requires q <= e <= |s|
    ensures MatchEnd(s, q) == Some(e) <==> IsBoldToken(s[q..e])
  {
    var t := s[q..e];
    if MatchEnd(s, q) == Some(e) {
      var j := e - 2;
      assert StarsAt(t, 0) && StarsAt(t, |t| - 2);
      forall m | 2 <= m < |t| - 2 ensures !IsLineTerminator(t[m]) && !StarsAt(t, m) {
        assert t[m] == s[q + m] && t[m + 1] == s[q + m + 1];
      }
    }
    if IsBoldToken(t) {
      assert StarsAt(s, q) by { assert t[0] == s[q] && t[1] == s[q + 1]; }
      assert StarsAt(s, e - 2) by { assert t[|t| - 2] == s[e - 2] && t[|t| - 1] == s[e - 1]; }
      forall m | q + 2 <= m < e - 2 ensures !IsLineTerminator(s[m]) && !StarsAt(s, m) {
        assert t[m - q] == s[m] && t[m - q + 1] == s[m + 1];
      }
      FindCloseFinds(s, q + 2, e - 2);
    }
  }

  /** No match starts anywhere in `s[p..q]`. */
  predicate NoMatchBetween(s: string, p: nat, q: nat) {
    forall i :: p <= i < q ==> MatchEnd(s, i).None?
  }

  /** `text.split(/(\*\*.*?\*\*)/g)` from `p`, the start of the current piece, and
      `q`, the next position tried: each match closes the piece and is kept as a
      part of its own, as the capture group asks. There is one more piece than
      there are matches, so the number of parts is odd. */
  function SplitFrom(s: string, p: nat, q: nat): (r: seq<string>)
    requires p <= q <= |s|
    ensures |r| % 2 == 1
    decreases |s| - q, |s| - p
  {
    if q == |s| then [s[p..]]
    else
      match MatchEnd(s, q)
      case None => SplitFrom(s, p, q + 1)
      case Some(e) => [s[p..q], s[q..e]] + SplitFrom(s, e, e)
  }

  /** `text.split(/(\*\*.*?\*\*)/g)`: an odd number of parts, plain pieces without
      any bold token alternating with bold tokens, which concatenate back to the
      text; each match is the leftmost one after the previous match. */
  function BoldParts(text: string): (parts: seq<string>)
    ensures |parts| % 2 == 1
    ensures Concat(parts) == text
    ensures Alternates(parts)
    ensures LeftmostFrom(text, 0, parts)
  {
    SplitFromConcat(text, 0, 0);
    SplitFromKinds(text, 0, 0);
    SplitFromLeftmost(text, 0, 0);
    SplitFrom(text, 0, 0)
  }

  /** `parts` splits `s` from position `o` by the leftmost-match rule: each plain
      piece runs from `o` to the first position where a match starts (or to the
      end), and the part after it is that match. */
  predicate LeftmostFrom(s: string, o: nat, parts: seq<string>)
    decreases |parts|
  {
    && |parts| >= 1 && o + |parts[0]| <= |s| && parts[0] == s[o..o + |parts[0]|]
    && NoMatchBetween(s, o, o + |parts[0]|)
    && if |parts| == 1 then o + |parts[0]| == |s|
       else
         var q := o + |parts[0]|;
         && MatchEnd(s, q) == Some(q + |parts[1]|)
         && parts[1] == s[q..q + |parts[1]|]
         && LeftmostFrom(s, q + |parts[1]|, parts[2..])
  }

  /** The split from `p`, with no match starting between `p` and `q`, takes the
      leftmost match each time. */
  lemma {:induction false} SplitFromLeftmost(s: string, p: nat, q: nat)
    requires p <= q <= |s| && NoMatchBetween(s, p, q)
    ensures LeftmostFrom(s, p, SplitFrom(s, p, q))
    decreases |s| - q, |s| - p
  {
    if q == |s| {
      assert SplitFrom(s, p, q) == [s[p..]];
    } else if MatchEnd(s, q).None? {
      SplitFromLeftmost(s, p, q + 1);
    } else {
      var e := MatchEnd(s, q).value;
      SplitFromLeftmost(s, e, e);
      LeftmostCons(s, p, q, e, SplitFrom(s, e, e));
    }
  }

  /** A match-free piece and the match after it, in front of parts that follow
      the rule from the match's end, follow the rule. */
  lemma LeftmostCons(s: string, p: nat, q: nat, e: nat, rest: seq<string>)
    requires p <= q <= e <= |s| && NoMatchBetween(s, p, q) && MatchEnd(s, q) == Some(e)
    requires LeftmostFrom(s, e, rest)
    ensures LeftmostFrom(s, p, [s[p..q], s[q..e]] + rest)
  {
    var parts := [s[p..q], s[q..e]] + rest;
    assert parts[2..] == rest;
  }

  function Concat(parts: seq<string>): string {
    if parts == [] then [] else parts[0] + Concat(parts[1..])
  }

  /** A piece with no bold token anywhere in it. */
  predicate IsPlainPiece(t: string) {
    forall a, b :: 0 <= a <= b <= |t| ==> !IsBoldToken(t[a..b])
  }

  /** Where no match starts, no bold token lies. */
  lemma NoMatchPlain(s: string, p: nat, q: nat)
    requires p <= q <= |s| && NoMatchBetween(s, p, q)
    ensures IsPlainPiece(s[p..q])
  {
    var t := s[p..q];
    forall a, b | 0 <= a <= b <= |t| ensures !IsBoldToken(t[a..b]) {
      assert t[a..b] == s[p + a..p + b] by {
        forall i | 0 <= i < b - a ensures t[a..b][i] == s[p + a + i] { }
      }
      MatchEndIff(s, p + a, p + b);
    }
  }

  lemma ConcatTwoMore(x: string, y: string, rest: seq<string>)
    ensures Concat([x, y] + rest) == x + (y + Concat(rest))
  {
    var parts := [x, y] + rest;
    assert parts[1..] == [y] + rest && parts[1..][1..] == rest;
  }

  /** The split keeps everything: the parts put back together are the piece being split. */
  lemma {:induction false} SplitFromConcat(s: string, p: nat, q: nat)
    requires p <= q <= |s|
    ensures Concat(SplitFrom(s, p, q)) == s[p..]
    decreases |s| - q, |s| - p
  {
    if q == |s| {
      assert Concat([s[p..]]) == s[p..] + Concat([]);
    } else if MatchEnd(s, q).None? {
      SplitFromConcat(s, p, q + 1);
    } else {
      var e := MatchEnd(s, q).value;
      SplitFromConcat(s, e, e);
      ConcatAround(s, p, q, e, SplitFrom(s, e, e));
    }
  }

  /** A piece and a token in front of parts that rebuild `s[e..]` rebuild `s[p..]`. */
  lemma ConcatAround(s: string, p: nat, q: nat, e: nat, rest: seq<string>)
    requires p <= q <= e <= |s| && Concat(rest) == s[e..]
    ensures Concat([s[p..q], s[q..e]] + rest) == s[p..]
  {
    ConcatTwoMore(s[p..q], s[q..e], rest);
    assert s[q..] == s[q..e] + s[e..];
    assert s[p..] == s[p..q] + s[q..];
  }

  /** Plain pieces at even positions, bold tokens at odd ones. */
  predicate Alternates(parts: seq<string>) {
    && (forall i :: 0 <= i < |parts| && i % 2 == 1 ==> IsBoldToken(parts[i]))
    && (forall i :: 0 <= i < |parts| && i % 2 == 0 ==> IsPlainPiece(parts[i]))
  }

  /** The parts alternate between plain pieces and bold tokens. */
  lemma {:induction false} SplitFromKinds(s: string, p: nat, q: nat)
    requires p <= q <= |s| && NoMatchBetween(s, p, q)
    ensures Alternates(SplitFrom(s, p, q))
    decreases |s| - q, |s| - p
  {
    if q == |s| {
      NoMatchPlain(s, p, q);
      assert s[p..] == s[p..q];
      assert SplitFrom(s, p, q) == [s[p..]];
    } else if MatchEnd(s, q).None? {
      assert SplitFrom(s, p, q) == SplitFrom(s, p, q + 1);
      SplitFromKinds(s, p, q + 1);
    } else {
      var e := MatchEnd(s, q).value;
      var rest := SplitFrom(s, e, e);
      var parts := [s[p..q], s[q..e]] + rest;
      assert SplitFrom(s, p, q) == parts;
      SplitFromKinds(s, e, e);
      MatchEndIff(s, q, e);
      NoMatchPlain(s, p, q);
      AlternatesCons(s[p..q], s[q..e], rest);
    }
  }

  lemma AlternatesCons(x: string, y: string, rest: seq<string>)
    requires IsPlainPiece(x) && IsBoldToken(y) && Alternates(rest)
    ensures Alternates([x, y] + rest)
  {
    var parts := [x, y] + rest;
    forall i | 2 <= i < |parts| ensures parts[i] == rest[i - 2] && (i % 2 == (i - 2) % 2) { }
  }

  /** A rendered piece of a line. */
  datatype Segment = Plain(text: string) | Bold(text: string)

  /** A part that starts and ends with `**` is shown bold without them (`slice(2, -2)`,
      empty when the two overlap); any other part is shown as it is. */
  function RenderPart(part: string): (r: Segment)
    ensures !StartsWith(part, "**") || !EndsWith(part, "**") ==> r == Plain(part)
    ensures |part| >= 4 && StartsWith(part, "**") && EndsWith(part, "**") ==> r == Bold(part[2..|part| - 2])
    ensures |part| < 4 && StartsWith(part, "**") && EndsWith(part, "**") ==> r == Bold("")
  {
    if StartsWith(part, "**") && EndsWith(part, "**") then Bold(Slice(part, 2, -2)) else Plain(part)
  }

  /** `parseBold`: one segment per part, so an odd number of them, and the
      bold tokens at odd positions are shown bold. */
  function ParseBold(text: string): (segs: seq<Segment>)
    ensures |segs| == |BoldParts(text)| && |segs| % 2 == 1
    ensures forall i :: 0 <= i < |segs| && i % 2 == 1 ==> segs[i].Bold?
    ensures forall i :: 0 <= i < |segs| ==> segs[i] == RenderPart(BoldParts(text)[i])
  {
    var parts := BoldParts(text);
    forall i | 0 <= i < |parts| && i % 2 == 1 ensures RenderPart(parts[i]).Bold? {
      assert parts[i][..2] == "**";
      assert parts[i][|parts[i]| - 2..] == "**";
    }
    seq(|parts|, i requires 0 <= i < |parts| => RenderPart(parts[i]))
  }

  /** One segment per part, and every bold token is shown bold with its inner text. */
  lemma ParseBoldSegments(text: string)
    ensures var parts, segs := BoldParts(text), ParseBold(text);
      && |segs| == |parts| && |segs| % 2 == 1
      && forall i :: 0 <= i < |segs| && i % 2 == 1 ==>
           |parts[i]| >= 4 && segs[i] == Bold(parts[i][2..|parts[i]| - 2])
  {
    var parts := BoldParts(text);
    forall i | 0 <= i < |parts| && i % 2 == 1 ensures RenderPart(parts[i]) == Bold(parts[i][2..|parts[i]| - 2]) {
      TokenRendersBold(parts[i]);
    }
  }

  /** A bold token is shown bold with the text between its `**` pairs. */
  lemma TokenRendersBold(t: string)
    requires IsBoldToken(t)
    ensures RenderPart(t) == Bold(t[2..|t| - 2])
  {
    assert t[..2] == "**";
    assert t[|t| - 2..] == "**";
  }

  /** A text without `*` is a single plain segment. */
  lemma ParseBoldNoStars(text: string)
    requires '*' !in text
    ensures ParseBold(text) == [Plain(text)]
  {
    assert NoMatchBetween(text, 0, |text|) by {
      forall i | 0 <= i < |text| ensures MatchEnd(text, i).None? {
        assert text[i] in text;
      }
    }
    SplitTail(text, 0, 0);
    if |text| >= 2 {
      assert text[0] in text;
    }
  }

  /** With no match ahead, the split is the rest of the text. */
  lemma {:induction false} SplitTail(s: string, p: nat, q: nat)
    requires p <= q <= |s| && NoMatchBetween(s, q, |s|)
    ensures SplitFrom(s, p, q) == [s[p..]]
    decreases |s| - q
  {
    if q < |s| {
      SplitTail(s, p, q + 1);
    }
  }

  /** "x **b**": the token becomes a bold segment between two plain ones; a bare
      "**" is no token, but it starts and ends with `**` and so shows as an empty
      bold segment. */
  lemma ParseBoldExamples()
    ensures ParseBold("x **b**") == [Plain("x "), Bold("b"), Plain("")]
    ensures ParseBold("**") == [Bold("")]
  {
    ParseBoldExample();
    assert FindClose("**", 2).None? && !StarsAt("**", 1);
    assert SplitFrom("**", 0, 0) == ["**"];
  }

  lemma ParseBoldExample()
    ensures ParseBold("x **b**") == [Plain("x "), Bold("b"), Plain("")]
  {
    BoldPartsExample();
    assert !StartsWith("x ", "**") && !StartsWith("", "**");
    assert StartsWith("**b**", "**") && EndsWith("**b**", "**") && "**b**"[2..3] == "b";
  }

  lemma BoldPartsExample()
    ensures BoldParts("x **b**") == ["x ", "**b**", ""]
  {
    var s := "x **b**";
    assert !StarsAt(s, 0) && !StarsAt(s, 1);
    assert FindClose(s, 5) == Some(5);
    assert FindClose(s, 4) == Some(5);
    assert MatchEnd(s, 2) == Some(7);
    assert |s| == 7 && s[7..] == "" && s[0..2] == "x " && s[2..7] == "**b**";
    assert SplitFrom(s, 7, 7) == [""];
    assert SplitFrom(s, 0, 2) == ["x ", "**b**", ""];
    assert SplitFrom(s, 0, 1) == SplitFrom(s, 0, 2);
    assert SplitFrom(s, 0, 0) == SplitFrom(s, 0, 1);
  }

  // ---------------------------------------------------------------------------
  // Blocks

  /** One line of the content: `<li>`, `<br>` or `<p>`. */
  datatype Block = ListItem(segments: seq<Segment>) | Break | Paragraph(segments: seq<Segment>)

  predicate IsListLine(line: string) {
    StartsWith(line, "- ") || StartsWith(line, "* ")
  }

  /** The list test comes first, so "- " alone is an empty list item; then a blank
      line is a break; anything else is a paragraph of the whole line. */
  function ClassifyLine(line: string): (b: Block)
    ensures b.ListItem? <==> IsListLine(line)
    ensures b.ListItem? ==> b.segments == ParseBold(line[2..])
    ensures b.Break? <==> !IsListLine(line) && AllWhitespace(line)
    ensures b.Paragraph? ==> b.segments == ParseBold(line)
  {
    TrimEmptyIff(line);
    if IsListLine(line) then
      assert Substring(line, 2, |line|) == line[2..];
      ListItem(ParseBold(Substring(line, 2, |line|)))
    else if Trim(line) == "" then Break
    else Paragraph(ParseBold(line))
  }

  /** `renderContent`: the content split on `'\n'`, one block per line, so as
      many blocks as newlines plus one. */
  function RenderContent(text: string): (blocks: seq<Block>)
    ensures |blocks| == Count(text, '\n') + 1
  {
    SplitCount(text, '\n');
    var lines := Split(text, '\n');
    seq(|lines|, i requires 0 <= i < |lines| => ClassifyLine(lines[i]))
  }

  /** Lines joined by newlines come back as their blocks, in order. */
  lemma RenderContentLines(lines: seq<string>)
    requires |lines| >= 1
    requires forall i :: 0 <= i < |lines| ==> '\n' !in lines[i]
    ensures var blocks := RenderContent(Join(lines, '\n'));
      |blocks| == |lines| && forall i :: 0 <= i < |lines| ==> blocks[i] == ClassifyLine(lines[i])
  {
    SplitJoin(lines, '\n');
  }
}
