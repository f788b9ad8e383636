/** `extractFeatures` of the classification server: the two global regular
    expression scans over the submitted text and their match counts.

    - links: `/https?:\/\/[^\s]+/g`, case-sensitive, greedy;
    - keywords: `/(urgent|verify|suspended|click here|account|password)/gi`,
      case-insensitive for ASCII letters only (the pattern has no `u` flag). */
module Features {
  import opened Text
  import opened Scanning

  /** `w` occurs in `s` at position `p`, character for character. */
  predicate HasAt(s: string, p: nat, w: string) {
    p + |w| <= |s| && s[p..p + |w|] == w
  }

  /** No character of `t` is whitespace. */
  ghost predicate NoWhitespace(t: string) {
    forall j :: 0 <= j < |t| ==> !IsWhitespace(t[j])
  }

  /** `t` is a word of the link pattern `https?:\/\/[^\s]+`: a scheme
      `http://` or `https://` followed by at least one character, none of
      them whitespace. */
  ghost predicate IsLinkMatch(t: string) {
    NoWhitespace(t) && ((|t| > 7 && t[..7] == "http://") || (|t| > 8 && t[..8] == "https://"))
  }

  /** No link pattern match starts at position `p` of `s`. */
  ghost predicate NoLinkAt(s: string, p: nat) {
    forall q :: p < q <= |s| ==> !IsLinkMatch(s[p..q])
  }

  /** Length of the run of non-whitespace characters of `s` starting at `p`. */
  function NonWhitespaceRun(s: string, p: nat): (r: nat)
    requires p <= |s|
    ensures p + r <= |s| && forall j :: p <= j < p + r ==> !IsWhitespace(s[j])
    ensures p + r == |s| || IsWhitespace(s[p + r])
    decreases |s| - p
  {
    if p < |s| && !IsWhitespace(s[p]) then 1 + NonWhitespaceRun(s, p + 1) else 0
  }

  /** Length of the scheme `https://` (8) or `http://` (7) at `p`, 0 if neither
      is there. The two cannot both be present, so the greedy `s?` of the
      pattern picks the only one that can succeed. */
  function SchemeLengthAt(s: string, p: nat): (r: nat)
    ensures r == 8 <==> HasAt(s, p, "https://")
    ensures r == 7 <==> HasAt(s, p, "http://")
    ensures r == 0 || r == 7 || r == 8
  {
    SchemesExclusive(s, p);
    if HasAt(s, p, "https://") then 8
    else if HasAt(s, p, "http://") then 7
    else 0
  }

  /** `https://` and `http://` never start at the same position: the fifth
      character is `s` in one and `:` in the other. */
  lemma SchemesExclusive(s: string, p: nat)
    ensures HasAt(s, p, "https://") ==> !HasAt(s, p, "http://")
  {
    if HasAt(s, p, "https://") {
      assert s[p..p + 7][4] == s[p..p + 8][4] == 's';
    }
  }

  /** The prefix of a slice is the slice of the prefix. */
  lemma SlicePrefix(s: string, p: nat, q: nat, n: nat)
    requires p + n <= q <= |s|
    ensures s[p..q][..n] == s[p..p + n]
  {
  }

  /** Length of the match of the link pattern at position `p` of `s` (0 when
      there is none): the match is the longest prefix of `s[p..]` in the
      pattern's language, and it ends at whitespace or at the end of `s`. */
  function LinkLengthAt(s: string, p: nat): (r: nat)
    requires p <= |s|
    ensures p + r <= |s|
    ensures r > 0 ==> IsLinkMatch(s[p..p + r]) && (p + r == |s| || IsWhitespace(s[p + r]))
    ensures r > 0 ==> forall q :: p + r < q <= |s| ==> !IsLinkMatch(s[p..q])
    ensures r == 0 ==> NoLinkAt(s, p)
  {
    var k := SchemeLengthAt(s, p);
    if k > 0 && p + k < |s| && !IsWhitespace(s[p + k]) then
      var r := NonWhitespaceRun(s, p);
      LinkLengthPositive(s, p, k, r);
      r
    else
      NoLinkWithoutScheme(s, p, k);
      0
  }

  /** Helper for `LinkLengthAt`: a scheme followed by a non-whitespace
      character starts a maximal non-whitespace run that is a link match. */
  lemma LinkLengthPositive(s: string, p: nat, k: nat, r: nat)
    requires k == SchemeLengthAt(s, p) && k > 0 && p + k < |s| && !IsWhitespace(s[p + k])
    requires r == NonWhitespaceRun(s, p)
    ensures k < r && IsLinkMatch(s[p..p + r])
    ensures forall q :: p + r < q <= |s| ==> !IsLinkMatch(s[p..q])
  {
    SchemeIsNotWhitespace(s, p, k);
    RunCovers(s, p, k + 1);
    SlicePrefix(s, p, p + r, k);
    forall q | p + r < q <= |s| ensures !IsLinkMatch(s[p..q]) {
      assert s[p..q][r] == s[p + r];
    }
  }

  /** The scheme found at `p` contains no whitespace. */
  lemma SchemeIsNotWhitespace(s: string, p: nat, k: nat)
    requires k == SchemeLengthAt(s, p) && k > 0
    ensures p + k <= |s| && s[p..p + k] == (if k == 8 then "https://" else "http://")
    ensures forall j :: p <= j < p + k ==> !IsWhitespace(s[j])
  {
    var scheme := if k == 8 then "https://" else "http://";
    assert forall j :: p <= j < p + k ==> s[j] == s[p..p + k][j - p] == scheme[j - p];
  }

  /** A run of `n` non-whitespace characters at `p` is part of the maximal
      one. */
  lemma RunCovers(s: string, p: nat, n: nat)
    requires p + n <= |s| && forall j :: p <= j < p + n ==> !IsWhitespace(s[j])
    ensures n <= NonWhitespaceRun(s, p)
  {
  }

  /** Helper for `LinkLengthAt`: without a scheme followed by a non-whitespace
      character, no link starts at `p`. */
  lemma NoLinkWithoutScheme(s: string, p: nat, k: nat)
    requires k == SchemeLengthAt(s, p)
    requires !(k > 0 && p + k < |s| && !IsWhitespace(s[p + k]))
    ensures NoLinkAt(s, p)
  {
    forall q | p < q <= |s| ensures !IsLinkMatch(s[p..q]) {
      if p + 7 <= q {
        SlicePrefix(s, p, q, 7);
      }
      if p + 8 <= q {
        SlicePrefix(s, p, q, 8);
      }
      if 0 < k && p + k < q {
        assert s[p..q][k] == s[p + k];
      }
    }
  }

  /** The alternatives of the keyword pattern, in the order the pattern lists
      them. Their initials `u v s c a p` are pairwise distinct. */
  const Keywords: seq<string> := ["urgent", "verify", "suspended", "click here", "account", "password"]

  /** The shortest alternative, `urgent` and `verify`, has six characters. */
  const ShortestKeyword: nat := 6

  /** The lower-case word `w` occurs at position `p` of `s` when ASCII case is
      ignored. */
  predicate MatchesAt(s: string, p: nat, w: string) {
    p + |w| <= |s| && LowerAsciiString(s[p..p + |w|]) == w
  }

  /** No alternative of the keyword pattern matches at position `p`. */
  ghost predicate NoKeywordAt(s: string, p: nat) {
    forall j :: 0 <= j < |Keywords| ==> !MatchesAt(s, p, Keywords[j])
  }

  /** Regular-expression alternation from the `k`-th alternative on: the length
      of the first alternative that matches at `p`, 0 when none does. */
  function AlternationAt(s: string, p: nat, k: nat): (r: nat)
    requires k <= |Keywords|
    ensures r == 0 <==> forall j :: k <= j < |Keywords| ==> !MatchesAt(s, p, Keywords[j])
    ensures r > 0 ==> exists j :: k <= j < |Keywords| && MatchesAt(s, p, Keywords[j]) && r == |Keywords[j]|
    decreases |Keywords| - k
  {
    if k == |Keywords| then 0
    else if MatchesAt(s, p, Keywords[k]) then |Keywords[k]|
    else AlternationAt(s, p, k + 1)
  }

  /** At most one alternative matches at any position, since the first
      character already tells them apart; the order of the alternatives is
      therefore immaterial. */
  lemma AtMostOneKeywordAt(s: string, p: nat, a: nat, b: nat)
    requires a < |Keywords| && b < |Keywords|
    requires MatchesAt(s, p, Keywords[a]) && MatchesAt(s, p, Keywords[b])
    ensures a == b
  {
    var initials := "uvscap";
    assert forall j :: 0 <= j < |Keywords| ==> Keywords[j][0] == initials[j];
    assert LowerAsciiString(s[p..p + |Keywords[a]|])[0] == LowerAscii(s[p]);
    assert LowerAsciiString(s[p..p + |Keywords[b]|])[0] == LowerAscii(s[p]);
  }

  /** No keyword starts at a character whose fold is not one of the initials
      `u v s c a p`. */
  lemma NoKeywordAtOtherInitial(s: string, p: nat)
    requires p < |s| && LowerAscii(s[p]) !in "uvscap"
    ensures NoKeywordAt(s, p)
  {
    forall j | 0 <= j < |Keywords| && p + |Keywords[j]| <= |s|
      ensures LowerAsciiString(s[p..p + |Keywords[j]|]) != Keywords[j]
    {
      assert LowerAsciiString(s[p..p + |Keywords[j]|])[0] == LowerAscii(s[p]);
      assert Keywords[j][0] in "uvscap";
    }
  }

  /** Length of the match of the keyword pattern at position `p` of `s` (0
      when there is none): the length of the alternative that matches there. */
  function KeywordLengthAt(s: string, p: nat): (r: nat)
    requires p <= |s|
    ensures p + r <= |s|
    ensures r == 0 <==> NoKeywordAt(s, p)
    ensures forall j :: 0 <= j < |Keywords| && MatchesAt(s, p, Keywords[j]) ==> r == |Keywords[j]|
  {
    var r := AlternationAt(s, p, 0);
    KeywordLengthIsTheMatch(s, p, r);
    r
  }

  /** Helper for `KeywordLengthAt`: the first matching alternative is the
      only one. */
  lemma KeywordLengthIsTheMatch(s: string, p: nat, r: nat)
    requires r == AlternationAt(s, p, 0)
    ensures forall j :: 0 <= j < |Keywords| && MatchesAt(s, p, Keywords[j]) ==> r == |Keywords[j]|
  {
    forall j | 0 <= j < |Keywords| && MatchesAt(s, p, Keywords[j]) ensures r == |Keywords[j]| {
      var i :| 0 <= i < |Keywords| && MatchesAt(s, p, Keywords[i]) && r == |Keywords[i]|;
      AtMostOneKeywordAt(s, p, i, j);
    }
  }

  /** The match table of the link pattern over `s`. */
  function LinkTable(s: string): (t: seq<nat>)
    ensures |t| == |s| && Bounded(t)
    ensures forall p :: 0 <= p < |s| ==> t[p] == LinkLengthAt(s, p)
  {
    seq(|s|, p requires 0 <= p < |s| => LinkLengthAt(s, p))
  }

  /** The match table of the keyword pattern over `s`. */
  function KeywordTable(s: string): (t: seq<nat>)
    ensures |t| == |s| && Bounded(t)
    ensures forall p :: 0 <= p < |s| ==> t[p] == KeywordLengthAt(s, p)
  {
    seq(|s|, p requires 0 <= p < |s| => KeywordLengthAt(s, p))
  }

  /** Where the links of `s` are. */
  function LinkSpans(s: string): (r: seq<Span>)
    ensures forall k :: 0 <= k < |r| ==> r[k].start < r[k].end <= |s|
  {
    Scan(LinkTable(s), 0)
  }

  /** Where the keywords of `s` are. */
  function KeywordSpans(s: string): (r: seq<Span>)
    ensures forall k :: 0 <= k < |r| ==> r[k].start < r[k].end <= |s|
  {
    Scan(KeywordTable(s), 0)
  }

  /** The link pattern's match at position `sp.start` of `s` ends at `sp.end`:
      the range is in the pattern's language and is followed by whitespace or
      by the end of `s`. */
  ghost predicate IsLinkAt(s: string, sp: Span) {
    sp.start < sp.end <= |s| && IsLinkMatch(s[sp.start..sp.end])
    && (sp.end == |s| || IsWhitespace(s[sp.end]))
  }

  /** Declarative description of the link scan of `s`, in terms of the
      pattern alone: each span is a maximal link, the spans are disjoint and
      in order, and no link starts at a position outside every span. */
  ghost predicate LinkScan(s: string, spans: seq<Span>) {
    && (forall k :: 0 <= k < |spans| ==> IsLinkAt(s, spans[k]))
    && Ordered(spans)
    && (forall p :: 0 <= p < |s| && !Covered(spans, p) ==> NoLinkAt(s, p))
  }

  /** A maximal link at `p` is the match of the link pattern found at `p`. */
  lemma MaximalLinkIsMatch(s: string, sp: Span)
    requires IsLinkAt(s, sp)
    ensures LinkLengthAt(s, sp.start) == sp.end - sp.start
  {
    var p, e := sp.start, sp.end;
    var r := LinkLengthAt(s, p);
    assert forall j :: p <= j < p + r ==> s[j] == s[p..p + r][j - p];
  }

  /** The spans `LinkSpans` finds satisfy the declarative link scan. */
  lemma LinkSpansAreLinkScan(s: string)
    ensures LinkScan(s, LinkSpans(s))
  {
    var t := LinkTable(s);
    var spans := LinkSpans(s);
    forall k | 0 <= k < |spans| ensures IsLinkAt(s, spans[k]) {
      LinkMatchSpanIsLink(s, spans[k]);
    }
    forall p | 0 <= p < |s| && !Covered(spans, p) ensures NoLinkAt(s, p) {
      LinkGapHasNoLink(s, p);
    }
  }

  /** A span the link table records is a maximal link. */
  lemma LinkMatchSpanIsLink(s: string, sp: Span)
    requires IsMatchSpan(LinkTable(s), sp)
    ensures IsLinkAt(s, sp)
  {
    assert LinkTable(s)[sp.start] == LinkLengthAt(s, sp.start);
  }

  /** A position with no entry in the link table starts no link. */
  lemma LinkGapHasNoLink(s: string, p: nat)
    requires p < |s| && LinkTable(s)[p] == 0
    ensures NoLinkAt(s, p)
  {
    assert LinkTable(s)[p] == LinkLengthAt(s, p);
  }

  /** Any spans that satisfy the declarative link scan of `s` are the ones
      `LinkSpans` finds. */
  lemma LinkScanUnique(s: string, spans: seq<Span>)
    requires LinkScan(s, spans)
    ensures spans == LinkSpans(s)
  {
    var t := LinkTable(s);
    forall k | 0 <= k < |spans| ensures IsMatchSpan(t, spans[k]) {
      MaximalLinkIsMatch(s, spans[k]);
    }
    forall p | 0 <= p < |s| && !Covered(spans, p) ensures t[p] == 0 {
      assert t[p] == LinkLengthAt(s, p);
    }
    LeftmostScanUnique(t, 0, spans);
  }

  /** `s.match(/https?:\/\/[^\s]+/g) || []`: the links of `s`, left to right. */
  function FindLinks(s: string): (links: seq<string>)
    ensures |links| == |LinkSpans(s)|
    ensures forall k :: 0 <= k < |links| ==> links[k] == s[LinkSpans(s)[k].start..LinkSpans(s)[k].end]
    ensures forall k :: 0 <= k < |links| ==> IsLinkMatch(links[k])
  {
    LinkSpansAreLinkScan(s);
    Texts(s, LinkSpans(s))
  }

  /** An alternative of the keyword pattern matches at `sp.start` and spans
      exactly `sp`. */
  ghost predicate IsKeywordAt(s: string, sp: Span) {
    exists j :: 0 <= j < |Keywords| && sp.end == sp.start + |Keywords[j]| && MatchesAt(s, sp.start, Keywords[j])
  }

  /** Declarative description of the keyword scan of `s`: each span is a
      keyword occurrence, the spans are disjoint and in order, and no keyword
      starts at a position outside every span. */
  ghost predicate KeywordScan(s: string, spans: seq<Span>) {
    && (forall k :: 0 <= k < |spans| ==> IsKeywordAt(s, spans[k]))
    && Ordered(spans)
    && (forall p :: 0 <= p < |s| && !Covered(spans, p) ==> NoKeywordAt(s, p))
  }

  /** The spans `KeywordSpans` finds satisfy the declarative keyword scan. */
  lemma KeywordSpansAreKeywordScan(s: string)
    ensures KeywordScan(s, KeywordSpans(s))
  {
    var spans := KeywordSpans(s);
    forall k | 0 <= k < |spans| ensures IsKeywordAt(s, spans[k]) {
      var j := KeywordMatchSpanIsKeyword(s, spans[k]);
    }
    forall p | 0 <= p < |s| && !Covered(spans, p) ensures NoKeywordAt(s, p) {
      KeywordGapHasNoKeyword(s, p);
    }
  }

  /** A span the keyword table records is an occurrence of an alternative. */
  lemma KeywordMatchSpanIsKeyword(s: string, sp: Span) returns (j: nat)
    requires IsMatchSpan(KeywordTable(s), sp)
    ensures j < |Keywords| && sp.end == sp.start + |Keywords[j]| && MatchesAt(s, sp.start, Keywords[j])
  {
    var r := KeywordLengthAt(s, sp.start);
    assert KeywordTable(s)[sp.start] == r;
    j :| 0 <= j < |Keywords| && MatchesAt(s, sp.start, Keywords[j]);
  }

  /** A position with no entry in the keyword table starts no keyword. */
  lemma KeywordGapHasNoKeyword(s: string, p: nat)
    requires p < |s| && KeywordTable(s)[p] == 0
    ensures NoKeywordAt(s, p)
  {
    assert KeywordTable(s)[p] == KeywordLengthAt(s, p);
  }

  /** Any spans that satisfy the declarative keyword scan of `s` are the ones
      `KeywordSpans` finds. */
  lemma KeywordScanUnique(s: string, spans: seq<Span>)
    requires KeywordScan(s, spans)
    ensures spans == KeywordSpans(s)
  {
    var t := KeywordTable(s);
    forall k | 0 <= k < |spans| ensures IsMatchSpan(t, spans[k]) {
      var sp := spans[k];
      var j :| 0 <= j < |Keywords| && sp.end == sp.start + |Keywords[j]| && MatchesAt(s, sp.start, Keywords[j]);
      assert t[sp.start] == KeywordLengthAt(s, sp.start);
    }
    forall p | 0 <= p < |s| && !Covered(spans, p) ensures t[p] == 0 {
      assert t[p] == KeywordLengthAt(s, p);
    }
    LeftmostScanUnique(t, 0, spans);
  }

  /** `s.match(/(urgent|…|password)/gi) || []`: the keyword occurrences of
      `s` as written, left to right; each one folds to a keyword. */
  function KeywordMatches(s: string): (words: seq<string>)
    ensures |words| == |KeywordSpans(s)|
    ensures forall k :: 0 <= k < |words| ==> words[k] == s[KeywordSpans(s)[k].start..KeywordSpans(s)[k].end]
    ensures forall k :: 0 <= k < |words| ==> LowerAsciiString(words[k]) in Keywords
  {
    KeywordSpansFold(s);
    Texts(s, KeywordSpans(s))
  }

  /** Every keyword occurrence found in `s` folds to an alternative. */
  lemma KeywordSpansFold(s: string)
    ensures forall k :: 0 <= k < |KeywordSpans(s)| ==>
      LowerAsciiString(s[KeywordSpans(s)[k].start..KeywordSpans(s)[k].end]) in Keywords
  {
    var spans := KeywordSpans(s);
    forall k | 0 <= k < |spans| ensures LowerAsciiString(s[spans[k].start..spans[k].end]) in Keywords {
      var j := KeywordMatchSpanIsKeyword(s, spans[k]);
      assert LowerAsciiString(s[spans[k].start..spans[k].end]) == Keywords[j];
    }
  }

  /** The features `extractFeatures` returns. */
  datatype Features = Features(numLinks: nat, suspiciousWords: nat)

  /** `extractFeatures(text)`: the number of link matches and of keyword
      matches. */
  function ExtractFeatures(text: string): (f: Features)
    ensures 8 * f.numLinks <= |text|
    ensures ShortestKeyword * f.suspiciousWords <= |text|
  {
    ScanCountBound(LinkTable(text), 0, 8);
    assert forall k :: 0 <= k < |Keywords| ==> |Keywords[k]| >= ShortestKeyword;
    ScanCountBound(KeywordTable(text), 0, ShortestKeyword);
    Features(|FindLinks(text)|, |KeywordMatches(text)|)
  }

  /** No link starts at a character other than `h`. */
  lemma NoLinkAtOtherInitial(s: string, p: nat)
    requires p < |s| && s[p] != 'h'
    ensures NoLinkAt(s, p)
  {
    assert LinkLengthAt(s, p) == 0 by {
      assert !HasAt(s, p, "http://") && !HasAt(s, p, "https://") by {
        if p + 7 <= |s| { assert s[p..p + 7][0] == s[p]; }
        if p + 8 <= |s| { assert s[p..p + 8][0] == s[p]; }
      }
    }
  }

  /** A text in which neither `http://` nor `https://` occurs has no links. */
  lemma NoSchemeNoLinks(s: string)
    requires forall p :: 0 <= p < |s| ==> !HasAt(s, p, "http://") && !HasAt(s, p, "https://")
    ensures FindLinks(s) == []
  {
    var t := LinkTable(s);
    forall p | 0 <= p < |t| ensures t[p] == 0 {
      assert SchemeLengthAt(s, p) == 0;
    }
    NoMatchNoSpans(t, 0);
  }

  /** The empty text has neither links nor keywords. */
  lemma EmptyTextHasNoFeatures()
    ensures FindLinks("") == [] && KeywordMatches("") == []
    ensures ExtractFeatures("") == Features(0, 0)
  {
  }
}
