/** Worked inputs for the handler: repeated keywords each count, keywords are
    found inside links too, and a link runs to the next whitespace. */
module Samples {
  import opened Wrappers
  import opened Text
  import opened Scanning
  import opened Features
  import opened Handler

  /** The slices of "urgent URGENT" that the keyword scan picks out. */
  lemma RepeatedSlices(s: string)
    requires s == "urgent URGENT"
    ensures s[0..6] == "urgent" && s[7..13] == "URGENT"
    ensures forall p :: 0 <= p < |s| ==> s[p] != 'h'
  {
  }

  /** The keyword scan of "urgent URGENT" finds both occurrences. */
  lemma RepeatedKeywordSpans(s: string)
    requires s == "urgent URGENT"
    ensures KeywordSpans(s) == [Span(0, 6), Span(7, 13)]
  {
    RepeatedSlices(s);
    var spans := [Span(0, 6), Span(7, 13)];
    assert MatchesAt(s, 0, Keywords[0]) && MatchesAt(s, 7, Keywords[0]);
    forall p | 0 <= p < |s| ensures p == 6 || Covered(spans, p) {
      if p < 6 { assert spans[0].start <= p < spans[0].end; }
      if p > 6 { assert spans[1].start <= p < spans[1].end; }
    }
    NoKeywordAtOtherInitial(s, 6);
    assert KeywordScan(s, spans);
    KeywordScanUnique(s, spans);
  }

  /** "urgent URGENT" has no link: it contains no `h`. */
  lemma RepeatedHasNoLinks(s: string)
    requires s == "urgent URGENT"
    ensures FindLinks(s) == []
  {
    RepeatedSlices(s);
    var links := [];
    forall p | 0 <= p < |s| ensures NoLinkAt(s, p) {
      NoLinkAtOtherInitial(s, p);
    }
    assert LinkScan(s, links);
    LinkScanUnique(s, links);
  }

  /** "urgent URGENT" holds two keyword occurrences (the second in upper
      case) and no link: raw occurrences are counted, not distinct terms. */
  lemma RepeatedKeywordCountsTwice(s: string)
    requires s == "urgent URGENT"
    ensures KeywordMatches(s) == ["urgent", "URGENT"]
    ensures FindLinks(s) == []
  {
    RepeatedSlices(s);
    RepeatedKeywordSpans(s);
    RepeatedHasNoLinks(s);
    var w := KeywordMatches(s);
    assert w[0] == s[0..6] && w[1] == s[7..13];
    assert w == [w[0], w[1]];
  }

  /** The handler's answer for `{text: "urgent URGENT"}`: two keywords and no
      link give the label "Phishing" and the score 3. */
  lemma RepeatedKeywordResponse(s: string)
    requires s == "urgent URGENT"
    ensures Classify(Some(s), None) == Ok(Response("Phishing", 3, [KeywordsFound, NoLinks], [], []))
  {
    RepeatedKeywordCountsTwice(s);
    assert !IsWhitespace(s[0]);
    var f := ExtractFeatures(s);
    assert f == Features(0, 2);
    assert UrlVerdicts(s) == [];
    assert SelectInput(Some(s), None) == s;
  }

  /** The slices of "http://verify.me" that the scans pick out. */
  lemma LinkSlices(s: string)
    requires s == "http://verify.me"
    ensures s[0..16] == s && s[..7] == "http://" && s[7..13] == "verify"
  {
  }

  /** The link scan of "http://verify.me" finds the whole text. */
  lemma SampleLinkSpans(s: string)
    requires s == "http://verify.me"
    ensures LinkSpans(s) == [Span(0, 16)]
  {
    LinkSlices(s);
    var linkSpans := [Span(0, 16)];
    assert IsLinkMatch(s[0..16]);
    forall p | 0 <= p < |s| ensures Covered(linkSpans, p) {
      assert linkSpans[0].start <= p < linkSpans[0].end;
    }
    assert LinkScan(s, linkSpans);
    LinkScanUnique(s, linkSpans);
  }

  /** No keyword starts in "http://verify.me" outside `verify`. */
  lemma SampleKeywordGaps(s: string)
    requires s == "http://verify.me"
    ensures forall p :: 0 <= p < |s| && (p < 7 || 13 <= p) ==> NoKeywordAt(s, p)
  {
    forall p | 0 <= p < |s| && (p < 7 || 13 <= p) ensures NoKeywordAt(s, p) {
      if p == 3 {
        forall j | 0 <= j < |Keywords| && 3 + |Keywords[j]| <= |s|
          ensures LowerAsciiString(s[3..3 + |Keywords[j]|]) != Keywords[j]
        {
          assert LowerAsciiString(s[3..3 + |Keywords[j]|])[1] == ':';
        }
      } else {
        NoKeywordAtOtherInitial(s, p);
      }
    }
  }

  /** The keyword scan of "http://verify.me" finds `verify`. */
  lemma SampleKeywordSpans(s: string)
    requires s == "http://verify.me"
    ensures KeywordSpans(s) == [Span(7, 13)]
  {
    LinkSlices(s);
    var wordSpans := [Span(7, 13)];
    assert MatchesAt(s, 7, Keywords[1]);
    SampleKeywordGaps(s);
    forall p | 0 <= p < |s| ensures p < 7 || 13 <= p || Covered(wordSpans, p) {
      if 7 <= p < 13 { assert wordSpans[0].start <= p < wordSpans[0].end; }
    }
    assert KeywordScan(s, wordSpans);
    KeywordScanUnique(s, wordSpans);
  }

  /** In "http://verify.me" the whole text is one link, and the keyword
      `verify` inside it is counted as well. */
  lemma KeywordInsideLinkCounts(s: string)
    requires s == "http://verify.me"
    ensures FindLinks(s) == [s]
    ensures KeywordMatches(s) == ["verify"]
  {
    LinkSlices(s);
    SampleLinkSpans(s);
    SampleKeywordSpans(s);
    var links := FindLinks(s);
    assert links[0] == s[0..16];
    assert links == [links[0]];
    var w := KeywordMatches(s);
    assert w[0] == s[7..13];
    assert w == [w[0]];
  }
}
