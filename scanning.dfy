/** The global-flag regular-expression scan of ECMAScript (`str.match(re)` with
    `re` carrying the `g` flag): try a match at the current position; on a match
    record it and resume at its end, otherwise resume one character later. The
    regular expression itself is abstracted as a match table: for each position
    of the subject string, the length of the match that the engine finds there,
    0 when it finds none (neither pattern modelled here can match the empty
    string). */
module Scanning {

  /** A match: the half-open range of positions `start..end`. */
  datatype Span = Span(start: nat, end: nat)

  /** No match in the table runs past the end of the subject string. */
  ghost predicate Bounded(table: seq<nat>) {
    forall p :: 0 <= p < |table| ==> p + table[p] <= |table|
  }

  /** `sp` is a non-empty range holding exactly the match found at its start. */
  ghost predicate IsMatchSpan(table: seq<nat>, sp: Span) {
    sp.start < sp.end <= |table| && table[sp.start] == sp.end - sp.start
  }

  /** The spans are disjoint and listed from left to right. */
  ghost predicate Ordered(spans: seq<Span>) {
    forall a, b :: 0 <= a < b < |spans| ==> spans[a].end <= spans[b].start
  }

  /** Position `p` lies inside one of the spans. */
  ghost predicate Covered(spans: seq<Span>, p: nat) {
    exists k :: 0 <= k < |spans| && spans[k].start <= p < spans[k].end
  }

  /** Declarative description of the leftmost, non-overlapping scan from
      position `i`: the spans are matches at or after `i`, disjoint and in order,
      and no position from `i` on that lies outside every span starts a match. */
  ghost predicate LeftmostScan(table: seq<nat>, i: nat, spans: seq<Span>) {
    && (forall k :: 0 <= k < |spans| ==> i <= spans[k].start && IsMatchSpan(table, spans[k]))
    && Ordered(spans)
    && (forall p :: i <= p < |table| && !Covered(spans, p) ==> table[p] == 0)
  }

  /** The text of each span, in order. */
  function Texts(s: string, spans: seq<Span>): (r: seq<string>)
    requires forall k :: 0 <= k < |spans| ==> spans[k].start <= spans[k].end <= |s|
    ensures |r| == |spans|
    ensures forall k :: 0 <= k < |r| ==> r[k] == s[spans[k].start..spans[k].end]
  {
    seq(|spans|, k requires 0 <= k < |spans| => s[spans[k].start..spans[k].end])
  }

  /** Position `p` is covered by a list of spans exactly when it lies in its
      first span or is covered by the others. */
  lemma CoveredCons(sp: Span, rest: seq<Span>, p: nat)
    ensures Covered([sp] + rest, p) <==> (sp.start <= p < sp.end || Covered(rest, p))
  {
    var r := [sp] + rest;
    if Covered(rest, p) {
      var k :| 0 <= k < |rest| && rest[k].start <= p < rest[k].end;
      assert r[k + 1] == rest[k];
    }
    if Covered(r, p) && !(sp.start <= p < sp.end) {
      var k :| 0 <= k < |r| && r[k].start <= p < r[k].end;
      assert rest[k - 1] == r[k];
    }
    if sp.start <= p < sp.end {
      assert r[0] == sp;
    }
  }

  /** A match at `i` followed by a leftmost scan from its end is a leftmost
      scan from `i`. */
  lemma ConsIsLeftmost(table: seq<nat>, i: nat, rest: seq<Span>)
    requires i < |table| && 0 < table[i] && i + table[i] <= |table|
    requires LeftmostScan(table, i + table[i], rest)
    ensures LeftmostScan(table, i, [Span(i, i + table[i])] + rest)
  {
    var sp := Span(i, i + table[i]);
    var r := [sp] + rest;
    forall a, b | 0 <= a < b < |r| ensures r[a].end <= r[b].start {
      assert r[b] == rest[b - 1];
      if a > 0 {
        assert r[a] == rest[a - 1];
      }
    }
    forall k | 0 <= k < |r| ensures i <= r[k].start && IsMatchSpan(table, r[k]) {
      if k > 0 {
        assert r[k] == rest[k - 1];
      }
    }
    forall p | i <= p < |table| && !Covered(r, p) ensures table[p] == 0 {
      CoveredCons(sp, rest, p);
    }
  }

  /** A leftmost scan from `i + 1` is one from `i` when `i` starts no match. */
  lemma SkipBackIsLeftmost(table: seq<nat>, i: nat, spans: seq<Span>)
    requires i < |table| && table[i] == 0
    requires LeftmostScan(table, i + 1, spans)
    ensures LeftmostScan(table, i, spans)
  {
  }

  /** The spans of the matches found scanning from position `i`; they form a
      leftmost scan. */
  function Scan(table: seq<nat>, i: nat): (r: seq<Span>)
    requires Bounded(table)
    ensures LeftmostScan(table, i, r)
    decreases |table| - i
  {
    if i >= |table| then []
    else if table[i] > 0 then
      var rest := Scan(table, i + table[i]);
      ConsIsLeftmost(table, i, rest);
      [Span(i, i + table[i])] + rest
    else
      var rest := Scan(table, i + 1);
      SkipBackIsLeftmost(table, i, rest);
      rest
  }

  /** In a leftmost scan from `i`, a match at `i` is the first span. */
  lemma FirstSpanIsMatchAt(table: seq<nat>, i: nat, spans: seq<Span>)
    requires LeftmostScan(table, i, spans)
    requires i < |table| && table[i] > 0
    ensures |spans| > 0 && spans[0] == Span(i, i + table[i])
  {
    assert Covered(spans, i);
    var k :| 0 <= k < |spans| && spans[k].start <= i < spans[k].end;
    assert IsMatchSpan(table, spans[0]) && IsMatchSpan(table, spans[k]);
    assert k == 0;
  }

  /** Dropping the first span of a leftmost scan leaves a leftmost scan from
      that span's end. */
  lemma TailIsLeftmost(table: seq<nat>, i: nat, spans: seq<Span>)
    requires LeftmostScan(table, i, spans)
    requires |spans| > 0
    ensures LeftmostScan(table, spans[0].end, spans[1..])
  {
    var rest := spans[1..];
    assert spans == [spans[0]] + rest;
    forall j | 0 <= j < |rest| ensures spans[0].end <= rest[j].start && IsMatchSpan(table, rest[j]) {
      assert rest[j] == spans[j + 1];
    }
    forall p | spans[0].end <= p < |table| && !Covered(rest, p) ensures table[p] == 0 {
      CoveredCons(spans[0], rest, p);
    }
  }

  /** A leftmost scan from `i` with no match at `i` is one from `i + 1`. */
  lemma SkipIsLeftmost(table: seq<nat>, i: nat, spans: seq<Span>)
    requires LeftmostScan(table, i, spans)
    requires i < |table| && table[i] == 0
    ensures LeftmostScan(table, i + 1, spans)
  {
    forall j | 0 <= j < |spans| ensures i + 1 <= spans[j].start {
      assert IsMatchSpan(table, spans[j]);
    }
  }

  /** Two non-empty sequences with equal heads and equal tails are equal. */
  lemma HeadTailEqual<T>(a: seq<T>, b: seq<T>)
    requires |a| > 0 && |b| > 0 && a[0] == b[0] && a[1..] == b[1..]
    ensures a == b
  {
    assert a == [a[0]] + a[1..];
    assert b == [b[0]] + b[1..];
  }

  /** A leftmost scan is determined by the table and its starting position. */
  lemma {:induction false} LeftmostScanDeterministic(table: seq<nat>, i: nat, a: seq<Span>, b: seq<Span>)
    requires LeftmostScan(table, i, a) && LeftmostScan(table, i, b)
    ensures a == b
    decreases |table| - i
  {
    if i >= |table| {
    } else if table[i] > 0 {
      FirstSpanIsMatchAt(table, i, a);
      FirstSpanIsMatchAt(table, i, b);
      TailIsLeftmost(table, i, a);
      TailIsLeftmost(table, i, b);
      LeftmostScanDeterministic(table, i + table[i], a[1..], b[1..]);
      HeadTailEqual(a, b);
    } else {
      SkipIsLeftmost(table, i, a);
      SkipIsLeftmost(table, i, b);
      LeftmostScanDeterministic(table, i + 1, a, b);
    }
  }

  /** The scan is the only leftmost scan: any spans that satisfy the
      declarative description are exactly the ones `Scan` finds. */
  lemma LeftmostScanUnique(table: seq<nat>, i: nat, spans: seq<Span>)
    requires Bounded(table)
    requires LeftmostScan(table, i, spans)
    ensures spans == Scan(table, i)
  {
    LeftmostScanDeterministic(table, i, spans, Scan(table, i));
  }

  /** When every match is at least `k` characters long, a leftmost scan from
      `i` holds at most `(|table| - i) / k` spans. */
  lemma {:induction false} LeftmostCountBound(table: seq<nat>, i: nat, spans: seq<Span>, k: nat)
    requires LeftmostScan(table, i, spans)
    requires i <= |table|
    requires forall p :: 0 <= p < |table| && table[p] > 0 ==> table[p] >= k
    ensures k * |spans| <= |table| - i
    decreases |spans|
  {
    if spans != [] {
      var e := spans[0].end;
      assert IsMatchSpan(table, spans[0]);
      TailIsLeftmost(table, i, spans);
      LeftmostCountBound(table, e, spans[1..], k);
      assert k * |spans| == k * |spans[1..]| + k;
    }
  }

  /** When every match is at least `k` characters long, the scan from `i`
      finds at most `(|table| - i) / k` of them. */
  lemma ScanCountBound(table: seq<nat>, i: nat, k: nat)
    requires Bounded(table)
    requires i <= |table|
    requires forall p :: 0 <= p < |table| && table[p] > 0 ==> table[p] >= k
    ensures k * |Scan(table, i)| <= |table| - i
  {
    LeftmostCountBound(table, i, Scan(table, i), k);
  }

  /** A string with no match at any position from `i` on yields no spans. */
  lemma NoMatchNoSpans(table: seq<nat>, i: nat)
    requires Bounded(table)
    requires forall p: nat :: i <= p < |table| ==> table[p] == 0
    ensures Scan(table, i) == []
  {
    LeftmostScanUnique(table, i, []);
  }
}
