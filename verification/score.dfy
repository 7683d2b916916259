/** Score extraction from the judge's free-form answer: the regex
    `(\d+)\s*$` is run over the text and the digits of its last match are
    read as the score; no match means no score. `\d` and `\s` are taken
    in their ASCII sense. */
module Score {
  import opened Wrappers
  import opened Text

  /** ASCII white space: space, tab, line feed, vertical tab, form feed,
      carriage return. */
  predicate IsSpace(c: char) {
    c == ' ' || c == '\t' || c == '\n' || c == '\r' || c as int == 0x0B || c as int == 0x0C
  }

  /** The regex `(\d+)\s*$` matches `s` from index `p`, its group being
      `s[p..q]`: digits up to `q`, then only white space to the end. */
  predicate MatchesAt(s: string, p: int, q: int) {
    && 0 <= p < q <= |s|
    && (forall i :: p <= i < q ==> IsDigit(s[i]))
    && (forall i :: q <= i < |s| ==> IsSpace(s[i]))
  }

  /** The length of `s[..n]` without its trailing white space. */
  function TrimmedLength(s: string, n: nat): (q: nat)
    requires n <= |s|
    ensures q <= n
    ensures forall i :: q <= i < n ==> IsSpace(s[i])
    ensures q == 0 || !IsSpace(s[q - 1])
    decreases n
  {
    if n > 0 && IsSpace(s[n - 1]) then TrimmedLength(s, n - 1) else n
  }

  /** Where the run of digits that ends at `q` begins. */
  function RunStart(s: string, q: nat): (p: nat)
    requires q <= |s|
    ensures p <= q
    ensures forall i :: p <= i < q ==> IsDigit(s[i])
    ensures p == 0 || !IsDigit(s[p - 1])
    decreases q
  {
    if q > 0 && IsDigit(s[q - 1]) then RunStart(s, q - 1) else q
  }

  /** The match the regex engine reports: the maximal digit run standing
      right before the trailing white space. It is the leftmost match,
      and every match ends its group at the same place, so no two
      matches are disjoint and the first match is also the last. */
  function TrailingMatch(s: string): (r: Option<(nat, nat)>)
    ensures r.Some? ==> MatchesAt(s, r.value.0, r.value.1)
    ensures r.Some? ==> forall p, q :: MatchesAt(s, p, q) ==> r.value.0 <= p && q == r.value.1
    ensures r.None? ==> forall p, q :: !MatchesAt(s, p, q)
  {
    var q := TrimmedLength(s, |s|);
    var p := RunStart(s, q);
    assert forall p', q' :: MatchesAt(s, p', q') ==> p <= p' && q' == q by {
      forall p', q' | MatchesAt(s, p', q') ensures p <= p' && q' == q {
        assert !IsSpace(s[q' - 1]);
        assert q > 0 ==> !IsSpace(s[q - 1]);
        assert p > 0 ==> !IsDigit(s[p - 1]);
      }
    }
    if p < q then Some((p, q)) else None
  }

  /** `s` ends, apart from trailing white space, with a digit. */
  predicate EndsWithDigit(s: string) {
    var q := TrimmedLength(s, |s|);
    q > 0 && IsDigit(s[q - 1])
  }

  /** The score read from the judge's answer. */
  function ExtractScore(s: string): (r: Option<nat>)
    ensures r.Some? <==> EndsWithDigit(s)
    ensures r.Some? <==> exists p, q :: MatchesAt(s, p, q)
  {
    match TrailingMatch(s)
    case Some((p, q)) => Some(DigitsValue(s[p..q]))
    case None => None
  }

  /** The score is the value of the whole maximal digit run of any match. */
  lemma ScoreOfMatch(s: string, p: nat, q: nat)
    requires MatchesAt(s, p, q)
    requires p == 0 || !IsDigit(s[p - 1])
    ensures ExtractScore(s) == Some(DigitsValue(s[p..q]))
  {
    var m := TrailingMatch(s);
    assert m.Some?;
    var p0, q0 := m.value.0, m.value.1;
    assert q == q0 && p0 <= p;
  }

  /** Digits between a non-digit and trailing white space form a match. */
  lemma DigitsBeforeSpace(prefix: string, d: string, ws: string)
    requires |d| > 0 && AllDigits(d)
    requires |prefix| == 0 || !IsDigit(prefix[|prefix| - 1])
    requires forall i :: 0 <= i < |ws| ==> IsSpace(ws[i])
    ensures var s, p := prefix + d + ws, |prefix|;
            && MatchesAt(s, p, p + |d|)
            && (p == 0 || !IsDigit(s[p - 1]))
            && s[p..p + |d|] == d
  {
    var s, p, q := prefix + d + ws, |prefix|, |prefix| + |d|;
    forall i | p <= i < q ensures IsDigit(s[i]) {
      assert s[i] == d[i - p];
    }
    forall i | q <= i < |s| ensures IsSpace(s[i]) {
      assert s[i] == ws[i - q];
    }
    if p > 0 {
      assert s[p - 1] == prefix[p - 1];
    }
    assert s[p..q] == d;
  }

  /** Any number written after a non-digit, before optional white space,
      is read back exactly: the score is not clamped to 0..5. */
  lemma ScoreOfTrailingNumber(prefix: string, n: nat, ws: string)
    requires |prefix| == 0 || !IsDigit(prefix[|prefix| - 1])
    requires forall i :: 0 <= i < |ws| ==> IsSpace(ws[i])
    ensures ExtractScore(prefix + NatToDigits(n) + ws) == Some(n)
  {
    var d := NatToDigits(n);
    DigitsBeforeSpace(prefix, d, ws);
    ScoreOfMatch(prefix + d + ws, |prefix|, |prefix| + |d|);
    DigitsRoundTrip(n);
  }

  /** Answers with a trailing number. */
  lemma ScoreExampleBare()
    ensures ExtractScore("3") == Some(3)
  {
    var s := "3";
    assert s[0..1] == s;
    assert MatchesAt(s, 0, 1);
    ScoreOfMatch(s, 0, 1);
  }

  lemma ScoreExampleAboveFive()
    ensures ExtractScore("42") == Some(42)
  {
    var s := "42";
    assert s[0..1] == "4" && s[0..2] == s;
    assert DigitsValue(s[0..1]) == 4;
    assert DigitsValue(s) == 42;
    assert MatchesAt(s, 0, 2);
    ScoreOfMatch(s, 0, 2);
  }

  lemma ScoreExampleAfterText()
    ensures ExtractScore("The answer is 4") == Some(4)
  {
    var s := "The answer is 4";
    assert s[14..15] == "4";
    assert MatchesAt(s, 14, 15);
    ScoreOfMatch(s, 14, 15);
  }

  lemma ScoreExampleLastWins()
    ensures ExtractScore("score: 2, actually 5") == Some(5)
  {
    var s := "score: 2, actually 5";
    assert s[19..20] == "5";
    assert MatchesAt(s, 19, 20);
    ScoreOfMatch(s, 19, 20);
  }

  lemma ScoreExampleTrailingSpace()
    ensures ExtractScore("5 \n") == Some(5)
  {
    var s := "5 \n";
    assert s[0..1] == "5";
    assert MatchesAt(s, 0, 1);
    ScoreOfMatch(s, 0, 1);
  }

  /** Answers without a trailing number give no score. */
  lemma ScoreExamplesAbsent()
    ensures ExtractScore("no number here") == None
    ensures ExtractScore("4.") == None
  {
    assert TrimmedLength("no number here", 14) == 14;
    assert TrimmedLength("4.", 2) == 2;
  }
}
