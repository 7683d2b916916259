/** String operations the runner relies on: Rust's `str::replace`, the
    removal of `"` characters, and ASCII digit runs. */
module Text {

  /** `pat` occurs in `s` starting at index `i`. */
  predicate OccursAt(s: string, pat: string, i: int) {
    0 <= i && i + |pat| <= |s| && s[i..i + |pat|] == pat
  }

  /** `pat` is a substring of `s`. */
  predicate Contains(s: string, pat: string) {
    exists i :: 0 <= i <= |s| && OccursAt(s, pat, i)
  }

  /** `str::replace` with an empty pattern: `rep` is inserted at every
      character boundary, the two ends included. */
  function InsertAtBoundaries(s: string, rep: string): (r: string)
    ensures |r| == |s| + (|s| + 1) * |rep|
    ensures forall c :: c in r ==> c in s || c in rep
  {
    if |s| == 0 then rep
    else
      var tail := InsertAtBoundaries(s[1..], rep);
      assert forall c :: c in tail ==> c in s || c in rep by {
        forall c | c in tail ensures c in s || c in rep {
          if c in s[1..] {
            var k :| 0 <= k < |s[1..]| && s[1..][k] == c;
            assert s[k + 1] == c;
          }
        }
      }
      rep + [s[0]] + tail
  }

  /** Around one character the replacement is inserted on both sides. */
  lemma InsertOne(c: char, rep: string)
    ensures InsertAtBoundaries([c], rep) == rep + [c] + rep
  {
    assert [c][1..] == [];
  }

  /** The text with insertions begins with the replacement. */
  lemma InsertStartsWithRep(s: string, rep: string)
    ensures InsertAtBoundaries(s, rep)[..|rep|] == rep
  {
  }

  /** Inserting at the boundaries of `a + b` is inserting into `a` and
      into `b`, with the boundary between them counted once. */
  lemma {:induction false} InsertConcat(a: string, b: string, rep: string)
    ensures InsertAtBoundaries(a + b, rep)
            == InsertAtBoundaries(a, rep) + InsertAtBoundaries(b, rep)[|rep|..]
    decreases |a|
  {
    if |a| == 0 {
      assert a + b == b;
      InsertStartsWithRep(b, rep);
      var t := InsertAtBoundaries(b, rep);
      assert t == t[..|rep|] + t[|rep|..];
    } else {
      assert (a + b)[0] == a[0];
      assert (a + b)[1..] == a[1..] + b;
      InsertConcat(a[1..], b, rep);
    }
  }

  /** `s.replace(pat, rep)`: every non-overlapping occurrence of `pat`,
      found left to right, is replaced by `rep`. */
  function ReplaceAll(s: string, pat: string, rep: string): (r: string)
    ensures forall c :: c in r ==> c in s || c in rep
    decreases |s|
  {
    if |pat| == 0 then InsertAtBoundaries(s, rep)
    else if |s| < |pat| then s
    else if s[..|pat|] == pat then
      var tail := ReplaceAll(s[|pat|..], pat, rep);
      assert forall c :: c in tail ==> c in s || c in rep by {
        forall c | c in tail ensures c in s || c in rep {
          if c in s[|pat|..] {
            var k :| 0 <= k < |s[|pat|..]| && s[|pat|..][k] == c;
            assert s[k + |pat|] == c;
          }
        }
      }
      rep + tail
    else
      var tail := ReplaceAll(s[1..], pat, rep);
      assert forall c :: c in tail ==> c in s || c in rep by {
        forall c | c in tail ensures c in s || c in rep {
          if c in s[1..] {
            var k :| 0 <= k < |s[1..]| && s[1..][k] == c;
            assert s[k + 1] == c;
          }
        }
      }
      [s[0]] + tail
  }

  /** The number of occurrences `ReplaceAll` replaces. */
  function MatchCount(s: string, pat: string): nat
    requires |pat| > 0
    decreases |s|
  {
    if |s| < |pat| then 0
    else if s[..|pat|] == pat then 1 + MatchCount(s[|pat|..], pat)
    else MatchCount(s[1..], pat)
  }

  /** An occurrence of `pat` not at the front of `s` is an occurrence in `s[1..]`. */
  lemma ContainsTail(s: string, pat: string)
    requires |s| > 0 && Contains(s, pat) && !OccursAt(s, pat, 0)
    ensures Contains(s[1..], pat)
  {
    var i :| 0 <= i <= |s| && OccursAt(s, pat, i);
    assert i >= 1;
    assert s[1..][i - 1..i - 1 + |pat|] == s[i..i + |pat|];
    assert OccursAt(s[1..], pat, i - 1);
  }

  /** An occurrence in `s[k..]` is an occurrence in `s`. */
  lemma ContainsSuffix(s: string, pat: string, k: nat)
    requires k <= |s| && Contains(s[k..], pat)
    ensures Contains(s, pat)
  {
    var i :| 0 <= i <= |s[k..]| && OccursAt(s[k..], pat, i);
    assert s[k..][i..i + |pat|] == s[i + k..i + k + |pat|];
    assert OccursAt(s, pat, i + k);
  }

  /** Every text contains itself. */
  lemma ContainsSelf(s: string)
    ensures Contains(s, s)
  {
    assert s[0..|s|] == s;
    assert OccursAt(s, s, 0);
  }

  /** What occurs in `a` occurs in `a + b`. */
  lemma ContainsInPrefix(a: string, b: string, pat: string)
    requires Contains(a, pat)
    ensures Contains(a + b, pat)
  {
    var i :| 0 <= i <= |a| && OccursAt(a, pat, i);
    assert (a + b)[i..i + |pat|] == a[i..i + |pat|];
    assert OccursAt(a + b, pat, i);
  }

  /** What occurs in `b` occurs in `a + b`. */
  lemma ContainsInSuffix(a: string, b: string, pat: string)
    requires Contains(b, pat)
    ensures Contains(a + b, pat)
  {
    assert (a + b)[|a|..] == b;
    ContainsSuffix(a + b, pat, |a|);
  }

  /** Text in which the pattern does not occur is left as it is. */
  lemma {:induction false} ReplaceAllAbsent(s: string, pat: string, rep: string)
    requires |pat| > 0 && !Contains(s, pat)
    ensures ReplaceAll(s, pat, rep) == s
    decreases |s|
  {
    if |s| >= |pat| {
      assert !OccursAt(s, pat, 0);
      assert s[..|pat|] != pat;
      if Contains(s[1..], pat) {
        ContainsSuffix(s, pat, 1);
      }
      ReplaceAllAbsent(s[1..], pat, rep);
    }
  }

  lemma OccursShift(s: string, pat: string, i: nat)
    requires |s| > 0
    ensures OccursAt(s[1..], pat, i) <==> OccursAt(s, pat, i + 1)
  {
    if i + 1 + |pat| <= |s| {
      assert s[1..][i..i + |pat|] == s[i + 1..i + 1 + |pat|];
    }
  }

  /** Where no occurrence starts at the front, the first character is copied. */
  lemma ReplaceAllSkipsOne(s: string, pat: string, rep: string)
    requires |pat| > 0 && |s| > 0 && !OccursAt(s, pat, 0)
    ensures ReplaceAll(s, pat, rep) == [s[0]] + ReplaceAll(s[1..], pat, rep)
  {
  }

  /** Text before the first occurrence is copied as it is. */
  lemma {:induction false} ReplaceAllCopiesPrefix(s: string, k: nat, pat: string, rep: string)
    requires |pat| > 0 && k <= |s|
    requires forall i :: 0 <= i < k ==> !OccursAt(s, pat, i)
    ensures ReplaceAll(s, pat, rep) == s[..k] + ReplaceAll(s[k..], pat, rep)
    decreases k
  {
    if k > 0 {
      var t := s[1..];
      forall i | 0 <= i < k - 1 ensures !OccursAt(t, pat, i) {
        OccursShift(s, pat, i);
      }
      ReplaceAllCopiesPrefix(t, k - 1, pat, rep);
      ReplaceAllSkipsOne(s, pat, rep);
      assert t[k - 1..] == s[k..];
      assert s[..k] == [s[0]] + t[..k - 1];
    }
  }

  /** An occurrence at the front is replaced and the scan goes on after it. */
  lemma ReplaceAllAtFront(pat: string, rest: string, rep: string)
    requires |pat| > 0
    ensures ReplaceAll(pat + rest, pat, rep) == rep + ReplaceAll(rest, pat, rep)
  {
    assert (pat + rest)[..|pat|] == pat;
    assert (pat + rest)[|pat|..] == rest;
  }

  /** A pattern whose first character is missing from `s` does not occur in `s`. */
  lemma FirstCharAbsent(s: string, pat: string)
    requires |pat| > 0 && pat[0] !in s
    ensures !Contains(s, pat)
  {
    forall i | 0 <= i <= |s| ensures !OccursAt(s, pat, i) {
      if i + |pat| <= |s| {
        assert s[i..i + |pat|][0] == s[i];
      }
    }
  }

  /** No occurrence starts inside `before` when it lacks the pattern's first character. */
  lemma NoEarlyOccurrence(before: string, pat: string, after: string)
    requires |pat| > 0 && pat[0] !in before
    ensures forall i :: 0 <= i < |before| ==> !OccursAt(before + pat + after, pat, i)
  {
    var s := before + pat + after;
    forall i | 0 <= i < |before| ensures !OccursAt(s, pat, i) {
      assert s[i] == before[i];
      if i + |pat| <= |s| {
        assert s[i..i + |pat|][0] == s[i];
      }
    }
  }

  /** A text holding the pattern once, with the pattern's first character
      nowhere else, gets exactly that occurrence replaced. */
  lemma ReplaceAllSingleOccurrence(before: string, pat: string, after: string, rep: string)
    requires |pat| > 0 && pat[0] !in before && pat[0] !in after
    ensures ReplaceAll(before + pat + after, pat, rep) == before + rep + after
  {
    var s := before + pat + after;
    var k := |before|;
    NoEarlyOccurrence(before, pat, after);
    ReplaceAllCopiesPrefix(s, k, pat, rep);
    assert s[..k] == before;
    assert s[k..] == pat + after;
    ReplaceAllAtFront(pat, after, rep);
    FirstCharAbsent(after, pat);
    ReplaceAllAbsent(after, pat, rep);
  }

  /** Replacing a pattern by itself changes nothing. */
  lemma {:induction false} ReplaceAllSelf(s: string, pat: string)
    ensures ReplaceAll(s, pat, pat) == s
    decreases |s|
  {
    if |pat| == 0 {
      InsertEmpty(s);
    } else if |s| >= |pat| {
      if s[..|pat|] == pat {
        ReplaceAllSelf(s[|pat|..], pat);
        assert s == s[..|pat|] + s[|pat|..];
      } else {
        ReplaceAllSelf(s[1..], pat);
        assert s == [s[0]] + s[1..];
      }
    }
  }

  lemma {:induction false} InsertEmpty(s: string)
    ensures InsertAtBoundaries(s, []) == s
  {
    if |s| > 0 {
      InsertEmpty(s[1..]);
      assert s == [s[0]] + s[1..];
    }
  }

  /** Each replaced occurrence changes the length by `|rep| - |pat|`. */
  lemma {:induction false} ReplaceAllLength(s: string, pat: string, rep: string)
    requires |pat| > 0
    ensures |ReplaceAll(s, pat, rep)| == |s| + MatchCount(s, pat) * (|rep| - |pat|)
    decreases |s|
  {
    if |s| >= |pat| {
      if s[..|pat|] == pat {
        ReplaceAllLength(s[|pat|..], pat, rep);
        Distribute(MatchCount(s[|pat|..], pat), |rep| - |pat|);
      } else {
        ReplaceAllLength(s[1..], pat, rep);
      }
    }
  }

  lemma Distribute(c: int, d: int)
    ensures (1 + c) * d == d + c * d
  {
  }

  lemma NonZeroProduct(c: int, d: int)
    requires c > 0 && d != 0
    ensures c * d != 0
  {
  }

  /** Some occurrence is replaced exactly when the pattern occurs. */
  lemma {:induction false} MatchCountPositive(s: string, pat: string)
    requires |pat| > 0
    ensures MatchCount(s, pat) > 0 <==> Contains(s, pat)
    decreases |s|
  {
    if |s| < |pat| {
    } else if s[..|pat|] == pat {
      assert OccursAt(s, pat, 0);
    } else {
      MatchCountPositive(s[1..], pat);
      if Contains(s, pat) {
        ContainsTail(s, pat);
      }
      if Contains(s[1..], pat) {
        ContainsSuffix(s, pat, 1);
      }
    }
  }

  /** With a same-length but different replacement, an occurrence
      always shows in the result. */
  lemma {:induction false} ReplaceAllSameLengthChanges(s: string, pat: string, rep: string)
    requires |pat| > 0 && |rep| == |pat| && rep != pat && Contains(s, pat)
    ensures ReplaceAll(s, pat, rep) != s
    decreases |s|
  {
    if s[..|pat|] == pat {
      var r := ReplaceAll(s, pat, rep);
      assert r[..|pat|] == rep;
    } else {
      ContainsTail(s, pat);
      ReplaceAllSameLengthChanges(s[1..], pat, rep);
      var r := ReplaceAll(s, pat, rep);
      assert r[1..] == ReplaceAll(s[1..], pat, rep);
      assert s == [s[0]] + s[1..];
    }
  }

  /** `s.replace(pat, rep) == s` holds exactly when `pat` does not occur
      in `s` or the replacement is the pattern itself. */
  lemma ReplaceAllUnchanged(s: string, pat: string, rep: string)
    ensures ReplaceAll(s, pat, rep) == s <==> (!Contains(s, pat) || rep == pat)
  {
    if |pat| == 0 {
      assert s[0..0] == pat;
      assert OccursAt(s, pat, 0);
      if rep == pat {
        InsertEmpty(s);
      } else {
        NonZeroProduct(|s| + 1, |rep|);
        assert |ReplaceAll(s, pat, rep)| != |s|;
      }
    } else if !Contains(s, pat) {
      ReplaceAllAbsent(s, pat, rep);
    } else if rep == pat {
      ReplaceAllSelf(s, pat);
    } else if |rep| == |pat| {
      ReplaceAllSameLengthChanges(s, pat, rep);
    } else {
      MatchCountPositive(s, pat);
      ReplaceAllLength(s, pat, rep);
      NonZeroProduct(MatchCount(s, pat), |rep| - |pat|);
      assert |ReplaceAll(s, pat, rep)| != |s|;
    }
  }

  /** `s` with every `"` removed, written as a filter. */
  function WithoutQuotes(s: string): (r: string)
    ensures '"' !in r
    ensures |r| <= |s|
    ensures forall c :: c in r ==> c in s
  {
    if |s| == 0 then []
    else
      var tail := WithoutQuotes(s[1..]);
      assert forall c :: c in tail ==> c in s by {
        forall c | c in tail ensures c in s {
          var k :| 0 <= k < |s[1..]| && s[1..][k] == c;
          assert s[k + 1] == c;
        }
      }
      if s[0] == '"' then tail else [s[0]] + tail
  }

  /** Filtering distributes over concatenation. */
  lemma {:induction false} WithoutQuotesConcat(a: string, b: string)
    ensures WithoutQuotes(a + b) == WithoutQuotes(a) + WithoutQuotes(b)
  {
    if |a| > 0 {
      WithoutQuotesConcat(a[1..], b);
      assert (a + b)[0] == a[0];
      assert (a + b)[1..] == a[1..] + b;
    } else {
      assert a + b == b;
    }
  }

  /** Text without `"` passes the filter unchanged. */
  lemma {:induction false} WithoutQuotesIdentity(s: string)
    requires '"' !in s
    ensures WithoutQuotes(s) == s
  {
    if |s| > 0 {
      assert s[0] != '"';
      assert '"' !in s[1..];
      WithoutQuotesIdentity(s[1..]);
      assert s == [s[0]] + s[1..];
    }
  }

  /** Removing the quote pattern is exactly filtering out `"` characters. */
  lemma {:induction false} StripQuotesFilters(s: string)
    ensures ReplaceAll(s, "\"", "") == WithoutQuotes(s)
    decreases |s|
  {
    if |s| > 0 {
      StripQuotesFilters(s[1..]);
      assert s[..1] == [s[0]];
    }
  }

  /** `value.replace("\"", "")`, as the runner applies it to every stored
      value: the value with its `"` characters filtered out. */
  function StripQuotes(s: string): (r: string)
    ensures r == WithoutQuotes(s)
  {
    StripQuotesFilters(s);
    ReplaceAll(s, "\"", "")
  }

  /** A stripped value contains no `"`, and stripping changes a value
      exactly when it contains one. */
  lemma StripQuotesSpec(s: string)
    ensures '"' !in StripQuotes(s)
    ensures StripQuotes(s) == s <==> '"' !in s
  {
    StripQuotesFilters(s);
    ReplaceAllUnchanged(s, "\"", "");
    if '"' in s {
      var k :| 0 <= k < |s| && s[k] == '"';
      assert OccursAt(s, "\"", k);
    }
  }

  // ASCII digits

  predicate IsDigit(c: char) {
    '0' <= c <= '9'
  }

  predicate AllDigits(s: string) {
    forall i :: 0 <= i < |s| ==> IsDigit(s[i])
  }

  /** The value of a run of decimal digits, most significant first. */
  function DigitsValue(d: string): nat
    requires AllDigits(d)
  {
    if |d| == 0 then 0
    else DigitsValue(d[..|d| - 1]) * 10 + (d[|d| - 1] as int - '0' as int)
  }

  function DigitChar(k: nat): (c: char)
    requires k < 10
    ensures IsDigit(c) && c as int - '0' as int == k
  {
    ('0' as int + k) as char
  }

  /** The decimal text of `n`, as Rust's integer formatting writes it. */
  function NatToDigits(n: nat): (d: string)
    ensures |d| > 0 && AllDigits(d)
    ensures |d| > 1 ==> d[0] != '0'
  {
    if n < 10 then [DigitChar(n)]
    else NatToDigits(n / 10) + [DigitChar(n % 10)]
  }

  /** Reading back the decimal text of `n` gives `n`. */
  lemma {:induction false} DigitsRoundTrip(n: nat)
    ensures DigitsValue(NatToDigits(n)) == n
  {
    if n >= 10 {
      DigitsRoundTrip(n / 10);
      var d := NatToDigits(n);
      assert d[..|d| - 1] == NatToDigits(n / 10);
    }
  }
}
