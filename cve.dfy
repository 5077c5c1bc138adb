/** CVE identifiers in a serialised document: every match of the
    case-insensitive pattern `\bCVE-\d{4}-\d{4,7}\b`, as `re.findall` reports
    them, uppercased and collected into a set. `\d`, `\w` and `\b` are taken
    over ASCII. */
module Cve {
  import opened Wrappers
  import opened Text

  /** The canonical identifier form `^CVE-\d{4}-\d{4,7}$`. */
  predicate IsCveId(x: string)
  {
    13 <= |x| <= 16 && x[..4] == "CVE-" && AllDigits(x[4..8]) && x[8] == '-' && AllDigits(x[9..])
  }

  /** The number of consecutive ASCII digits in `s` from index `p` on. */
  function DigitRun(s: string, p: nat): (n: nat)
    requires p <= |s|
    ensures p + n <= |s|
    ensures forall k :: p <= k < p + n ==> IsDigit(s[k])
    ensures p + n == |s| || !IsDigit(s[p + n])
    decreases |s| - p
  {
    if p < |s| && IsDigit(s[p]) then 1 + DigitRun(s, p + 1) else 0
  }

  /** `CVE-dddd-` in any letter case at index `p`. */
  predicate HeadAt(s: string, p: nat)
  {
    p + 9 <= |s|
    && UpperChar(s[p]) == 'C' && UpperChar(s[p + 1]) == 'V' && UpperChar(s[p + 2]) == 'E'
    && s[p + 3] == '-'
    && IsDigit(s[p + 4]) && IsDigit(s[p + 5]) && IsDigit(s[p + 6]) && IsDigit(s[p + 7])
    && s[p + 8] == '-'
  }

  /** The length of the match that starts at `p`, if one does. `\b` before the
      `C` needs a non-word character (or the start) in front; `\d{4,7}\b` needs
      a maximal run of four to seven digits followed by a non-word character
      (or the end), so eight or more digits never match. */
  function MatchAt(s: string, p: nat): (r: Option<nat>)
    requires p <= |s|
    ensures r.Some? ==> 13 <= r.value <= 16 && p + r.value <= |s| && UpperChar(s[p]) == 'C'
  {
    if (p == 0 || !IsWordChar(s[p - 1])) && HeadAt(s, p) then
      var n := DigitRun(s, p + 9);
      if 4 <= n <= 7 && (p + 9 + n == |s| || !IsWordChar(s[p + 9 + n])) then Some(9 + n) else None
    else None
  }

  /** The uppercased text of the match at `p`. */
  function MatchText(s: string, p: nat): string
    requires p <= |s| && MatchAt(s, p).Some?
  {
    Upper(s[p..p + MatchAt(s, p).value])
  }

  lemma MatchTextIsCveId(s: string, p: nat)
    requires p <= |s| && MatchAt(s, p).Some?
    ensures IsCveId(MatchText(s, p))
  {
    var m := MatchAt(s, p).value;
    var x := MatchText(s, p);
    forall k | 0 <= k < m ensures x[k] == UpperChar(s[p + k]) {
      assert s[p..p + m][k] == s[p + k];
    }
    assert x[..4] == "CVE-";
    forall k | 4 <= k < m && k != 8 ensures IsDigit(x[k]) {
      UpperCharFacts(s[p + k]);
    }
  }

  /** `\b` on both sides of the window `s[p..p + m]`: no word character just
      before it, and none just after it. */
  predicate Delimited(s: string, p: nat, m: nat)
  {
    p + m <= |s|
    && (p == 0 || !IsWordChar(s[p - 1]))
    && (p + m == |s| || !IsWordChar(s[p + m]))
  }

  /** A match of length `m` starts at `p` exactly when the window there is
      delimited on both sides and reads, uppercased, as an identifier. */
  lemma MatchAtIff(s: string, p: nat, m: nat)
    requires p <= |s|
    ensures MatchAt(s, p) == Some(m) <==>
              13 <= m <= 16 && Delimited(s, p, m) && IsCveId(Upper(s[p..p + m]))
  {
    if MatchAt(s, p) == Some(m) {
      MatchTextIsCveId(s, p);
    }
    if 13 <= m <= 16 && Delimited(s, p, m) && IsCveId(Upper(s[p..p + m])) {
      MatchAtComplete(s, p, m);
    }
  }

  lemma MatchAtComplete(s: string, p: nat, m: nat)
    requires 13 <= m <= 16 && Delimited(s, p, m) && IsCveId(Upper(s[p..p + m]))
    ensures MatchAt(s, p) == Some(m)
  {
    IdWindowHead(s, p, m);
    IdWindowDigits(s, p, m);
    assert DigitRun(s, p + 9) == m - 9;
  }

  /** An identifier window starts with `CVE-dddd-` in some letter case. */
  lemma IdWindowHead(s: string, p: nat, m: nat)
    requires 13 <= m && p + m <= |s| && IsCveId(Upper(s[p..p + m]))
    ensures HeadAt(s, p)
  {
    var w := s[p..p + m];
    var x := Upper(w);
    assert x[..4] == "CVE-";
    assert x[0] == 'C' && x[1] == 'V' && x[2] == 'E' && x[3] == '-';
    assert w[0] == s[p] && w[1] == s[p + 1] && w[2] == s[p + 2] && w[3] == s[p + 3] && w[8] == s[p + 8];
    forall j | p + 4 <= j < p + 8 ensures IsDigit(s[j]) {
      assert x[4..8][j - p - 4] == x[j - p];
      assert w[j - p] == s[j];
      UpperCharFacts(s[j]);
    }
  }

  /** After the head, an identifier window holds nothing but digits. */
  lemma IdWindowDigits(s: string, p: nat, m: nat)
    requires 13 <= m && p + m <= |s| && IsCveId(Upper(s[p..p + m]))
    ensures forall j :: p + 9 <= j < p + m ==> IsDigit(s[j])
  {
    var w := s[p..p + m];
    var x := Upper(w);
    forall j | p + 9 <= j < p + m ensures IsDigit(s[j]) {
      assert x[9..][j - p - 9] == x[j - p];
      assert w[j - p] == s[j];
      UpperCharFacts(s[j]);
    }
  }

  /** Every delimited identifier in the blob, in any letter case, is
      reported. */
  lemma DelimitedIdIsExtracted(s: string, p: nat, m: nat)
    requires p <= |s| && 13 <= m <= 16 && Delimited(s, p, m) && IsCveId(Upper(s[p..p + m]))
    ensures Upper(s[p..p + m]) in Extract(s)
  {
    MatchAtIff(s, p, m);
    ExtractIsEveryMatch(s, Upper(s[p..p + m]));
  }

  /** Eight digits after the year are too many: `\d{4,7}\b` cannot stop
      inside the run, so nothing is reported. */
  lemma EightDigitsNoMatch()
    ensures Extract("CVE-2021-12345678") == {}
  {
    var s := "CVE-2021-12345678";
    forall p | 0 <= p < |s| ensures MatchAt(s, p).None? {
      if p != 0 {
        assert s[p] in "VE-0123456789";
      }
    }
    forall x ensures x !in Extract(s) {
      ExtractIsEveryMatch(s, x);
    }
  }

  /** No match starts strictly inside another: inside, no character is a `C`. */
  lemma NoMatchInside(s: string, p: nat, q: nat)
    requires p <= |s| && MatchAt(s, p).Some?
    requires p < q < p + MatchAt(s, p).value
    ensures MatchAt(s, q).None?
  {
    if 4 <= q - p {
      UpperCharFacts(s[q]);
    }
  }

  /** What the scan reports at `p` itself: the uppercased match, if one
      starts there. */
  function FoundAt(s: string, p: nat): set<string>
    requires p <= |s|
  {
    match MatchAt(s, p)
    case Some(_) => {MatchText(s, p)}
    case None => {}
  }

  /** Where the scan resumes after position `p`: at the end of the match that
      starts there, otherwise one character further. */
  function Advance(s: string, p: nat): (q: nat)
    requires p < |s|
    ensures p < q <= |s|
  {
    match MatchAt(s, p)
    case Some(m) => p + m
    case None => p + 1
  }

  /** `re.findall` from index `p` on, uppercased and collected. */
  function ExtractFrom(s: string, p: nat): set<string>
    requires p <= |s|
    decreases |s| - p
  {
    if p == |s| then {} else FoundAt(s, p) + ExtractFrom(s, Advance(s, p))
  }

  /** `{c.upper() for c in CVE_REGEX.findall(blob)}`: every member is an
      identifier in canonical form. */
  function Extract(blob: string): (r: set<string>)
    ensures forall x :: x in r ==> IsCveId(x)
  {
    assert forall x :: x in ExtractFrom(blob, 0) ==> IsCveId(x) by {
      forall x | x in ExtractFrom(blob, 0) ensures IsCveId(x) {
        var p := ExtractedIsMatch(blob, 0, x);
        MatchTextIsCveId(blob, p);
      }
    }
    ExtractFrom(blob, 0)
  }

  /** `count_cves`: the number of distinct identifiers in the blob, never
      more than fit in it. */
  function CountCves(blob: string): (n: nat)
    ensures n == |Extract(blob)|
    ensures 13 * n <= |blob|
  {
    ExtractFromBound(blob, 0);
    |Extract(blob)|
  }

  /** One step of the scan adds at most one identifier per 13 characters it
      consumes. */
  lemma ExtractFromCard(s: string, p: nat)
    requires p < |s|
    ensures 13 * |ExtractFrom(s, p)| <= 13 * |ExtractFrom(s, Advance(s, p))| + (Advance(s, p) - p)
  {
    var found, rest := FoundAt(s, p), ExtractFrom(s, Advance(s, p));
    assert ExtractFrom(s, p) == found + rest;
    assert 13 * |found| <= Advance(s, p) - p;
    assert |found + rest| <= |found| + |rest|;
  }

  /** A left-to-right scan over positions `0..|count| - 1`: `count[q]` items
      are found from `q` on, none at the end, and from each earlier `q` the
      scan moves on to `next[q]`, gaining at most one item per 13 positions. */
  lemma {:induction false} ScanBound(count: seq<nat>, next: seq<nat>, p: nat)
    requires |next| + 1 == |count| && p < |count|
    requires count[|next|] == 0
    requires forall q :: p <= q < |next| ==>
               q < next[q] < |count| && 13 * count[q] <= 13 * count[next[q]] + (next[q] - q)
    ensures 13 * count[p] <= |next| - p
    decreases |next| - p
  {
    if p < |next| {
      ScanBound(count, next, next[p]);
    }
  }

  /** Each reported identifier consumes at least 13 characters of the blob. */
  lemma ExtractFromBound(s: string, p: nat)
    requires p <= |s|
    ensures 13 * |ExtractFrom(s, p)| <= |s| - p
  {
    var count := seq(|s| + 1, q requires 0 <= q <= |s| => |ExtractFrom(s, q)|);
    var next := seq(|s|, q requires 0 <= q < |s| => Advance(s, q));
    forall q | p <= q < |next|
      ensures q < next[q] < |count| && 13 * count[q] <= 13 * count[next[q]] + (next[q] - q)
    {
      ExtractFromCard(s, q);
    }
    assert ExtractFrom(s, |s|) == {};
    ScanBound(count, next, p);
  }

  /** Every identifier the scan reports is the text of a match at or after `p0`. */
  lemma {:induction false} ExtractedIsMatch(s: string, p0: nat, x: string) returns (p: nat)
    requires p0 <= |s| && x in ExtractFrom(s, p0)
    ensures p0 <= p < |s| && MatchAt(s, p).Some? && x == MatchText(s, p)
    decreases |s| - p0
  {
    assert p0 < |s|;
    if x in FoundAt(s, p0) {
      p := p0;
    } else {
      p := ExtractedIsMatch(s, Advance(s, p0), x);
    }
  }

  /** Every match at or after `p0` is reported by the scan from `p0`. */
  lemma {:induction false} MatchIsExtracted(s: string, p0: nat, p: nat)
    requires p0 <= p < |s| && MatchAt(s, p).Some?
    ensures MatchText(s, p) in ExtractFrom(s, p0)
    decreases |s| - p0
  {
    if p == p0 {
      assert MatchText(s, p) in FoundAt(s, p0);
    } else {
      NoSkip(s, p0, p);
      MatchIsExtracted(s, Advance(s, p0), p);
    }
  }

  /** The scan never jumps over the start of a match. */
  lemma NoSkip(s: string, p0: nat, p: nat)
    requires p0 < p < |s| && MatchAt(s, p).Some?
    ensures Advance(s, p0) <= p
  {
    if MatchAt(s, p0).Some? && p < p0 + MatchAt(s, p0).value {
      NoMatchInside(s, p0, p);
    }
  }

  /** The result holds the uppercased text of every match in the blob, and
      nothing else. */
  lemma ExtractIsEveryMatch(blob: string, x: string)
    ensures x in Extract(blob) <==>
            exists p :: 0 <= p < |blob| && MatchAt(blob, p).Some? && x == MatchText(blob, p)
  {
    if x in Extract(blob) {
      var p := ExtractedIsMatch(blob, 0, x);
    }
    if exists p :: 0 <= p < |blob| && MatchAt(blob, p).Some? && x == MatchText(blob, p) {
      var p :| 0 <= p < |blob| && MatchAt(blob, p).Some? && x == MatchText(blob, p);
      MatchIsExtracted(blob, 0, p);
    }
  }

  // ---------------------------------------------------------------
  // Case-insensitivity
  // ---------------------------------------------------------------

  /** `s` and `u` differ at most in the letter case of their characters. */
  predicate SameUpToCase(s: string, u: string)
  {
    |s| == |u| && forall k :: 0 <= k < |s| ==> SameCaseAt(s, u, k)
  }

  predicate SameCaseAt(s: string, u: string, k: nat)
    requires k < |s| && k < |u|
  {
    UpperChar(s[k]) == UpperChar(u[k])
  }

  /** Characters that agree up to case agree on every class the pattern reads. */
  lemma SameClasses(s: string, u: string, k: nat)
    requires SameUpToCase(s, u) && k < |s|
    ensures UpperChar(u[k]) == UpperChar(s[k])
    ensures IsWordChar(u[k]) == IsWordChar(s[k])
    ensures IsDigit(u[k]) == IsDigit(s[k])
    ensures (u[k] == '-') == (s[k] == '-')
  {
    assert SameCaseAt(s, u, k);
    UpperCharFacts(s[k]);
    UpperCharFacts(u[k]);
  }

  lemma {:induction false} DigitRunSameUpToCase(s: string, u: string, p: nat)
    requires SameUpToCase(s, u) && p <= |s|
    ensures DigitRun(u, p) == DigitRun(s, p)
    decreases |s| - p
  {
    if p < |s| {
      SameClasses(s, u, p);
      DigitRunSameUpToCase(s, u, p + 1);
    }
  }

  lemma HeadAtSameUpToCase(s: string, u: string, p: nat)
    requires SameUpToCase(s, u) && p + 9 <= |s|
    ensures HeadAt(u, p) == HeadAt(s, p)
  {
    SameClasses(s, u, p); SameClasses(s, u, p + 1); SameClasses(s, u, p + 2);
    SameClasses(s, u, p + 3); SameClasses(s, u, p + 4); SameClasses(s, u, p + 5);
    SameClasses(s, u, p + 6); SameClasses(s, u, p + 7); SameClasses(s, u, p + 8);
  }

  /** `MatchAt` looks only at character classes around the candidate. */
  lemma MatchAtSameClasses(s: string, u: string, p: nat)
    requires p <= |s| && |u| == |s|
    requires p > 0 ==> IsWordChar(u[p - 1]) == IsWordChar(s[p - 1])
    requires p + 9 <= |s| ==> HeadAt(u, p) == HeadAt(s, p)
    requires p + 9 <= |s| ==> DigitRun(u, p + 9) == DigitRun(s, p + 9)
    requires p + 9 <= |s| && p + 9 + DigitRun(s, p + 9) < |s| ==>
               IsWordChar(u[p + 9 + DigitRun(s, p + 9)]) == IsWordChar(s[p + 9 + DigitRun(s, p + 9)])
    ensures MatchAt(u, p) == MatchAt(s, p)
  {
  }

  lemma MatchAtSameUpToCase(s: string, u: string, p: nat)
    requires SameUpToCase(s, u) && p <= |s|
    ensures MatchAt(u, p) == MatchAt(s, p)
  {
    if p > 0 { SameClasses(s, u, p - 1); }
    if p + 9 <= |s| {
      HeadAtSameUpToCase(s, u, p);
      DigitRunSameUpToCase(s, u, p + 9);
      var n := DigitRun(s, p + 9);
      if p + 9 + n < |s| { SameClasses(s, u, p + 9 + n); }
    }
    MatchAtSameClasses(s, u, p);
  }

  lemma MatchTextSameUpToCase(s: string, u: string, p: nat)
    requires SameUpToCase(s, u) && p <= |s| && MatchAt(s, p).Some?
    ensures MatchAt(u, p) == MatchAt(s, p)
    ensures MatchText(u, p) == MatchText(s, p)
  {
    MatchAtSameUpToCase(s, u, p);
    var m := MatchAt(s, p).value;
    var su, ss := u[p..p + m], s[p..p + m];
    var a, b := Upper(su), Upper(ss);
    forall k | 0 <= k < m ensures a[k] == b[k] {
      assert su[k] == u[p + k] && ss[k] == s[p + k];
      assert SameCaseAt(s, u, p + k);
    }
    assert a == b;
    assert MatchText(u, p) == a && MatchText(s, p) == b;
  }

  lemma {:induction false} ExtractFromSameUpToCase(s: string, u: string, p: nat)
    requires SameUpToCase(s, u) && p <= |s|
    ensures ExtractFrom(u, p) == ExtractFrom(s, p)
    decreases |s| - p
  {
    if p < |s| {
      StepSameUpToCase(s, u, p);
      ExtractFromSameUpToCase(s, u, Advance(s, p));
    }
  }

  /** One step of the scan reads the same in both blobs. */
  lemma StepSameUpToCase(s: string, u: string, p: nat)
    requires SameUpToCase(s, u) && p < |s|
    ensures FoundAt(u, p) == FoundAt(s, p) && Advance(u, p) == Advance(s, p)
  {
    MatchAtSameUpToCase(s, u, p);
    if MatchAt(s, p).Some? {
      MatchTextSameUpToCase(s, u, p);
    }
  }


  /** The scan ignores letter case: two blobs that differ only in the case of
      their letters hold the same identifiers. */
  lemma ExtractIgnoresCase(blob: string, other: string)
    requires SameUpToCase(blob, other)
    ensures Extract(other) == Extract(blob)
  {
    ExtractFromSameUpToCase(blob, other, 0);
  }

  /** In particular, uppercasing the blob first changes nothing. */
  lemma ExtractUpper(blob: string)
    ensures Extract(Upper(blob)) == Extract(blob)
  {
    forall k | 0 <= k < |blob| ensures SameCaseAt(blob, Upper(blob), k) {
      UpperCharFacts(blob[k]);
    }
    ExtractIgnoresCase(blob, Upper(blob));
  }
}
