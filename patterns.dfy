/** The regular expressions the admission layer matches file and directory names
    against. Each has the shape  c1 … ck \d+ t1 … tm [$]  (fixed character classes
    around one run of decimal digits, optionally anchored at the end), and each is
    used with re.search: the leftmost position at which the pattern matches wins. */
module Patterns {
  import opened Common

  /** The characters one position of a pattern accepts. */
  type CharClass = set<char>

  datatype Pattern = Pattern(lead: seq<CharClass>, trail: seq<CharClass>, anchored: bool)

  /** The greedy digit run decides the match alone: either the trail starts with a
      class that rejects every digit, or there is no trail and the pattern ends at `$`. */
  predicate WellFormed(p: Pattern)
  {
    if p.trail == [] then p.anchored else forall c <- p.trail[0] :: !IsDigit(c)
  }

  /** `GSM\d+$` and `GSE\d+$`: a sample or series accession at the end of a name. */
  function AccessionAtEnd(tag: string): Pattern
  {
    Pattern(Literal(tag), [], true)
  }

  /** `(GSE\d+)\_family\.soft\.subset`: the name of a series' soft file. */
  const SoftFile: Pattern := Pattern(Literal("GSE"), Literal("_family.soft.subset"), false)

  /** `[SER]RR\d+_[12]\.fastq\.gz` with re.IGNORECASE: a converted read file. */
  const FastqGz: Pattern :=
    Pattern([{'S', 'E', 'R', 's', 'e', 'r'}, {'R', 'r'}, {'R', 'r'}],
            [{'_'}, {'1', '2'}, {'.'}, {'F', 'f'}, {'A', 'a'}, {'S', 's'}, {'T', 't'}, {'Q', 'q'},
             {'.'}, {'G', 'g'}, {'Z', 'z'}],
            false)

  /** One singleton class per character. */
  function Literal(s: string): (r: seq<CharClass>)
    ensures |r| == |s| && forall i :: 0 <= i < |s| ==> r[i] == {s[i]}
  {
    seq(|s|, i requires 0 <= i < |s| => {s[i]})
  }

  /** The classes `cs` accept the characters of `s` from position `k` on. */
  predicate ClassesAt(cs: seq<CharClass>, s: string, k: nat)
  {
    k + |cs| <= |s| && forall j :: 0 <= j < |cs| ==> s[k + j] in cs[j]
  }

  /** The length of the run of digits that starts at position `i`. */
  function DigitRun(s: string, i: nat): (n: nat)
    requires i <= |s|
    ensures i + n <= |s|
    decreases |s| - i
  {
    if i == |s| || !IsDigit(s[i]) then 0 else 1 + DigitRun(s, i + 1)
  }

  /** The run is maximal: all its characters are digits and the next one is not. */
  lemma {:induction false} DigitRunIsMaximal(s: string, i: nat)
    requires i <= |s|
    ensures var n := DigitRun(s, i);
      && (forall j :: i <= j < i + n ==> IsDigit(s[j]))
      && (i + n < |s| ==> !IsDigit(s[i + n]))
    decreases |s| - i
  {
    if i < |s| && IsDigit(s[i]) {
      DigitRunIsMaximal(s, i + 1);
    }
  }

  /** Where a match of `p` starting at `k` ends, taking the digit run greedily. */
  function MatchAt(p: Pattern, s: string, k: nat): Option<nat>
    requires k <= |s|
  {
    if !ClassesAt(p.lead, s, k) then None
    else
      var d := DigitRun(s, k + |p.lead|);
      var e := k + |p.lead| + d;
      if d == 0 || !ClassesAt(p.trail, s, e) || (p.anchored && e + |p.trail| != |s|) then None
      else Some(e + |p.trail|)
  }

  /** The regular-expression reading: the pattern matches at `k` with a digit run of length `d`. */
  predicate MatchesWith(p: Pattern, s: string, k: nat, d: nat)
  {
    var e := k + |p.lead| + d;
    && d >= 1
    && ClassesAt(p.lead, s, k)
    && e <= |s|
    && (forall j :: k + |p.lead| <= j < e ==> IsDigit(s[j]))
    && ClassesAt(p.trail, s, e)
    && (p.anchored ==> e + |p.trail| == |s|)
  }

  /** For a well-formed pattern the greedy reading is exactly the regular-expression
      reading: a match at `k` exists iff some digit run makes the pattern match, and
      then that run is the greedy one. */
  lemma MatchAtIsRegexMatch(p: Pattern, s: string, k: nat, d: nat)
    requires WellFormed(p) && k <= |s|
    ensures MatchesWith(p, s, k, d) <==> MatchAt(p, s, k) == Some(k + |p.lead| + d + |p.trail|)
  {
    if k + |p.lead| <= |s| {
      DigitRunIsMaximal(s, k + |p.lead|);
    }
    if MatchesWith(p, s, k, d) {
      var run := DigitRun(s, k + |p.lead|);
      if d != run {
        assert false;
      }
    }
  }

  /** re.search from position `k`: the leftmost start at or after `k` where `p`
      matches, with the end of that match. */
  function SearchFrom(p: Pattern, s: string, k: nat): (r: Option<(nat, nat)>)
    requires k <= |s|
    ensures r.Some? ==> k <= r.value.0 && r.value.0 + |p.trail| <= r.value.1 <= |s|
    decreases |s| - k
  {
    match MatchAt(p, s, k)
    case Some(e) => Some((k, e))
    case None => if k == |s| then None else SearchFrom(p, s, k + 1)
  }

  /** The search finds the leftmost match: it reports a start where the pattern
      matches and no earlier one, and reports nothing only when no start matches. */
  lemma {:induction false} SearchFromIsLeftmost(p: Pattern, s: string, k: nat)
    requires k <= |s|
    ensures var r := SearchFrom(p, s, k);
      && (r.Some? ==> MatchAt(p, s, r.value.0) == Some(r.value.1))
      && (r.Some? ==> forall j :: k <= j < r.value.0 ==> MatchAt(p, s, j).None?)
      && (r.None? ==> forall j :: k <= j <= |s| ==> MatchAt(p, s, j).None?)
    decreases |s| - k
  {
    if MatchAt(p, s, k).None? && k < |s| {
      SearchFromIsLeftmost(p, s, k + 1);
    }
  }

  /** re.search over the whole string. */
  function Search(p: Pattern, s: string): Option<(nat, nat)>
  {
    SearchFrom(p, s, 0)
  }

  /** `bool(re.search(p, s))` */
  predicate Matches(p: Pattern, s: string)
  {
    Search(p, s).Some?
  }

  /** `re.search(p, s).group(0)`: the matched text, when there is a match. */
  function Group0(p: Pattern, s: string): (r: Option<string>)
    ensures r.Some? <==> Matches(p, s)
  {
    match Search(p, s)
    case None => None
    case Some((a, e)) => Some(s[a..e])
  }

  /** The matched text is a piece of `s` that the pattern, searched on its own,
      matches from its first character to its last. */
  lemma Group0MatchesInFull(p: Pattern, s: string)
    requires WellFormed(p)
    ensures var r := Group0(p, s);
      r.Some? ==> MatchAt(p, r.value, 0) == Some(|r.value|)
  {
    SearchFromIsLeftmost(p, s, 0);
    if Search(p, s).Some? {
      var (a, e) := Search(p, s).value;
      var t := s[a..e];
      var d := DigitRun(s, a + |p.lead|);
      assert MatchAt(p, s, a) == Some(e);
      assert e == a + |p.lead| + d + |p.trail|;
      MatchAtIsRegexMatch(p, s, a, d);
      assert MatchesWith(p, t, 0, d) by {
        forall j | 0 <= j < |t| ensures t[j] == s[a + j] {}
      }
      MatchAtIsRegexMatch(p, t, 0, d);
    }
  }

  /** The text matched by the lead classes and the digit run (the group `(GSE\d+)`). */
  function LeadAndDigits(p: Pattern, s: string): (r: Option<string>)
    ensures r.Some? <==> Matches(p, s)
  {
    match Search(p, s)
    case None => None
    case Some((a, e)) => Some(s[a..e - |p.trail|])
  }

  /** `s` ends with `tag` followed by exactly `d` >= 1 digits. */
  predicate EndsWithAccession(tag: string, s: string, d: nat)
  {
    1 <= d && |tag| + d <= |s| && s[|s| - d - |tag|..|s| - d] == tag &&
    forall j :: |s| - d <= j < |s| ==> IsDigit(s[j])
  }

  /** `s` ends with `tag` followed by one or more digits. */
  predicate HasAccessionSuffix(tag: string, s: string)
  {
    exists d: nat | d <= |s| :: EndsWithAccession(tag, s, d)
  }

  /** A match of `TAG\d+$` ends the name with the tag and a digit run. */
  lemma AccessionMatchIsSuffix(tag: string, s: string)
    requires tag != [] && !IsDigit(tag[|tag| - 1])
    requires Matches(AccessionAtEnd(tag), s)
    ensures HasAccessionSuffix(tag, s)
  {
    var p := AccessionAtEnd(tag);
    var (k, e) := Search(p, s).value;
    assert MatchAt(p, s, k) == Some(e) by {
      SearchFromIsLeftmost(p, s, 0);
    }
    var d := DigitRun(s, k + |tag|);
    DigitRunIsMaximal(s, k + |tag|);
    assert ClassesAt(p.lead, s, k);
    assert e == |s| && k + |tag| + d == |s|;
    assert s[k..k + |tag|] == tag by {
      forall j | 0 <= j < |tag| ensures s[k + j] == tag[j] {
        assert s[k + j] in p.lead[j];
      }
    }
    assert EndsWithAccession(tag, s, d);
  }

  /** A name that ends with the tag and a digit run matches `TAG\d+$`. */
  lemma SuffixMatchesAccession(tag: string, s: string, d: nat)
    requires tag != [] && !IsDigit(tag[|tag| - 1])
    requires EndsWithAccession(tag, s, d)
    ensures Matches(AccessionAtEnd(tag), s)
  {
    var p := AccessionAtEnd(tag);
    var k := |s| - d - |tag|;
    assert ClassesAt(p.lead, s, k) by {
      forall j | 0 <= j < |tag| ensures s[k + j] in p.lead[j] {
        assert s[k + j] == s[k..k + |tag|][j];
      }
    }
    assert MatchesWith(p, s, k, d);
    MatchAtIsRegexMatch(p, s, k, d);
    assert Search(p, s).Some? by {
      SearchFromIsLeftmost(p, s, 0);
    }
  }

  /** A name matches `TAG\d+$` iff it ends with the tag followed by one or more digits. */
  lemma AccessionAtEndIff(tag: string, s: string)
    requires tag != [] && !IsDigit(tag[|tag| - 1])
    ensures Matches(AccessionAtEnd(tag), s) <==> HasAccessionSuffix(tag, s)
  {
    if Matches(AccessionAtEnd(tag), s) {
      AccessionMatchIsSuffix(tag, s);
    }
    if HasAccessionSuffix(tag, s) {
      var d: nat :| d <= |s| && EndsWithAccession(tag, s, d);
      SuffixMatchesAccession(tag, s, d);
    }
  }

  /** The group `(GSE\d+)` of a soft file's name is "GSE" followed by one or more digits. */
  lemma SoftFileGroup(s: string)
    requires LeadAndDigits(SoftFile, s).Some?
    ensures var g := LeadAndDigits(SoftFile, s).value;
      |g| >= 4 && g[..3] == "GSE" && forall j :: 3 <= j < |g| ==> IsDigit(g[j])
  {
    var (a, e) := Search(SoftFile, s).value;
    assert MatchAt(SoftFile, s, a) == Some(e) by {
      SearchFromIsLeftmost(SoftFile, s, 0);
    }
    var d := DigitRun(s, a + 3);
    DigitRunIsMaximal(s, a + 3);
    assert s[a + 2] in SoftFile.lead[2];
  }
}
