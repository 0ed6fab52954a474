/** String handling the admission layer relies on, written out as Python 2 does it:
    iterating a file line by line, str.strip, str.split(':') into exactly two parts,
    and the byte-wise ordering that sorted() uses. */
module Text {
  import opened Common

  /** The characters str.strip() removes. */
  predicate IsSpace(c: char)
  {
    c == ' ' || c == '\t' || c == '\n' || c == '\r' || c == '\U{000B}' || c == '\U{000C}'
  }

  /** Length of the first line of a non-empty text, including its '\n' when it has one. */
  function LineEnd(s: string): (n: nat)
    requires s != []
    ensures 1 <= n <= |s|
  {
    if s[0] == '\n' || |s| == 1 then 1 else 1 + LineEnd(s[1..])
  }

  /** The first line ends at the first newline, or at the end of the text. */
  lemma {:induction false} LineEndIsFirstNewline(s: string)
    requires s != []
    ensures var n := LineEnd(s);
      && (forall j :: 0 <= j < n - 1 ==> s[j] != '\n')
      && (s[n - 1] == '\n' || n == |s|)
  {
    if s[0] != '\n' && |s| > 1 {
      LineEndIsFirstNewline(s[1..]);
    }
  }

  /** The lines a file iteration yields: each keeps its terminating '\n', the last
      one may lack it. */
  function Lines(s: string): (r: seq<string>)
    decreases |s|
  {
    if s == [] then [] else [s[..LineEnd(s)]] + Lines(s[LineEnd(s)..])
  }

  /** `s` is empty or ends with a newline, so appending starts a fresh line. */
  predicate EndsLine(s: string)
  {
    s == [] || s[|s| - 1] == '\n'
  }

  lemma {:induction false} LineEndOfConcat(a: string, b: string)
    requires a != [] && EndsLine(a)
    ensures LineEnd(a + b) == LineEnd(a)
  {
    if a[0] != '\n' {
      assert |a| > 1;
      assert (a + b)[1..] == a[1..] + b;
      LineEndOfConcat(a[1..], b);
    }
  }

  /** Text that ends a line splits into lines independently of what follows. */
  lemma {:induction false} LinesOfConcat(a: string, b: string)
    requires EndsLine(a)
    ensures Lines(a + b) == Lines(a) + Lines(b)
    decreases |a|
  {
    if a == [] {
      assert a + b == b;
    } else {
      var n := LineEnd(a);
      LineEndOfConcat(a, b);
      assert (a + b)[..n] == a[..n];
      assert (a + b)[n..] == a[n..] + b;
      LinesOfConcat(a[n..], b);
    }
  }

  /** A text without a newline, followed by one, is a single line. */
  lemma LinesOfOneLine(s: string)
    requires '\n' !in s
    ensures Lines(s + "\n") == [s + "\n"]
  {
    var t := s + "\n";
    LineEndIsFirstNewline(t);
    if LineEnd(t) < |t| {
      assert false;
    }
    assert t[..|t|] == t;
  }

  function LStrip(s: string): (r: string)
    ensures r == [] || !IsSpace(r[0])
    ensures |r| <= |s| && r == s[|s| - |r|..]
  {
    if s != [] && IsSpace(s[0]) then LStrip(s[1..]) else s
  }

  function RStrip(s: string): (r: string)
    ensures r == [] || !IsSpace(r[|r| - 1])
    ensures |r| <= |s| && r == s[..|r|]
  {
    if s != [] && IsSpace(s[|s| - 1]) then RStrip(s[..|s| - 1]) else s
  }

  /** str.strip() */
  function Strip(s: string): string
  {
    LStrip(RStrip(s))
  }

  /** No leading or trailing whitespace: str.strip() leaves it unchanged. */
  predicate IsStripped(s: string)
  {
    s == [] || (!IsSpace(s[0]) && !IsSpace(s[|s| - 1]))
  }

  lemma StripOfStripped(s: string)
    requires IsStripped(s)
    ensures Strip(s) == s
  {
  }

  /** Stripping a line drops its newline and nothing of the text before it. */
  lemma StripDropsNewline(s: string)
    requires IsStripped(s)
    ensures Strip(s + "\n") == s
  {
    assert (s + "\n")[..|s|] == s;
    assert RStrip(s + "\n") == RStrip(s);
    assert RStrip(s) == s;
  }

  /** A line that starts with a non-blank character still starts with it once stripped. */
  lemma StripKeepsHead(s: string)
    requires s != [] && !IsSpace(s[0])
    ensures Strip(s) != [] && Strip(s)[0] == s[0]
  {
    var r := RStrip(s);
    assert r != [] by {
      if r == [] { RStripOfNonBlankHead(s); }
    }
    assert r[0] == s[0];
  }

  lemma {:induction false} RStripOfNonBlankHead(s: string)
    requires s != [] && !IsSpace(s[0])
    ensures RStrip(s) != []
    decreases |s|
  {
    if |s| > 1 && IsSpace(s[|s| - 1]) {
      RStripOfNonBlankHead(s[..|s| - 1]);
    }
  }

  predicate StartsWith(s: string, prefix: string)
  {
    IsPrefix(prefix, s)
  }

  /** Python's string ordering: lexicographic by character, a proper prefix first. */
  predicate LexLe(a: string, b: string)
    decreases |a|
  {
    a == [] || (b != [] && (a[0] < b[0] || (a[0] == b[0] && LexLe(a[1..], b[1..]))))
  }

  lemma {:induction false} LexLeTotal(a: string, b: string)
    ensures LexLe(a, b) || LexLe(b, a)
    decreases |a|
  {
    if a != [] && b != [] && a[0] == b[0] {
      LexLeTotal(a[1..], b[1..]);
    }
  }

  lemma {:induction false} LexLeTransitive(a: string, b: string, c: string)
    requires LexLe(a, b) && LexLe(b, c)
    ensures LexLe(a, c)
    decreases |a|
  {
    if a != [] && a[0] == b[0] && b[0] == c[0] {
      LexLeTransitive(a[1..], b[1..], c[1..]);
    }
  }

  lemma {:induction false} LexLeAntisymmetric(a: string, b: string)
    requires LexLe(a, b) && LexLe(b, a)
    ensures a == b
    decreases |a|
  {
    if a != [] {
      LexLeAntisymmetric(a[1..], b[1..]);
      assert a == [a[0]] + a[1..] && b == [b[0]] + b[1..];
    }
  }

  /** Whatever lies between two strings that share a prefix shares it too. */
  lemma {:induction false} LexLeBetweenSharesPrefix(x: string, y: string, z: string, p: string)
    requires LexLe(x, y) && LexLe(y, z) && IsPrefix(p, x) && IsPrefix(p, z)
    ensures IsPrefix(p, y)
    decreases |p|
  {
    if p != [] {
      assert x[0] == p[0] && z[0] == p[0];
      assert x[1..][..|p| - 1] == p[1..] && z[1..][..|p| - 1] == p[1..];
      LexLeBetweenSharesPrefix(x[1..], y[1..], z[1..], p[1..]);
      assert y == [y[0]] + y[1..];
    }
  }

  /** Strings with a common prefix compare as their remainders do. */
  lemma {:induction false} LexLeCommonPrefix(p: string, a: string, b: string)
    ensures LexLe(p + a, p + b) <==> LexLe(a, b)
    decreases |p|
  {
    if p != [] {
      assert (p + a)[1..] == p[1..] + a && (p + b)[1..] == p[1..] + b;
      assert LexLe(p + a, p + b) == LexLe((p + a)[1..], (p + b)[1..]);
      LexLeCommonPrefix(p[1..], a, b);
    } else {
      assert p + a == a && p + b == b;
    }
  }

  /** Every element is at most each later one. */
  predicate IsSorted(s: seq<string>)
  {
    forall i, j :: 0 <= i < j < |s| ==> LexLe(s[i], s[j])
  }

  function Insert(x: string, s: seq<string>): (r: seq<string>)
    requires IsSorted(s)
    ensures IsSorted(r) && multiset(r) == multiset(s) + multiset{x}
    ensures r != [] && (r[0] == x || (s != [] && r[0] == s[0]))
  {
    if s == [] then [x]
    else if LexLe(x, s[0]) then
      assert IsSorted([x] + s) by {
        forall i, j | 0 <= i < j < |s| + 1 ensures LexLe(([x] + s)[i], ([x] + s)[j]) {
          if i == 0 && j > 1 { LexLeTransitive(x, s[0], s[j - 1]); }
        }
      }
      [x] + s
    else
      var t := Insert(x, s[1..]);
      LexLeTotal(x, s[0]);
      assert s == [s[0]] + s[1..];
      assert IsSorted([s[0]] + t) by {
        forall j | 0 <= j < |t| ensures LexLe(s[0], t[j]) {
          if j > 0 {
            if t[0] == x { LexLeTransitive(s[0], t[0], t[j]); }
            else { LexLeTransitive(s[0], s[1], t[j]); }
          }
        }
      }
      [s[0]] + t
  }

  /** A sorted sequence stays sorted when an element at least as large as each of its
      elements is appended. */
  lemma SortedSnoc(s: seq<string>, x: string)
    requires IsSorted(s) && forall y <- s :: LexLe(y, x)
    ensures IsSorted(s + [x])
  {
    forall i, j | 0 <= i < j < |s| + 1 ensures LexLe((s + [x])[i], (s + [x])[j]) {
      assert (s + [x])[i] == s[i];
      if j == |s| {
        assert s[i] in s;
      }
    }
  }

  /** sorted(): the ordered permutation of the input. */
  function Sort(s: seq<string>): (r: seq<string>)
    ensures IsSorted(r) && multiset(r) == multiset(s)
  {
    if s == [] then []
    else
      assert s == [s[0]] + s[1..];
      Insert(s[0], Sort(s[1..]))
  }

  /** `a, b = s.split(':')`: succeeds only when `s` holds exactly one ':'. */
  function SplitColon(s: string): (r: Option<(string, string)>)
    ensures r.Some? ==> s == r.value.0 + ":" + r.value.1 && ':' !in r.value.0 && ':' !in r.value.1
  {
    if ':' !in s then None
    else
      var i := ColonIndex(s);
      assert s == s[..i] + [':'] + s[i + 1..];
      if ':' in s[i + 1..] then None
      else Some((s[..i], s[i + 1..]))
  }

  /** The split succeeds iff the text holds exactly one ':'. */
  lemma SplitColonIffOneColon(s: string)
    ensures SplitColon(s).Some? <==> multiset(s)[':'] == 1
  {
    if ':' in s {
      var i := ColonIndex(s);
      assert s == s[..i] + [':'] + s[i + 1..];
      assert multiset(s)[':'] == multiset(s[..i])[':'] + 1 + multiset(s[i + 1..])[':'];
    }
  }

  /** The position of the first ':' in `s`. */
  function ColonIndex(s: string): (i: nat)
    requires ':' in s
    ensures i < |s| && s[i] == ':' && ':' !in s[..i]
  {
    if s[0] == ':' then 0 else assert s == [s[0]] + s[1..]; 1 + ColonIndex(s[1..])
  }

  /** The first ':' of a text that starts with a colon-free `a` and a ':' is the one after `a`. */
  lemma {:induction false} FirstColon(a: string, s: string)
    requires ':' !in a && IsPrefix(a + ":", s)
    ensures ':' in s && ColonIndex(s) == |a|
  {
    assert s[|a|] == (a + ":")[|a|];
    if a != [] {
      assert s[0] == a[0];
      assert IsPrefix(a[1..] + ":", s[1..]) by {
        assert (a + ":")[1..] == a[1..] + ":";
      }
      FirstColon(a[1..], s[1..]);
    }
  }

  /** Splitting at ':' undoes joining two colon-free halves with ':'. */
  lemma SplitColonOfJoin(a: string, b: string)
    requires ':' !in a && ':' !in b
    ensures SplitColon(a + ":" + b) == Some((a, b))
  {
    var s := a + ":" + b;
    FirstColon(a, s);
    assert s[..|a|] == a && s[|a| + 1..] == b;
  }

  /** A text that splits into two halves at ':' has a single ':', so only a colon-free
      prefix can precede it. */
  lemma SplitColonHalves(a: string, b: string)
    requires SplitColon(a + ":" + b).Some?
    ensures ':' !in a && ':' !in b && SplitColon(a + ":" + b) == Some((a, b))
  {
    SplitColonIffOneColon(a + ":" + b);
    assert multiset(a + ":" + b) == multiset(a) + multiset(":") + multiset(b);
    SplitColonOfJoin(a, b);
  }
}
