/** Values shared by the admission-control modules: optional values, results,
    paths as sequences of components, and order-preserving subsequences. */
module Common {

  datatype Option<+T> = None | Some(value: T)

  /** The outcome of an operation that raises in the source: `Err` stands for the exception. */
  datatype Result<+T, +E> = Ok(value: T) | Err(error: E)

  /** The exceptions the admission layer raises: ValueError for the failures it
      reports itself, IOError for a per-sample file (sras_info.yaml) it cannot open. */
  datatype Exception = ValueError | IOError

  /** A file-system path, as the sequence of its components. Paths are taken to be
      normalised: no empty component and no separator inside a component. */
  type Path = seq<string>

  /** The directory name, under a top output directory, in which all per-sample output lives. */
  const RSEM_OUTPUT_BASENAME: string := "rsem_output"

  /** The last component, or "" for the empty path (os.path.basename). */
  function Basename(p: Path): string
  {
    if p == [] then "" else p[|p| - 1]
  }

  /** Everything but the last component (os.path.dirname). */
  function Dirname(p: Path): Path
  {
    if p == [] then [] else p[..|p| - 1]
  }

  /** os.path.split: the directory part and the last component. */
  function Split(p: Path): (r: (Path, string))
    ensures p != [] ==> p == r.0 + [r.1]
    ensures p == [] ==> r == ([], "")
  {
    (Dirname(p), Basename(p))
  }

  predicate IsPrefix<T(==)>(prefix: seq<T>, s: seq<T>)
  {
    |prefix| <= |s| && s[..|prefix|] == prefix
  }

  /** The components joined by `sep`, as os.path.join and str.join render them. */
  function Join(p: seq<string>, sep: string): string
  {
    if p == [] then "" else if |p| == 1 then p[0] else p[0] + sep + Join(p[1..], sep)
  }

  /** os.path.relpath for a path lying under `top`. */
  function RelPath(p: Path, top: Path): string
    requires IsPrefix(top, p)
  {
    if |p| == |top| then "." else Join(p[|top|..], "/")
  }

  /** get_rsem_outdir: the output directory for per-sample work under a top directory. */
  function RsemOutdir(top: Path): (r: Path)
    ensures Dirname(r) == top && Basename(r) == RSEM_OUTPUT_BASENAME
  {
    top + [RSEM_OUTPUT_BASENAME]
  }

  /** The flag the downloader leaves beside a downloaded sra file. */
  function DownloadFlag(sra: Path): string
  {
    Basename(sra) + ".download.COMPLETE"
  }

  /** The flag sra2fastq leaves beside a converted sra file. */
  function Sra2FastqFlag(sra: Path): string
  {
    Basename(sra) + ".sra2fastq.COMPLETE"
  }

  /** `a` is an order-preserving subsequence of `b`: `b` with some elements deleted. */
  predicate IsSubsequence<T(==)>(a: seq<T>, b: seq<T>)
    decreases |b|
  {
    if b == [] then a == []
    else (a != [] && a[0] == b[0] && IsSubsequence(a[1..], b[1..])) || IsSubsequence(a, b[1..])
  }

  lemma {:induction false} SubsequenceMembers<T>(a: seq<T>, b: seq<T>)
    requires IsSubsequence(a, b)
    ensures forall x <- a :: x in b
    ensures |a| <= |b|
    decreases |b|
  {
    if b != [] {
      if a != [] && a[0] == b[0] && IsSubsequence(a[1..], b[1..]) {
        SubsequenceMembers(a[1..], b[1..]);
        assert a == [a[0]] + a[1..];
      } else {
        SubsequenceMembers(a, b[1..]);
      }
    }
  }

  lemma {:induction false} SubsequenceMap<T, U>(a: seq<T>, b: seq<T>, f: T -> U)
    requires IsSubsequence(a, b)
    ensures IsSubsequence(Map(a, f), Map(b, f))
    decreases |b|
  {
    if b != [] {
      if a != [] && a[0] == b[0] && IsSubsequence(a[1..], b[1..]) {
        SubsequenceMap(a[1..], b[1..], f);
      } else {
        SubsequenceMap(a, b[1..], f);
      }
    }
  }

  /** Applies `f` to every element, keeping the order. */
  function Map<T, U>(s: seq<T>, f: T -> U): (r: seq<U>)
    ensures |r| == |s| && forall i :: 0 <= i < |s| ==> r[i] == f(s[i])
  {
    if s == [] then [] else [f(s[0])] + Map(s[1..], f)
  }

  /** The elements that satisfy `p`, in order. */
  function Filter<T>(s: seq<T>, p: T -> bool): seq<T>
  {
    if s == [] then [] else (if p(s[0]) then [s[0]] else []) + Filter(s[1..], p)
  }

  /** Filtering keeps exactly the elements that satisfy the predicate, in order. */
  lemma {:induction false} FilterSound<T>(s: seq<T>, p: T -> bool)
    ensures IsSubsequence(Filter(s, p), s)
    ensures forall x <- Filter(s, p) :: p(x)
    ensures forall x <- s :: p(x) ==> x in Filter(s, p)
  {
    if s != [] {
      var rest := Filter(s[1..], p);
      FilterSound(s[1..], p);
      assert forall x <- s :: x == s[0] || x in s[1..];
      if p(s[0]) {
        assert ([s[0]] + rest)[0] == s[0] && ([s[0]] + rest)[1..] == rest;
      } else {
        assert Filter(s, p) == rest;
      }
    }
  }

  lemma {:induction false} FilterSnoc<T>(s: seq<T>, x: T, p: T -> bool)
    ensures Filter(s + [x], p) == Filter(s, p) + (if p(x) then [x] else [])
  {
    var last := if p(x) then [x] else [];
    if s == [] {
      assert s + [x] == [x];
      assert Filter([x], p) == last + Filter([], p);
    } else {
      var head := if p(s[0]) then [s[0]] else [];
      assert (s + [x])[0] == s[0] && (s + [x])[1..] == s[1..] + [x];
      assert Filter(s + [x], p) == head + Filter(s[1..] + [x], p);
      FilterSnoc(s[1..], x, p);
      assert head + (Filter(s[1..], p) + last) == (head + Filter(s[1..], p)) + last;
    }
  }

  /** Nothing is kept when no element satisfies the predicate. */
  lemma {:induction false} FilterNone<T>(s: seq<T>, p: T -> bool)
    requires forall x <- s :: !p(x)
    ensures Filter(s, p) == []
  {
    if s != [] {
      assert s[0] in s;
      assert forall x <- s[1..] :: x in s;
      FilterNone(s[1..], p);
    }
  }

  /** One step of a loop that filters a growing prefix. */
  lemma FilterPrefixStep<T>(s: seq<T>, i: nat, p: T -> bool)
    requires i < |s|
    ensures Filter(s[..i + 1], p) == Filter(s[..i], p) + (if p(s[i]) then [s[i]] else [])
  {
    assert s[..i + 1] == s[..i] + [s[i]];
    FilterSnoc(s[..i], s[i], p);
  }

  /** Taking out of `b` one occurrence of the first element of `a` leaves a
      permutation of the rest of `a`. */
  lemma RemoveFromPermutation<T>(a: seq<T>, b: seq<T>, j: nat)
    requires a != [] && j < |b| && b[j] == a[0] && multiset(a) == multiset(b)
    ensures multiset(a[1..]) == multiset(b[..j] + b[j + 1..])
  {
    assert a == [a[0]] + a[1..];
    assert b == b[..j] + [b[j]] + b[j + 1..];
    assert multiset(b) == multiset(b[..j]) + multiset{b[j]} + multiset(b[j + 1..]);
    assert multiset(b[..j] + b[j + 1..]) == multiset(b[..j]) + multiset(b[j + 1..]);
    assert multiset(a) == multiset{a[0]} + multiset(a[1..]);
    forall x ensures multiset(a[1..])[x] == multiset(b[..j] + b[j + 1..])[x] {
      assert multiset(a)[x] == multiset(b)[x];
    }
  }

  lemma {:induction false} FilterConcat<T>(a: seq<T>, b: seq<T>, p: T -> bool)
    ensures Filter(a + b, p) == Filter(a, p) + Filter(b, p)
  {
    if a == [] {
      assert a + b == b;
    } else {
      assert (a + b)[0] == a[0] && (a + b)[1..] == a[1..] + b;
      FilterConcat(a[1..], b, p);
    }
  }

  /** Filtering two orderings of the same elements keeps as many of them. */
  lemma {:induction false} FilterPermutationLength<T>(a: seq<T>, b: seq<T>, p: T -> bool)
    requires multiset(a) == multiset(b)
    ensures |Filter(a, p)| == |Filter(b, p)|
    decreases |a|
  {
    if a == [] {
      assert |b| == |multiset(b)|;
    } else {
      assert a[0] in multiset(b);
      var j :| 0 <= j < |b| && b[j] == a[0];
      RemoveFromPermutation(a, b, j);
      FilterPermutationLength(a[1..], b[..j] + b[j + 1..], p);
      assert b == b[..j] + ([b[j]] + b[j + 1..]);
      FilterConcat(b[..j], [b[j]] + b[j + 1..], p);
      FilterConcat(b[..j], b[j + 1..], p);
      assert Filter([b[j]] + b[j + 1..], p) == (if p(b[j]) then [b[j]] else []) + Filter(b[j + 1..], p) by {
        assert ([b[j]] + b[j + 1..])[1..] == b[j + 1..];
      }
    }
  }

  predicate IsDigit(c: char)
  {
    '0' <= c <= '9'
  }
}
