/**
 * src/cli/index.rs: the `--metric` argument and its default, and the
 * filtering `index list` applies to the service's response before it is
 * shown: a name prefix, then a keyword query.
 */
module IndexCli {
  import opened Wrappers
  import opened Text
  import Types

  /** The `--metric` values. */
  datatype DistanceMetricArg = Euclidean | Cosine

  /** `--metric` defaults to "cosine". */
  const DefaultMetricArg: DistanceMetricArg := Cosine

  /** `From<DistanceMetricArg> for DistanceMetric`: each value to the metric of the same name. */
  function ToDistanceMetric(arg: DistanceMetricArg): (m: Types.DistanceMetric)
    ensures m.Cosine? <==> arg.Cosine?
    ensures m.Euclidean? <==> arg.Euclidean?
  {
    match arg
    case Euclidean => Types.Euclidean
    case Cosine => Types.Cosine
  }

  /** The argument naming a metric. */
  function ArgOf(m: Types.DistanceMetric): DistanceMetricArg {
    match m
    case Cosine => Cosine
    case Euclidean => Euclidean
  }

  /** The conversion is one-to-one and onto: every metric is named by exactly one argument. */
  lemma MetricRoundTrip(arg: DistanceMetricArg, m: Types.DistanceMetric)
    ensures ArgOf(ToDistanceMetric(arg)) == arg
    ensures ToDistanceMetric(ArgOf(m)) == m
  {
  }

  /** Creating an index without `--metric` asks for the same metric as the library's default. */
  lemma DefaultMetricAgrees()
    ensures ToDistanceMetric(DefaultMetricArg) == Types.DefaultDistanceMetric()
  {
  }

  /** One entry of the `ListIndexes` response. */
  datatype IndexSummary = IndexSummary(indexName: string, indexArn: string, vectorBucketName: string, creationTime: real)

  datatype ListIndexesResponse = ListIndexesResponse(indexes: seq<IndexSummary>, nextToken: Option<string>)

  // ----- `Vec::retain` -----

  /** The elements of `xs` that satisfy `keep`, in their order. */
  function Filter<T>(xs: seq<T>, keep: T -> bool): seq<T> {
    if xs == [] then [] else (if keep(xs[0]) then [xs[0]] else []) + Filter(xs[1..], keep)
  }

  /** `a` is `b` with some elements left out, the others in the same order. */
  predicate IsSubsequence<T(==)>(a: seq<T>, b: seq<T>)
    decreases |b|
  {
    if a == [] then true
    else if b == [] then false
    else (a[0] == b[0] && IsSubsequence(a[1..], b[1..])) || IsSubsequence(a, b[1..])
  }

  lemma {:induction false} FilterAppend<T>(a: seq<T>, b: seq<T>, keep: T -> bool)
    ensures Filter(a + b, keep) == Filter(a, keep) + Filter(b, keep)
    decreases |a|
  {
    if a == [] {
      assert a + b == b;
    } else {
      assert (a + b)[0] == a[0];
      assert (a + b)[1..] == a[1..] + b;
      FilterAppend(a[1..], b, keep);
    }
  }

  /** An element is kept exactly when it is there and satisfies the test. */
  lemma {:induction false} FilterMembers<T>(xs: seq<T>, keep: T -> bool, x: T)
    ensures x in Filter(xs, keep) <==> x in xs && keep(x)
    decreases |xs|
  {
    if xs != [] {
      FilterMembers(xs[1..], keep, x);
      assert x in xs <==> x == xs[0] || x in xs[1..];
    }
  }

  /** Filtering only leaves elements out: the order of the rest is kept. */
  lemma {:induction false} FilterSubsequence<T>(xs: seq<T>, keep: T -> bool)
    ensures IsSubsequence(Filter(xs, keep), xs)
    decreases |xs|
  {
    if xs != [] {
      var rest := Filter(xs[1..], keep);
      FilterSubsequence(xs[1..], keep);
      if keep(xs[0]) {
        assert Filter(xs, keep) == [xs[0]] + rest;
        assert ([xs[0]] + rest)[1..] == rest;
      } else {
        assert Filter(xs, keep) == rest;
        if rest != [] {
          assert IsSubsequence(rest, xs[1..]);
        }
      }
    }
  }

  /** Filtering twice keeps what passes both tests. */
  lemma {:induction false} FilterTwice<T>(xs: seq<T>, first: T -> bool, second: T -> bool, both: T -> bool)
    requires forall x | x in xs :: both(x) == (first(x) && second(x))
    ensures Filter(Filter(xs, first), second) == Filter(xs, both)
    decreases |xs|
  {
    if xs != [] {
      assert xs[0] in xs;
      assert forall x | x in xs[1..] :: x in xs;
      FilterTwice(xs[1..], first, second, both);
      var head := if first(xs[0]) then [xs[0]] else [];
      FilterAppend(head, Filter(xs[1..], first), second);
      if first(xs[0]) {
        assert Filter(head, second) == (if second(xs[0]) then [xs[0]] else []) + Filter([], second);
      }
    }
  }

  /** `Vec::retain`: keeps, in place and in order, the elements satisfying `keep`. */
  method Retain<T>(xs: seq<T>, keep: T -> bool) returns (kept: seq<T>)
    ensures kept == Filter(xs, keep)
  {
    kept := [];
    for i := 0 to |xs|
      invariant kept == Filter(xs[..i], keep)
    {
      assert xs[..i + 1] == xs[..i] + [xs[i]];
      FilterAppend(xs[..i], [xs[i]], keep);
      assert Filter([xs[i]], keep) == (if keep(xs[i]) then [xs[i]] else []) + Filter([], keep);
      if keep(xs[i]) {
        kept := kept + [xs[i]];
      }
    }
    assert xs[..|xs|] == xs;
  }

  // ----- The two filters -----

  /** The keywords of a query: its lower-cased words. */
  function Keywords(query: string): (keywords: seq<string>)
    ensures forall k | k in keywords :: k != [] && NoWhitespace(k)
  {
    SplitWhitespace(ToLower(query))
  }

  /** An index whose lower-cased name contains at least one keyword. */
  predicate MatchesAny(idx: IndexSummary, keywords: seq<string>) {
    exists k | k in keywords :: Contains(ToLower(idx.indexName), k)
  }

  predicate HasPrefix(idx: IndexSummary, prefix: string) {
    StartsWith(idx.indexName, prefix)
  }

  /** What `index list` keeps: the prefix test when a prefix is given, then the query test when a query is given. */
  predicate Selected(idx: IndexSummary, prefix: Option<string>, query: Option<string>) {
    (prefix.Some? ==> HasPrefix(idx, prefix.value)) && (query.Some? ==> MatchesAny(idx, Keywords(query.value)))
  }

  /** The filtering in `list_indexes`: one `retain` per filter given; the continuation token passes through. */
  method FilterIndexes(response: ListIndexesResponse, prefix: Option<string>, query: Option<string>)
    returns (filtered: ListIndexesResponse)
    ensures filtered.nextToken == response.nextToken
    ensures filtered.indexes == Filter(response.indexes, idx => Selected(idx, prefix, query))
  {
    ghost var byPrefix := (idx: IndexSummary) => prefix.Some? ==> HasPrefix(idx, prefix.value);
    var indexes := response.indexes;
    if prefix.Some? {
      var p := prefix.value;
      indexes := Retain(indexes, idx => HasPrefix(idx, p));
      FilterSame(response.indexes, idx => HasPrefix(idx, p), byPrefix);
    } else {
      FilterKeepsAll(response.indexes, byPrefix);
    }
    assert indexes == Filter(response.indexes, byPrefix);
    if query.Some? {
      var keywords := Keywords(query.value);
      indexes := Retain(indexes, idx => MatchesAny(idx, keywords));
      FilterTwice(response.indexes, byPrefix, idx => MatchesAny(idx, keywords), idx => Selected(idx, prefix, query));
    } else {
      FilterSame(response.indexes, byPrefix, idx => Selected(idx, prefix, query));
    }
    filtered := ListIndexesResponse(indexes, response.nextToken);
  }

  /** Two tests that agree on every element filter alike. */
  lemma {:induction false} FilterSame<T>(xs: seq<T>, a: T -> bool, b: T -> bool)
    requires forall x | x in xs :: a(x) == b(x)
    ensures Filter(xs, a) == Filter(xs, b)
    decreases |xs|
  {
    if xs != [] {
      assert xs[0] in xs;
      assert forall x | x in xs[1..] :: x in xs;
      FilterSame(xs[1..], a, b);
    }
  }

  /** A test every element passes keeps everything. */
  lemma {:induction false} FilterKeepsAll<T>(xs: seq<T>, keep: T -> bool)
    requires forall x | x in xs :: keep(x)
    ensures Filter(xs, keep) == xs
    decreases |xs|
  {
    if xs != [] {
      assert xs[0] in xs;
      assert forall x | x in xs[1..] :: x in xs;
      FilterKeepsAll(xs[1..], keep);
      assert [xs[0]] + xs[1..] == xs;
    }
  }

  /**
   * What `index list` shows: exactly the indexes of the response that pass
   * the filters given, in the response's order.
   */
  lemma FilteredIndexes(response: ListIndexesResponse, prefix: Option<string>, query: Option<string>, idx: IndexSummary)
    ensures var shown := Filter(response.indexes, i => Selected(i, prefix, query));
      && (idx in shown <==> idx in response.indexes && Selected(idx, prefix, query))
      && IsSubsequence(shown, response.indexes)
  {
    FilterMembers(response.indexes, i => Selected(i, prefix, query), idx);
    FilterSubsequence(response.indexes, i => Selected(i, prefix, query));
  }

  /** A query of white space only has no keywords, so it leaves no index. */
  lemma BlankQueryRemovesAll(response: ListIndexesResponse, prefix: Option<string>, query: string)
    requires forall i | 0 <= i < |query| :: IsWhitespace(query[i])
    ensures Filter(response.indexes, idx => Selected(idx, prefix, Some(query))) == []
  {
    var lower := ToLower(query);
    forall i | 0 <= i < |lower| ensures IsWhitespace(lower[i]) {
      assert !('A' <= query[i] <= 'Z');
    }
    assert TrimStart(lower) == [];
    assert Keywords(query) == [];
    FilterDropsAll(response.indexes, idx => Selected(idx, prefix, Some(query)));
  }

  /** A test no element passes keeps nothing. */
  lemma {:induction false} FilterDropsAll<T>(xs: seq<T>, keep: T -> bool)
    requires forall x | x in xs :: !keep(x)
    ensures Filter(xs, keep) == []
    decreases |xs|
  {
    if xs != [] {
      assert xs[0] in xs;
      assert forall x | x in xs[1..] :: x in xs;
      FilterDropsAll(xs[1..], keep);
    }
  }

  /** Matching ignores the case of ASCII letters in the query. */
  lemma QueryCaseInsensitive(idx: IndexSummary, query: string)
    ensures MatchesAny(idx, Keywords(query)) == MatchesAny(idx, Keywords(ToLower(query)))
  {
    assert ToLower(ToLower(query)) == ToLower(query);
  }
}
