/** Generic sequence facts: the filter behind every `WHERE` clause, and pairwise orderings. */
module Seqs {
  import opened Wrappers


  /** The elements of `s` that satisfy `p`, in their order in `s`. */
  function Filter<T(!new)>(s: seq<T>, p: T -> bool): (r: seq<T>)
    ensures |r| <= |s|
    ensures forall i :: 0 <= i < |r| ==> p(r[i])
    ensures forall x :: x in r <==> x in s && p(x)
    decreases |s|
  {
    if s == [] then []
    else
      assert s == [s[0]] + s[1..];
      var rest := Filter(s[1..], p);
      if p(s[0]) then [s[0]] + rest else rest
  }

  /** Concatenation regroups freely. */
  lemma ConcatRegroup<T>(x: seq<T>, y: seq<T>, z: seq<T>)
    ensures (x + y) + z == x + (y + z)
  {
  }

  /** Each kept element occurs as often as in `s`; the others not at all. */
  lemma {:induction false} FilterMultiset<T(!new)>(s: seq<T>, p: T -> bool)
    ensures forall x :: multiset(Filter(s, p))[x] == if p(x) then multiset(s)[x] else 0
    decreases |s|
  {
    if s != [] {
      FilterMultiset(s[1..], p);
      assert s == [s[0]] + s[1..];
    }
  }

  /** `FilterMultiset` at one element. */
  lemma FilterCountOf<T(!new)>(s: seq<T>, p: T -> bool, x: T)
    ensures multiset(Filter(s, p))[x] == if p(x) then multiset(s)[x] else 0
  {
    FilterMultiset(s, p);
  }

  /** The first element of `s` that satisfies `p`, if any (a `first` without `ORDER BY`). */
  function First<T(==,!new)>(s: seq<T>, p: T -> bool): (r: Option<T>)
    ensures r.Some? <==> exists x :: x in s && p(x)
    ensures r.Some? ==> exists k :: 0 <= k < |s| && s[k] == r.value && p(r.value) &&
                                    forall j :: 0 <= j < k ==> !p(s[j])
    decreases |s|
  {
    if s == [] then None
    else if p(s[0]) then Some(s[0])
    else
      var rest := First(s[1..], p);
      assert forall x :: x in s && x != s[0] ==> x in s[1..];
      if rest.Some? then
        var k :| 0 <= k < |s[1..]| && s[1..][k] == rest.value && p(rest.value) &&
                 forall j :: 0 <= j < k ==> !p(s[1..][j]);
        assert s[k + 1] == rest.value;
        rest
      else rest
  }

  /** Every element of `s` stands in relation `R` to every later element. */
  predicate Pairwise<T>(s: seq<T>, R: (T, T) -> bool) {
    forall i, j :: 0 <= i < j < |s| ==> R(s[i], s[j])
  }

  /** Filtering keeps the relative order of what it keeps. */
  lemma {:induction false} FilterPairwise<T(!new)>(s: seq<T>, p: T -> bool, R: (T, T) -> bool)
    requires Pairwise(s, R)
    ensures Pairwise(Filter(s, p), R)
    decreases |s|
  {
    if s != [] {
      var tail := s[1..];
      assert Pairwise(tail, R) by {
        forall i, j | 0 <= i < j < |tail| ensures R(tail[i], tail[j]) {
          assert tail[i] == s[i + 1] && tail[j] == s[j + 1];
        }
      }
      FilterPairwise(tail, p, R);
      var rest := Filter(tail, p);
      if p(s[0]) {
        HeadRelatesToKept(s, p, R);
        ConsPairwise(s[0], rest, R);
      }
    }
  }

  lemma HeadRelatesToKept<T(!new)>(s: seq<T>, p: T -> bool, R: (T, T) -> bool)
    requires Pairwise(s, R) && s != []
    ensures forall x :: x in Filter(s[1..], p) ==> R(s[0], x)
  {
    forall x | x in Filter(s[1..], p) ensures R(s[0], x) {
      PairwiseHead(s, R, x);
    }
  }

  lemma ConsPairwise<T>(x: T, rest: seq<T>, R: (T, T) -> bool)
    requires Pairwise(rest, R)
    requires forall y :: y in rest ==> R(x, y)
    ensures Pairwise([x] + rest, R)
  {
    var r := [x] + rest;
    forall i, j | 0 <= i < j < |r| ensures R(r[i], r[j]) {
      assert r[j] == rest[j - 1];
      if i > 0 {
        assert r[i] == rest[i - 1];
      }
    }
  }

  /** The head of a pairwise-ordered sequence relates to every later element. */
  lemma PairwiseHead<T>(s: seq<T>, R: (T, T) -> bool, x: T)
    requires Pairwise(s, R) && s != []
    requires x in s[1..]
    ensures R(s[0], x)
  {
    var k :| 0 <= k < |s[1..]| && s[1..][k] == x;
    assert s[k + 1] == x;
  }

  /** A prefix of a pairwise-related sequence is pairwise related. */
  lemma PairwisePrefix<T>(s: seq<T>, n: nat, R: (T, T) -> bool)
    requires Pairwise(s, R) && n <= |s|
    ensures Pairwise(s[..n], R)
  {
    forall i, j | 0 <= i < j < n ensures R(s[..n][i], s[..n][j]) {
      assert s[..n][i] == s[i] && s[..n][j] == s[j];
    }
  }

  /** The tail of a pairwise-related sequence is pairwise related. */
  lemma PairwiseTail<T>(s: seq<T>, R: (T, T) -> bool)
    requires s != [] && Pairwise(s, R)
    ensures Pairwise(s[1..], R)
  {
    forall i, j | 0 <= i < j < |s[1..]| ensures R(s[1..][i], s[1..][j]) {
      assert R(s[i + 1], s[j + 1]);
    }
  }

  /** Every element of a pairwise-ordered sequence is its head or comes after it. */
  lemma HeadFirst<T>(s: seq<T>, R: (T, T) -> bool)
    requires Pairwise(s, R) && s != []
    ensures forall x :: x in s ==> x == s[0] || R(s[0], x)
  {
    forall x | x in s && x != s[0] ensures R(s[0], x) {
      assert s == [s[0]] + s[1..];
      PairwiseHead(s, R, x);
    }
  }

  /** An element is kept by a predicate or by its negation, never both. */
  lemma {:induction false} FilterComplementCount<T(!new)>(s: seq<T>, p: T -> bool, q: T -> bool)
    requires forall x :: q(x) == !p(x)
    ensures |Filter(s, p)| + |Filter(s, q)| == |s|
    decreases |s|
  {
    if s != [] {
      FilterComplementCount(s[1..], p, q);
    }
  }

  /** Filtering twice is filtering once by the conjunction. */
  lemma {:induction false} FilterFilter<T(!new)>(s: seq<T>, p: T -> bool, q: T -> bool, pq: T -> bool)
    requires forall x :: pq(x) == (p(x) && q(x))
    ensures Filter(Filter(s, p), q) == Filter(s, pq)
    decreases |s|
  {
    if s != [] {
      FilterFilter(s[1..], p, q, pq);
      var rest := Filter(s[1..], p);
      if p(s[0]) {
        assert Filter(s, p) == [s[0]] + rest;
        assert ([s[0]] + rest)[1..] == rest;
      } else {
        assert Filter(s, p) == rest;
      }
    }
  }

  /** Nothing is kept when no element satisfies the predicate. */
  lemma {:induction false} FilterNone<T(!new)>(s: seq<T>, p: T -> bool)
    requires forall x :: x in s ==> !p(x)
    ensures Filter(s, p) == []
    decreases |s|
  {
    if s != [] {
      assert s[0] in s;
      FilterNone(s[1..], p);
    }
  }

  /** A weaker predicate keeps at least as many elements. */
  lemma {:induction false} FilterMonotone<T(!new)>(s: seq<T>, p: T -> bool, q: T -> bool)
    requires forall x :: p(x) ==> q(x)
    ensures |Filter(s, p)| <= |Filter(s, q)|
    decreases |s|
  {
    if s != [] {
      FilterMonotone(s[1..], p, q);
    }
  }

  /** The number of kept elements depends only on the multiset of `s`. */
  lemma FilterCountPermutation<T(!new)>(a: seq<T>, b: seq<T>, p: T -> bool)
    requires multiset(a) == multiset(b)
    ensures |Filter(a, p)| == |Filter(b, p)|
  {
    FilterMultiset(a, p);
    FilterMultiset(b, p);
    assert multiset(Filter(a, p)) == multiset(Filter(b, p));
    assert |multiset(Filter(a, p))| == |Filter(a, p)|;
    assert |multiset(Filter(b, p))| == |Filter(b, p)|;
  }

  /** The values of `rs` in order, or the first error among them (a loop of `?` calls). */
  function Collect<R>(rs: seq<QueryResult<R>>): QueryResult<seq<R>>
    decreases |rs|
  {
    if rs == [] then Ok([])
    else
      match Collect(rs[..|rs| - 1])
      case Err(e) => Err(e)
      case Ok(vs) =>
        match rs[|rs| - 1]
        case Err(e) => Err(e)
        case Ok(v) => Ok(vs + [v])
  }

  /** One more result: its value is appended, or its error aborts. */
  lemma CollectSnoc<R>(rs: seq<QueryResult<R>>, x: QueryResult<R>)
    ensures Collect(rs + [x]) ==
            if Collect(rs).Err? then Collect(rs)
            else if x.Err? then Err(x.error)
            else Ok(Collect(rs).value + [x.value])
  {
    assert (rs + [x])[..|rs|] == rs;
  }

  /** A successful prefix extended by one success. */
  lemma CollectStep<R>(rs: seq<QueryResult<R>>, i: nat, vs: seq<R>)
    requires i < |rs| && Collect(rs[..i]) == Ok(vs) && rs[i].Ok?
    ensures Collect(rs[..i + 1]) == Ok(vs + [rs[i].value])
  {
    assert rs[..i + 1] == rs[..i] + [rs[i]];
    CollectSnoc(rs[..i], rs[i]);
  }

  /** Collecting fails exactly when one of the results is an error, and then with one of
      their errors. */
  lemma {:induction false} CollectFail<R>(rs: seq<QueryResult<R>>)
    ensures Collect(rs).Err? <==> exists k :: 0 <= k < |rs| && rs[k].Err?
    ensures Collect(rs).Err? ==> exists k :: 0 <= k < |rs| && rs[k] == Err(Collect(rs).error)
    decreases |rs|
  {
    if rs != [] {
      var init := rs[..|rs| - 1];
      CollectFail(init);
      if Collect(init).Err? {
        var k :| 0 <= k < |init| && init[k] == Err(Collect(init).error);
        assert rs[k] == init[k];
      } else if rs[|rs| - 1].Ok? {
        forall k | 0 <= k < |rs| ensures rs[k].Ok? {
          if k < |init| {
            assert rs[k] == init[k];
          }
        }
      }
    }
  }

  /** A successful collection holds every value, in order. */
  lemma {:induction false} CollectValues<R>(rs: seq<QueryResult<R>>, vs: seq<R>)
    requires Collect(rs) == Ok(vs)
    ensures |vs| == |rs| && forall k :: 0 <= k < |rs| ==> rs[k] == Ok(vs[k])
    decreases |rs|
  {
    if rs != [] {
      var init := rs[..|rs| - 1];
      var before := Collect(init).value;
      CollectValues(init, before);
      assert vs == before + [rs[|rs| - 1].value];
      forall k | 0 <= k < |rs| ensures rs[k] == Ok(vs[k]) {
        if k < |init| {
          assert rs[k] == init[k] && vs[k] == before[k];
        }
      }
    }
  }

  /** The first error aborts the collection with that very error. */
  lemma {:induction false} CollectFirstError<R>(rs: seq<QueryResult<R>>, i: nat)
    requires i < |rs| && Collect(rs[..i]).Ok? && rs[i].Err?
    ensures Collect(rs) == Err(rs[i].error)
    decreases |rs|
  {
    var init := rs[..|rs| - 1];
    if i == |rs| - 1 {
      assert init == rs[..i];
    } else {
      assert init[..i] == rs[..i] && init[i] == rs[i];
      CollectFirstError(init, i);
    }
  }
}
