/** collections.Counter and the ranking the log parser builds on it: counting
    values, listing a count table, `sorted(items, key=count, reverse=True)`,
    `most_common(n)` and the slice `[:n]`.

    Python 2 lists a dict's items in an order fixed by string hashing. The model
    lists a Counter's items in first-seen order (Items); everything proved about
    the ranking except which of several equally frequent values comes first
    holds for every order, and the report ranking takes the order as input. */
module Counter {
  import opened Wrappers

  /** One (value, count) item of a Counter or of a dict of counts. */
  datatype Entry = Entry(key: string, count: nat)

  function KeysOf(items: seq<Entry>): (ks: seq<string>)
    ensures |ks| == |items|
    ensures forall i | 0 <= i < |items| :: ks[i] == items[i].key
  {
    seq(|items|, i requires 0 <= i < |items| => items[i].key)
  }

  predicate DistinctKeys(items: seq<Entry>) {
    forall i, j | 0 <= i < j < |items| :: items[i].key != items[j].key
  }

  predicate Distinct(xs: seq<string>) {
    forall i, j | 0 <= i < j < |xs| :: xs[i] != xs[j]
  }

  /** `items` lists the dict `m`: every key once, each with its count. */
  ghost predicate Enumerates(items: seq<Entry>, m: map<string, nat>) {
    && DistinctKeys(items)
    && (forall i | 0 <= i < |items| :: items[i].key in m && items[i].count == m[items[i].key])
    && (forall u :: u in m <==> u in KeysOf(items))
  }

  /** `Counter(xs)` as a dict, built as `counts[x] = counts.get(x, 0) + 1`. */
  function Tally(xs: seq<string>): map<string, nat> {
    if xs == [] then map[]
    else
      var m := Tally(xs[..|xs| - 1]);
      var x := xs[|xs| - 1];
      m[x := (if x in m then m[x] else 0) + 1]
  }

  /** The tally has exactly the values of `xs` as keys, and each key's count is
      its number of occurrences, so never 0. */
  lemma {:induction false} TallyCounts(xs: seq<string>)
    ensures forall u :: u in Tally(xs) <==> u in xs
    ensures forall u | u in Tally(xs) :: Tally(xs)[u] == multiset(xs)[u] && Tally(xs)[u] >= 1
  {
    if xs != [] {
      var p, x := xs[..|xs| - 1], xs[|xs| - 1];
      assert xs == p + [x];
      TallyCounts(p);
    }
  }

  /** One more value adds one to its count. */
  lemma TallySnoc(xs: seq<string>, x: string)
    ensures Tally(xs + [x]) == Tally(xs)[x := (if x in Tally(xs) then Tally(xs)[x] else 0) + 1]
  {
    assert (xs + [x])[..|xs|] == xs;
  }

  /** The distinct values of `xs` in order of first occurrence. */
  function FirstSeen(xs: seq<string>): (ks: seq<string>)
    ensures forall u :: u in ks <==> u in xs
    ensures Distinct(ks)
  {
    if xs == [] then []
    else
      var ks := FirstSeen(xs[..|xs| - 1]);
      var x := xs[|xs| - 1];
      assert xs == xs[..|xs| - 1] + [x];
      if x in ks then ks else ks + [x]
  }

  /** A value listed before another occurs in `xs` before every occurrence of
      the later one. */
  lemma {:induction false} FirstSeenOrder(xs: seq<string>, i: nat, j: nat, k: nat)
    requires i < j < |FirstSeen(xs)| && k < |xs| && xs[k] == FirstSeen(xs)[j]
    ensures FirstSeen(xs)[i] in xs[..k]
  {
    var p, x := xs[..|xs| - 1], xs[|xs| - 1];
    var ks := FirstSeen(p);
    assert xs == p + [x];
    if j < |ks| {
      if k < |p| {
        FirstSeenOrder(p, i, j, k);
        assert xs[..k] == p[..k];
      } else {
        assert ks[j] in p;
        var k' :| 0 <= k' < |p| && p[k'] == ks[j];
        FirstSeenOrder(p, i, j, k');
        assert p[..k'] <= xs[..k];
      }
    } else {
      assert x !in p;
      assert k == |p|;
      assert ks[i] in p;
      assert xs[..k] == p;
    }
  }

  /** `Counter(xs).items()`, listed in first-seen order. */
  function Items(xs: seq<string>): (items: seq<Entry>)
    ensures |items| == |FirstSeen(xs)|
    ensures KeysOf(items) == FirstSeen(xs)
    ensures forall i | 0 <= i < |items| :: items[i].count == multiset(xs)[items[i].key]
  {
    var ks := FirstSeen(xs);
    seq(|ks|, i requires 0 <= i < |ks| => Entry(ks[i], multiset(xs)[ks[i]]))
  }

  lemma ItemsEnumerate(xs: seq<string>)
    ensures Enumerates(Items(xs), Tally(xs))
  {
    TallyCounts(xs);
  }

  function SumCounts(items: seq<Entry>): nat {
    if items == [] then 0 else SumCounts(items[..|items| - 1]) + items[|items| - 1].count
  }

  lemma {:induction false} SumCountsCons(e: Entry, s: seq<Entry>)
    ensures SumCounts([e] + s) == e.count + SumCounts(s)
  {
    if s != [] {
      var p := s[..|s| - 1];
      SumCountsCons(e, p);
      assert ([e] + s)[..|s|] == [e] + p;
    }
  }

  /** The summed occurrences in `xs` of the values in `keys`. */
  function SumOccurrences(keys: seq<string>, xs: seq<string>): nat {
    if keys == [] then 0 else SumOccurrences(keys[..|keys| - 1], xs) + multiset(xs)[keys[|keys| - 1]]
  }

  lemma {:induction false} SumOccurrencesSnoc(keys: seq<string>, xs: seq<string>, x: string)
    ensures SumOccurrences(keys, xs + [x]) == SumOccurrences(keys, xs) + multiset(keys)[x]
  {
    if keys != [] {
      var q := keys[..|keys| - 1];
      assert keys == q + [keys[|keys| - 1]];
      SumOccurrencesSnoc(q, xs, x);
    }
  }

  lemma {:induction false} DistinctOnce(keys: seq<string>, x: string)
    requires Distinct(keys) && x in keys
    ensures multiset(keys)[x] == 1
  {
    var q := keys[..|keys| - 1];
    assert keys == q + [keys[|keys| - 1]];
    if x in q {
      DistinctOnce(q, x);
    } else {
      assert multiset(q)[x] == 0;
    }
  }

  /** Over distinct keys that cover `xs`, the occurrences add up to `|xs|`. */
  lemma {:induction false} SumOccurrencesCover(keys: seq<string>, xs: seq<string>)
    requires Distinct(keys)
    requires forall x | x in xs :: x in keys
    ensures SumOccurrences(keys, xs) == |xs|
  {
    if xs == [] {
      SumOccurrencesEmpty(keys);
    } else {
      var p, x := xs[..|xs| - 1], xs[|xs| - 1];
      assert xs == p + [x];
      SumOccurrencesCover(keys, p);
      SumOccurrencesSnoc(keys, p, x);
      DistinctOnce(keys, x);
    }
  }

  lemma {:induction false} SumOccurrencesEmpty(keys: seq<string>)
    ensures SumOccurrences(keys, []) == 0
  {
    if keys != [] {
      SumOccurrencesEmpty(keys[..|keys| - 1]);
    }
  }

  lemma {:induction false} SumCountsOccurrences(items: seq<Entry>, xs: seq<string>)
    requires forall i | 0 <= i < |items| :: items[i].count == multiset(xs)[items[i].key]
    ensures SumCounts(items) == SumOccurrences(KeysOf(items), xs)
  {
    if items != [] {
      var q := items[..|items| - 1];
      SumCountsOccurrences(q, xs);
      assert KeysOf(items)[..|items| - 1] == KeysOf(q);
    }
  }

  /** However a tally of `xs` is listed, its counts add up to `|xs|`. */
  lemma EnumerationSum(items: seq<Entry>, xs: seq<string>)
    requires Enumerates(items, Tally(xs))
    ensures SumCounts(items) == |xs|
  {
    TallyCounts(xs);
    SumCountsOccurrences(items, xs);
    SumOccurrencesCover(KeysOf(items), xs);
  }

  predicate SortedDesc(s: seq<Entry>) {
    forall i, j | 0 <= i < j < |s| :: s[i].count >= s[j].count
  }

  /** Puts `e` in front of the first entry whose count is not larger. */
  function InsertDesc(e: Entry, s: seq<Entry>): (r: seq<Entry>)
    ensures multiset(r) == multiset(s) + multiset{e}
  {
    if s == [] || e.count >= s[0].count then [e] + s
    else
      assert s == [s[0]] + s[1..];
      [s[0]] + InsertDesc(e, s[1..])
  }

  lemma {:induction false} InsertDescSorted(e: Entry, s: seq<Entry>)
    requires SortedDesc(s)
    ensures SortedDesc(InsertDesc(e, s))
  {
    if s != [] && e.count < s[0].count {
      var t := InsertDesc(e, s[1..]);
      InsertDescSorted(e, s[1..]);
      InsertDescBound(e, s[1..], s[0].count);
      ConsSorted(s[0], t);
    }
  }

  /** Inserting keeps every count at most `b` when all of them were. */
  lemma {:induction false} InsertDescBound(e: Entry, s: seq<Entry>, b: nat)
    requires e.count <= b && forall j | 0 <= j < |s| :: s[j].count <= b
    ensures forall j | 0 <= j < |InsertDesc(e, s)| :: InsertDesc(e, s)[j].count <= b
  {
    if s != [] && e.count < s[0].count {
      InsertDescBound(e, s[1..], b);
    }
  }

  lemma ConsSorted(x: Entry, t: seq<Entry>)
    requires SortedDesc(t) && forall j | 0 <= j < |t| :: t[j].count <= x.count
    ensures SortedDesc([x] + t)
  {
    var r := [x] + t;
    forall i, j | 0 <= i < j < |r|
      ensures r[i].count >= r[j].count
    {
      if i > 0 {
        assert r[i] == t[i - 1] && r[j] == t[j - 1];
      } else {
        assert r[j] == t[j - 1];
      }
    }
  }

  /** `sorted(items, key=lambda x: x[1], reverse=True)`: by count, largest first,
      and a permutation of `items`. */
  function SortDesc(items: seq<Entry>): (r: seq<Entry>)
    ensures SortedDesc(r)
    ensures multiset(r) == multiset(items)
    ensures |r| == |items|
  {
    if items == [] then []
    else
      assert items == [items[0]] + items[1..];
      InsertDescSorted(items[0], SortDesc(items[1..]));
      InsertDesc(items[0], SortDesc(items[1..]))
  }

  lemma {:induction false} InsertDescSum(e: Entry, s: seq<Entry>)
    ensures SumCounts(InsertDesc(e, s)) == e.count + SumCounts(s)
  {
    if s == [] || e.count >= s[0].count {
      SumCountsCons(e, s);
    } else {
      InsertDescSum(e, s[1..]);
      SumCountsCons(s[0], InsertDesc(e, s[1..]));
      SumCountsCons(s[0], s[1..]);
      assert s == [s[0]] + s[1..];
    }
  }

  /** Sorting keeps the total of the counts. */
  lemma {:induction false} SortDescSum(items: seq<Entry>)
    ensures SumCounts(SortDesc(items)) == SumCounts(items)
  {
    if items != [] {
      SortDescSum(items[1..]);
      InsertDescSum(items[0], SortDesc(items[1..]));
      SumCountsCons(items[0], items[1..]);
      assert items == [items[0]] + items[1..];
    }
  }

  /** The entries of `s` whose count is `c`, in order. */
  function WithCount(s: seq<Entry>, c: nat): seq<Entry> {
    if s == [] then [] else (if s[0].count == c then [s[0]] else []) + WithCount(s[1..], c)
  }

  lemma {:induction false} InsertDescWithCount(e: Entry, s: seq<Entry>, c: nat)
    ensures WithCount(InsertDesc(e, s), c) == (if e.count == c then [e] else []) + WithCount(s, c)
  {
    if s == [] || e.count >= s[0].count {
      assert ([e] + s)[1..] == s;
    } else {
      InsertDescWithCount(e, s[1..], c);
      assert ([s[0]] + InsertDesc(e, s[1..]))[1..] == InsertDesc(e, s[1..]);
    }
  }

  /** The sort is stable: entries of equal count keep their input order. */
  lemma {:induction false} SortDescStable(items: seq<Entry>, c: nat)
    ensures WithCount(SortDesc(items), c) == WithCount(items, c)
  {
    if items != [] {
      SortDescStable(items[1..], c);
      InsertDescWithCount(items[0], SortDesc(items[1..]), c);
    }
  }

  /** The index of the first entry with the largest count. */
  function FirstMaxIndex(items: seq<Entry>): (j: nat)
    requires items != []
    ensures j < |items|
    ensures forall i | 0 <= i < |items| :: items[i].count <= items[j].count
    ensures forall i | 0 <= i < j :: items[i].count < items[j].count
  {
    if |items| == 1 then 0
    else
      var j := FirstMaxIndex(items[1..]);
      if items[0].count >= items[1 + j].count then 0 else 1 + j
  }

  /** The sort puts first the earliest of the entries with the largest count. */
  lemma {:induction false} SortDescHead(items: seq<Entry>)
    requires items != []
    ensures SortDesc(items)[0] == items[FirstMaxIndex(items)]
  {
    if |items| > 1 {
      SortDescHead(items[1..]);
    }
  }

  function Min(a: int, b: int): int {
    if a <= b then a else b
  }

  /** `Counter.most_common()` when `n` is None, `Counter.most_common(n)` otherwise,
      on a Counter whose items are listed as `items`. */
  function MostCommon(items: seq<Entry>, n: Option<int>): (r: seq<Entry>)
    ensures SortedDesc(r)
    ensures r <= SortDesc(items)
    ensures |r| == match n case None => |items| case Some(k) => if k <= 0 then 0 else Min(k, |items|)
  {
    match n
    case None => SortDesc(items)
    case Some(k) => if k <= 0 then [] else SortDesc(items)[..Min(k, |items|)]
  }

  /** A prefix of the ranking holds the largest counts: an entry it leaves out
      counts no more than any entry it keeps, and no entry is kept more often
      than the items hold it. */
  lemma TopIsLargest(items: seq<Entry>, r: seq<Entry>)
    requires r <= SortDesc(items)
    ensures multiset(r) <= multiset(items)
    ensures forall e, x | e in items && e !in r && x in r :: e.count <= x.count
  {
    var s := SortDesc(items);
    assert s == r + s[|r|..];
    assert multiset(s) == multiset(r) + multiset(s[|r|..]);
    forall e, x | e in items && e !in r && x in r
      ensures e.count <= x.count
    {
      assert e in multiset(items);
      PrefixLargest(s, r, e, x);
    }
  }

  /** In a list sorted largest first, an entry past a prefix counts no more
      than any entry of the prefix. */
  lemma PrefixLargest(s: seq<Entry>, r: seq<Entry>, e: Entry, x: Entry)
    requires SortedDesc(s) && r <= s
    requires e in multiset(s) && e !in r && x in r
    ensures e.count <= x.count
  {
    var p :| 0 <= p < |s| && s[p] == e;
    var q :| 0 <= q < |r| && r[q] == x;
    assert forall k | 0 <= k < |r| :: s[k] == r[k];
    assert q < |r| <= p;
  }

  /** A list whose keys are distinct holds each entry at most once. */
  lemma {:induction false} AtMostOnce(items: seq<Entry>, e: Entry)
    requires DistinctKeys(items)
    ensures multiset(items)[e] <= 1
  {
    if items != [] {
      var p, x := items[..|items| - 1], items[|items| - 1];
      assert items == p + [x];
      assert DistinctKeys(p) by {
        assert forall i | 0 <= i < |p| :: p[i] == items[i];
      }
      AtMostOnce(p, e);
      if x == e {
        assert forall i | 0 <= i < |p| :: p[i].key != x.key by {
          assert forall i | 0 <= i < |p| :: p[i] == items[i];
        }
        assert e !in p;
      }
    }
  }

  /** An entry at two positions is counted at least twice. */
  lemma CountTwice(s: seq<Entry>, i: nat, j: nat)
    requires i < j < |s|
    ensures s[i] == s[j] ==> multiset(s)[s[j]] >= 2
  {
    assert s == s[..j] + [s[j]] + s[j + 1..];
    assert s[..j][i] == s[i];
    assert s[i] in multiset(s[..j]);
  }

  /** Reordering a list with distinct keys keeps them distinct. */
  lemma PermutedDistinct(items: seq<Entry>, r: seq<Entry>)
    requires DistinctKeys(items) && multiset(r) == multiset(items)
    ensures DistinctKeys(r)
  {
    forall i, j | 0 <= i < j < |r|
      ensures r[i].key != r[j].key
    {
      CountTwice(r, i, j);
      AtMostOnce(items, r[j]);
      assert r[i] in multiset(items) && r[j] in multiset(items);
      var p :| 0 <= p < |items| && items[p] == r[i];
      var q :| 0 <= q < |items| && items[q] == r[j];
    }
  }

  /** The ranking of a Counter's items lists each key at most once, and with
      no `n` it lists every item. */
  lemma MostCommonDistinct(items: seq<Entry>, n: Option<int>)
    requires DistinctKeys(items)
    ensures DistinctKeys(MostCommon(items, n))
    ensures n.None? ==> multiset(MostCommon(items, n)) == multiset(items)
  {
    var s := SortDesc(items);
    var r := MostCommon(items, n);
    PermutedDistinct(items, s);
    assert forall k | 0 <= k < |r| :: r[k] == s[k];
  }

  /** `Counter(xs).most_common(1)[0][0]`: the most frequent value, and of
      several equally frequent ones the one that occurs first. */
  function MostCommonKey(xs: seq<string>): (r: string)
    requires xs != []
    ensures r in xs
    ensures forall c | c in xs :: multiset(xs)[c] <= multiset(xs)[r]
    ensures forall k | 0 <= k < |xs| && multiset(xs)[xs[k]] == multiset(xs)[r] :: r in xs[..k + 1]
  {
    var items := Items(xs);
    assert xs[0] in FirstSeen(xs);
    SortDescHead(items);
    MostCommonKeyFacts(xs);
    MostCommon(items, Some(1))[0].key
  }

  lemma MostCommonKeyFacts(xs: seq<string>)
    requires xs != []
    ensures var items := Items(xs); var j := FirstMaxIndex(items); var r := items[j].key;
      && r in xs
      && (forall c | c in xs :: multiset(xs)[c] <= multiset(xs)[r])
      && (forall k | 0 <= k < |xs| && multiset(xs)[xs[k]] == multiset(xs)[r] :: r in xs[..k + 1])
  {
    var items := Items(xs);
    var ks := FirstSeen(xs);
    assert xs[0] in ks;
    var j := FirstMaxIndex(items);
    var r := items[j].key;
    assert r == ks[j];
    forall c | c in xs
      ensures multiset(xs)[c] <= multiset(xs)[r]
    {
      var i :| 0 <= i < |ks| && ks[i] == c;
      assert items[i].count == multiset(xs)[c];
    }
    forall k | 0 <= k < |xs| && multiset(xs)[xs[k]] == multiset(xs)[r]
      ensures r in xs[..k + 1]
    {
      assert xs[k] in ks;
      var i :| 0 <= i < |ks| && ks[i] == xs[k];
      assert items[i].count == multiset(xs)[xs[k]];
      if i < j {
        assert false;
      } else if i == j {
        assert xs[..k + 1][k] == r;
      } else {
        FirstSeenOrder(xs, j, i, k);
        assert xs[..k] <= xs[..k + 1];
      }
    }
  }

  /** The slice `s[:n]` for any integer `n`: a negative `n` counts from the end. */
  function SliceTo<T>(s: seq<T>, n: int): (r: seq<T>)
    ensures r <= s
    ensures |r| == if n >= 0 then Min(n, |s|) else if |s| + n >= 0 then |s| + n else 0
  {
    if n >= 0 then s[..Min(n, |s|)]
    else if |s| + n >= 0 then s[..|s| + n]
    else []
  }
}
